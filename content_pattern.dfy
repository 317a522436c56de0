/**
 * The table-of-contents pattern `(\d+\.)+(.*+)` of the latest revision
 * (src/main/java/com/githang/java/MergeHtml.java, line 23), matched with
 * `Matcher.find()` and read through `group(2)`, as a hand-written scanner.
 *
 * `\d` is an ASCII digit, group 1 is repeated greedily and the possessive
 * `.*+` takes every character up to the first line terminator. Because `.*+`
 * also matches the empty string, the pattern matches at a position exactly
 * when one `\d+\.` group does, so `find()` needs no backtracking beyond that.
 */
module ContentPattern {
  import opened Wrappers
  import opened JavaString

  /** The characters `.` does not match: Java's line terminators. */
  predicate IsLineTerminator(c: char) {
    c == '\n' || c == '\r' || c == '\U{0085}' || c == '\U{2028}' || c == '\U{2029}'
  }

  /**
   * A declarative reading of "`s[k..q]` matches `(\d+\.)+`": a non-empty
   * run of digits and dots that ends with a dot and in which every dot
   * follows a digit.
   */
  predicate IsNumbering(s: string, k: nat, q: nat) {
    && k < q <= |s|
    && s[q - 1] == '.'
    && forall i :: k <= i < q ==> NumberingChar(s, k, i)
  }

  /** The character at `i` may stand inside a numbering that starts at `k`. */
  predicate NumberingChar(s: string, k: nat, i: nat)
    requires i < |s|
  {
    IsDigit(s[i]) || (s[i] == '.' && i > k && IsDigit(s[i - 1]))
  }

  /** Some digit of `s` is immediately followed by a dot. */
  predicate HasNumberedDot(s: string) {
    exists i :: 0 <= i < |s| - 1 && IsDigit(s[i]) && s[i + 1] == '.'
  }

  /** The end of the longest run of digits that starts at `i`. */
  function DigitRunEnd(s: string, i: nat): (j: nat)
    requires i <= |s|
    ensures i <= j <= |s|
    ensures forall k :: i <= k < j ==> IsDigit(s[k])
    ensures j == |s| || !IsDigit(s[j])
    decreases |s| - i
  {
    if i < |s| && IsDigit(s[i]) then DigitRunEnd(s, i + 1) else i
  }

  /** One repetition of group 1, `\d+\.`, tried at `i`: the position after its dot. */
  function GroupAt(s: string, i: nat): Option<nat>
    requires i <= |s|
  {
    if i < |s| && IsDigit(s[i]) then
      var j := DigitRunEnd(s, i);
      if j < |s| && s[j] == '.' then Some(j + 1) else None
    else None
  }

  /** Greedy repetition of group 1 from `i`: where the repetitions stop. */
  function ChainEnd(s: string, i: nat): (j: nat)
    requires i <= |s|
    ensures i <= j <= |s| && GroupAt(s, j).None?
    decreases |s| - i
  {
    match GroupAt(s, i)
    case Some(k) => ChainEnd(s, k)
    case None => i
  }

  /** The first line terminator at or after `i`, or the end of `s`. */
  function LineEnd(s: string, i: nat): (j: nat)
    requires i <= |s|
    ensures i <= j <= |s|
    ensures forall k :: i <= k < j ==> !IsLineTerminator(s[k])
    ensures j == |s| || IsLineTerminator(s[j])
    decreases |s| - i
  {
    if i < |s| && !IsLineTerminator(s[i]) then LineEnd(s, i + 1) else i
  }

  /** The scan of `find()`: the first start position from `from` on where the pattern matches. */
  function FindFrom(s: string, from: nat): (r: Option<nat>)
    requires from <= |s|
    ensures r.Some? ==> from <= r.value < |s| && GroupAt(s, r.value).Some?
    ensures r.Some? ==> forall k :: from <= k < r.value ==> GroupAt(s, k).None?
    ensures r.None? ==> forall k :: from <= k <= |s| ==> GroupAt(s, k).None?
    decreases |s| - from
  {
    if from == |s| then None
    else if GroupAt(s, from).Some? then Some(from)
    else FindFrom(s, from + 1)
  }

  /** Where a successful `find()` starts, where group 2 starts, and where the match ends. */
  datatype Match = Match(start: nat, labelStart: nat, end: nat)

  /** `CONTENT_PATTERN.matcher(s).find()`, with the bounds of the match. */
  function Find(s: string): Option<Match> {
    match FindFrom(s, 0)
    case None => None
    case Some(k) =>
      var p := ChainEnd(s, GroupAt(s, k).value);
      Some(Match(k, p, LineEnd(s, p)))
  }

  /** `group(2)` after a successful `find()`, or `None` when `find()` fails. */
  function Label(s: string): Option<string> {
    match Find(s)
    case None => None
    case Some(m) =>
      FindIsLeftmostLongest(s);
      Some(s[m.labelStart..m.end])
  }

  // ------------------------------------------------------------------ proofs

  lemma GroupIsNumbering(s: string, i: nat)
    requires i <= |s| && GroupAt(s, i).Some?
    ensures i < GroupAt(s, i).value <= |s| && IsNumbering(s, i, GroupAt(s, i).value)
  {
    var j := DigitRunEnd(s, i);
    assert forall k :: i <= k < j ==> NumberingChar(s, i, k);
    assert NumberingChar(s, i, j);
  }

  /** A numbering that starts at `i` begins with one group, and what follows that group is a numbering again (or nothing). */
  lemma NumberingStartsWithGroup(s: string, i: nat, q: nat)
    requires IsNumbering(s, i, q)
    ensures GroupAt(s, i).Some? && GroupAt(s, i).value <= q
    ensures GroupAt(s, i).value < q ==> IsNumbering(s, GroupAt(s, i).value, q)
  {
    assert NumberingChar(s, i, i);
    var j := DigitRunEnd(s, i);
    assert !IsDigit(s[q - 1]);
    assert NumberingChar(s, i, j);
    var u := j + 1;
    if u < q {
      assert NumberingChar(s, i, u);
      forall m | u <= m < q ensures NumberingChar(s, u, m) {
        assert NumberingChar(s, i, m);
      }
    }
  }

  /** Two numberings side by side form one numbering. */
  lemma NumberingConcat(s: string, i: nat, j: nat, q: nat)
    requires IsNumbering(s, i, j) && IsNumbering(s, j, q)
    ensures IsNumbering(s, i, q)
  {
    forall m | i <= m < q ensures NumberingChar(s, i, m) {
      if m < j {
        assert NumberingChar(s, i, m);
      } else {
        assert NumberingChar(s, j, m);
      }
    }
  }

  /** The part of a longer numbering that follows a shorter one is a numbering. */
  lemma NumberingRest(s: string, k: nat, c: nat, q: nat)
    requires IsNumbering(s, k, c) && IsNumbering(s, k, q) && c < q
    ensures IsNumbering(s, c, q)
  {
    assert NumberingChar(s, k, c);
    assert NumberingChar(s, k, c - 1);
    forall m | c <= m < q ensures NumberingChar(s, c, m) {
      assert NumberingChar(s, k, m);
    }
  }

  /** The greedy repetition from the end of a numbering extends it to the longest numbering there is. */
  lemma {:induction false} ChainIsLongestNumbering(s: string, k: nat, i: nat)
    requires IsNumbering(s, k, i)
    ensures IsNumbering(s, k, ChainEnd(s, i))
    ensures forall q: nat :: ChainEnd(s, i) < q ==> !IsNumbering(s, k, q)
    decreases |s| - i
  {
    match GroupAt(s, i)
    case Some(j) =>
      GroupIsNumbering(s, i);
      NumberingConcat(s, k, i, j);
      ChainIsLongestNumbering(s, k, j);
    case None =>
      forall q: nat | i < q ensures !IsNumbering(s, k, q) {
        if IsNumbering(s, k, q) {
          NumberingRest(s, k, i, q);
          NumberingStartsWithGroup(s, i, q);
        }
      }
  }

  /** Where group 1 cannot start, no numbering starts. */
  lemma NoGroupNoNumbering(s: string, k: nat)
    requires k <= |s| && GroupAt(s, k).None?
    ensures forall q: nat :: !IsNumbering(s, k, q)
  {
    forall q: nat | IsNumbering(s, k, q) ensures false {
      NumberingStartsWithGroup(s, k, q);
    }
  }

  lemma GroupExistsIffNumberedDot(s: string)
    ensures (exists k :: 0 <= k <= |s| && GroupAt(s, k).Some?) <==> HasNumberedDot(s)
  {
    if HasNumberedDot(s) {
      var i :| 0 <= i < |s| - 1 && IsDigit(s[i]) && s[i + 1] == '.';
      assert DigitRunEnd(s, i + 1) == i + 1;
      assert GroupAt(s, i).Some?;
    }
    if k :| 0 <= k <= |s| && GroupAt(s, k).Some? {
      var j := DigitRunEnd(s, k);
      assert IsDigit(s[j - 1]) && s[j] == '.';
    }
  }

  /**
   * What `find()` and `group(2)` deliver: the match starts at the leftmost
   * position where some numbering starts, group 1 covers the longest
   * numbering there, and group 2 runs from its end to the first line
   * terminator. There is no match exactly when no digit is followed by a dot.
   */
  lemma FindIsLeftmostLongest(s: string)
    ensures Find(s).None? <==> !HasNumberedDot(s)
    ensures Find(s).Some? ==>
      var m := Find(s).value;
      && m.start < m.labelStart <= m.end <= |s|
      && IsNumbering(s, m.start, m.labelStart)
      && (forall q: nat :: m.labelStart < q ==> !IsNumbering(s, m.start, q))
      && (forall k: nat, q: nat :: k < m.start ==> !IsNumbering(s, k, q))
      && (forall i :: m.labelStart <= i < m.end ==> !IsLineTerminator(s[i]))
      && (m.end == |s| || IsLineTerminator(s[m.end]))
  {
    GroupExistsIffNumberedDot(s);
    match FindFrom(s, 0)
    case None =>
    case Some(k) =>
      var j := GroupAt(s, k).value;
      GroupIsNumbering(s, k);
      ChainIsLongestNumbering(s, k, j);
      forall k': nat, q: nat | k' < k ensures !IsNumbering(s, k', q) {
        NoGroupNoNumbering(s, k');
      }
  }

  /** `group(2)` is the text after the longest leading numbering, up to the end of its line. */
  lemma LabelFollowsNumbering(s: string)
    ensures Label(s).None? <==> !HasNumberedDot(s)
    ensures Label(s).Some? ==>
      var m := Find(s).value;
      && s[m.labelStart..m.end] == Label(s).value
      && (forall i :: 0 <= i < |Label(s).value| ==> !IsLineTerminator(Label(s).value[i]))
      && s[m.start..m.labelStart] + Label(s).value == s[m.start..m.end]
  {
    FindIsLeftmostLongest(s);
  }
}
