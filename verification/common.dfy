/**
 * The longest-common analysers: prefix and suffix by a linear scan, and the
 * longest common substring by the classic O(n·m) dynamic programme.
 */
module Common {
  import opened Failures
  import opened Codepoints
  import opened Value

  /** `a[x..x+k]` and `b[y..y+k]` are the same k codepoints. */
  ghost predicate CommonAt(a: seq<char>, b: seq<char>, x: int, y: int, k: int)
  {
    0 <= x && 0 <= y && 0 <= k && x + k <= |a| && y + k <= |b| && a[x..x + k] == b[y..y + k]
  }

  /** substr(start, 1) as the scans below read it: one codepoint, counted from the end when `start` is negative. */
  method ReadChar(t: seq<char>, start: int) returns (c: seq<char>)
    requires -|t| <= start < |t|
    ensures 0 <= start ==> c == [t[start]]
    ensures start < 0 ==> c == [t[|t| + start]]
  {
    c := Codepoints.Substr(t, start, Some(1));
  }

  /** longestCommonPrefix(other): the common prefix, which cannot be extended. */
  method LongestCommonPrefix(s: Stringy, other: seq<char>) returns (r: Stringy)
    ensures r.encoding == s.encoding
    ensures IsPrefix(r.str, s.str) && IsPrefix(r.str, other)
    ensures |r.str| < Min(|s.str|, |other|) ==> s.str[|r.str|] != other[|r.str|]
  {
    var maxLength := Min(|s.str|, |other|);
    var prefix: seq<char> := [];
    var i := 0;
    while i < maxLength
      invariant 0 <= i <= maxLength
      invariant prefix == s.str[..i] == other[..i]
    {
      var c := ReadChar(s.str, i);
      var d := ReadChar(other, i);
      if c == d {
        prefix := prefix + c;
        i := i + 1;
      } else {
        break;
      }
    }
    r := Stringy(prefix, s.encoding);
  }

  /** longestCommonSuffix(other): the common suffix, which cannot be extended. */
  method LongestCommonSuffix(s: Stringy, other: seq<char>) returns (r: Stringy)
    ensures r.encoding == s.encoding
    ensures IsSuffix(r.str, s.str) && IsSuffix(r.str, other)
    ensures |r.str| < Min(|s.str|, |other|) ==>
      s.str[|s.str| - |r.str| - 1] != other[|other| - |r.str| - 1]
  {
    var a, b := s.str, other;
    var maxLength := Min(|a|, |b|);
    var suffix: seq<char> := [];
    var i := 1;
    while i <= maxLength
      invariant 1 <= i <= maxLength + 1
      invariant |suffix| == i - 1
      invariant suffix == a[|a| - (i - 1)..]
      invariant suffix == b[|b| - (i - 1)..]
    {
      var c := ReadChar(a, -i);
      var d := ReadChar(b, -i);
      if c == d {
        GrowSuffix(a, i - 1);
        GrowSuffix(b, i - 1);
        suffix := c + suffix;
        i := i + 1;
      } else {
        break;
      }
    }
    r := Stringy(suffix, s.encoding);
  }

  /** The last k + 1 codepoints are one codepoint followed by the last k. */
  lemma GrowSuffix(t: seq<char>, k: nat)
    requires k < |t|
    ensures t[|t| - (k + 1)..] == [t[|t| - (k + 1)]] + t[|t| - k..]
  {
  }

  /** A common suffix that cannot be extended is at least as long as any common suffix. */
  lemma SuffixMaximal(a: seq<char>, b: seq<char>, u: seq<char>, t: seq<char>)
    requires IsSuffix(u, a) && IsSuffix(u, b)
    requires |u| < |a| && |u| < |b| ==> a[|a| - |u| - 1] != b[|b| - |u| - 1]
    requires IsSuffix(t, a) && IsSuffix(t, b)
    ensures |t| <= |u|
  {
  }

  /** A common prefix that cannot be extended is at least as long as any common prefix. */
  lemma PrefixMaximal(a: seq<char>, b: seq<char>, u: seq<char>, t: seq<char>)
    requires IsPrefix(u, a) && IsPrefix(u, b)
    requires |u| < |a| && |u| < |b| ==> a[|u|] != b[|u|]
    requires IsPrefix(t, a) && IsPrefix(t, b)
    ensures |t| <= |u|
  {
  }

  /** The length of the longest common suffix of `a[..i]` and `b[..j]`: the cell the programme fills in. */
  ghost function Suf(a: seq<char>, b: seq<char>, i: nat, j: nat): nat
    requires i <= |a| && j <= |b|
  {
    if i == 0 || j == 0 || a[i - 1] != b[j - 1] then 0 else Suf(a, b, i - 1, j - 1) + 1
  }

  /** A cell's value is the length of a common substring ending at (i, j). */
  lemma {:induction false} SufSound(a: seq<char>, b: seq<char>, i: nat, j: nat)
    requires i <= |a| && j <= |b|
    ensures Suf(a, b, i, j) <= i && Suf(a, b, i, j) <= j
    ensures CommonAt(a, b, i - Suf(a, b, i, j), j - Suf(a, b, i, j), Suf(a, b, i, j))
  {
    if i == 0 || j == 0 || a[i - 1] != b[j - 1] {
    } else {
      SufSound(a, b, i - 1, j - 1);
      var k := Suf(a, b, i - 1, j - 1);
      assert Suf(a, b, i, j) == k + 1;
      assert a[i - 1 - k..i - 1] == b[j - 1 - k..j - 1];
      assert a[i - 1 - k..i] == a[i - 1 - k..i - 1] + [a[i - 1]];
      assert b[j - 1 - k..j] == b[j - 1 - k..j - 1] + [b[j - 1]];
    }
  }

  /** Every common substring ending at (x + k, y + k) is covered by that cell. */
  lemma {:induction false} SufComplete(a: seq<char>, b: seq<char>, x: int, y: int, k: int)
    requires CommonAt(a, b, x, y, k)
    ensures Suf(a, b, x + k, y + k) >= k
    decreases k
  {
    if k > 0 {
      assert a[x + k - 1] == a[x..x + k][k - 1] == b[y..y + k][k - 1] == b[y + k - 1];
      assert a[x..x + k - 1] == a[x..x + k][..k - 1];
      assert b[y..y + k - 1] == b[y..y + k][..k - 1];
      SufComplete(a, b, x, y, k - 1);
    }
  }

  /**
   * What the programme knows about its best match after scanning every cell
   * of rows 0..i-1 and the first j cells of row i: `len` is the largest cell
   * value seen, and `end` the first row reaching it (0 when nothing matched).
   */
  ghost predicate Best(a: seq<char>, b: seq<char>, i: nat, j: nat, len: nat, end: nat)
    requires i <= |a| && j <= |b| + 1
  {
    && end <= i
    && (forall p, q :: 0 <= p < i && 0 <= q <= |b| ==> Suf(a, b, p, q) <= len)
    && (forall q :: 0 <= q < j ==> Suf(a, b, i, q) <= len)
    && (forall p, q :: 0 <= p < end && 0 <= q <= |b| ==> Suf(a, b, p, q) < len)
    && (len > 0 ==> 1 <= end && exists q :: 0 <= q <= |b| && Suf(a, b, end, q) == len)
    && (len == 0 ==> end == 0)
  }

  /** Visiting cell (i, j): the best so far is replaced only by a strictly longer match. */
  lemma BestStep(a: seq<char>, b: seq<char>, i: nat, j: nat, len: nat, end: nat)
    requires 1 <= i <= |a| && 1 <= j <= |b|
    requires Best(a, b, i, j, len, end)
    ensures Suf(a, b, i, j) > len ==> Best(a, b, i, j + 1, Suf(a, b, i, j), i)
    ensures Suf(a, b, i, j) <= len ==> Best(a, b, i, j + 1, len, end)
  {
  }

  /** Finishing row i - 1 starts row i with its column 0, which is always 0. */
  lemma BestNextRow(a: seq<char>, b: seq<char>, i: nat, len: nat, end: nat)
    requires 1 <= i <= |a|
    requires Best(a, b, i - 1, |b| + 1, len, end)
    ensures Best(a, b, i, 1, len, end)
  {
  }

  /** Once every row is scanned, the best match is a longest common substring, the earliest one in `a`. */
  lemma BestIsLongest(a: seq<char>, b: seq<char>, len: nat, end: nat, t: seq<char>)
    requires Best(a, b, |a|, |b| + 1, len, end)
    requires len <= end && t == a[end - len..end]
    ensures forall x, y, k :: CommonAt(a, b, x, y, k) ==> k <= |t|
    ensures exists x, y ::
      && CommonAt(a, b, x, y, |t|)
      && t == a[x..x + |t|]
      && forall x', y' :: CommonAt(a, b, x', y', |t|) ==> x <= x'
  {
    forall x, y, k | CommonAt(a, b, x, y, k) ensures k <= len {
      SufComplete(a, b, x, y, k);
    }
    if len > 0 {
      var q :| 0 <= q <= |b| && Suf(a, b, end, q) == len;
      SufSound(a, b, end, q);
      assert CommonAt(a, b, end - len, q - len, len);
    } else {
      assert CommonAt(a, b, 0, 0, 0);
    }
    forall x', y' | CommonAt(a, b, x', y', len) ensures end - len <= x' {
      if x' < end - len {
        SufComplete(a, b, x', y', len);
      }
    }
  }

  /** The best match fits before the row it ends in. */
  lemma BestEndCoversLength(a: seq<char>, b: seq<char>, len: nat, end: nat)
    requires Best(a, b, |a|, |b| + 1, len, end)
    ensures len <= end
  {
    if len > 0 {
      var q :| 0 <= q <= |b| && Suf(a, b, end, q) == len;
      SufSound(a, b, end, q);
    }
  }

  /** substr(start, length) on a window known to lie inside the string. */
  method ReadWindow(t: seq<char>, start: nat, length: nat) returns (w: seq<char>)
    requires start + length <= |t|
    ensures w == t[start..start + length]
  {
    w := Codepoints.Substr(t, start, Some(length));
  }

  /**
   * Row i of the programme, computed from row i - 1: each cell extends the
   * diagonal match or resets to 0, and the best match is updated.
   */
  method FillRow(a: seq<char>, b: seq<char>, i: nat, prev: seq<nat>, len0: nat, end0: nat)
    returns (row: seq<nat>, len: nat, end: nat)
    requires 1 <= i <= |a|
    requires |prev| == |b| + 1
    requires forall q :: 0 <= q <= |b| ==> prev[q] == Suf(a, b, i - 1, q)
    requires Best(a, b, i - 1, |b| + 1, len0, end0)
    ensures |row| == |b| + 1
    ensures forall q :: 0 <= q <= |b| ==> row[q] == Suf(a, b, i, q)
    ensures Best(a, b, i, |b| + 1, len, end)
  {
    BestNextRow(a, b, i, len0, end0);
    len, end := len0, end0;
    row := [0];
    var j := 1;
    while j <= |b|
      invariant 1 <= j <= |b| + 1
      invariant |row| == j
      invariant forall q :: 0 <= q < j ==> row[q] == Suf(a, b, i, q)
      invariant Best(a, b, i, j, len, end)
    {
      BestStep(a, b, i, j, len, end);
      var strChar := ReadChar(a, i - 1);
      var otherChar := ReadChar(b, j - 1);
      var cell: nat := if strChar == otherChar then prev[j - 1] + 1 else 0;
      assert cell == Suf(a, b, i, j);
      row := row + [cell];
      if strChar == otherChar && cell > len {
        len := cell;
        end := i;
      }
      j := j + 1;
    }
  }

  /**
   * The whole table, row by row (each row reads only the one before it);
   * what remains is the best match's bookkeeping.
   */
  method ScanTable(a: seq<char>, b: seq<char>) returns (len: nat, end: nat)
    ensures Best(a, b, |a|, |b| + 1, len, end)
  {
    len, end := 0, 0;
    var row: seq<nat> := seq(|b| + 1, q => 0);
    var i := 0;
    while i < |a|
      invariant 0 <= i <= |a|
      invariant |row| == |b| + 1
      invariant forall q :: 0 <= q <= |b| ==> row[q] == Suf(a, b, i, q)
      invariant Best(a, b, i, |b| + 1, len, end)
    {
      row, len, end := FillRow(a, b, i + 1, row, len, end);
      i := i + 1;
    }
  }

  /**
   * longestCommonSubstring(other): '' if either string is empty; otherwise a
   * substring of both that no common substring is longer than, and among the
   * longest ones the one that starts (equivalently, ends) earliest in the
   * receiver, because a cell only replaces the best so far when strictly longer.
   */
  method LongestCommonSubstring(s: Stringy, other: seq<char>) returns (r: Stringy)
    ensures r.encoding == s.encoding
    ensures s.str == [] || other == [] ==> r.str == []
    ensures forall x, y, k :: CommonAt(s.str, other, x, y, k) ==> k <= |r.str|
    ensures exists x, y ::
      && CommonAt(s.str, other, x, y, |r.str|)
      && r.str == s.str[x..x + |r.str|]
      && forall x', y' :: CommonAt(s.str, other, x', y', |r.str|) ==> x <= x'
  {
    if |s.str| == 0 || |other| == 0 {
      r := Stringy("", s.encoding);
      assert CommonAt(s.str, other, 0, 0, 0);
      return;
    }
    var len, end := ScanTable(s.str, other);
    BestEndCoversLength(s.str, other, len, end);
    var window := ReadWindow(s.str, end - len, len);
    BestIsLongest(s.str, other, len, end, window);
    r := Stringy(window, s.encoding);
  }
}
