/**
 * Padding to a target length and truncation to a budget.
 */
module Padding {
  import opened Failures
  import opened Codepoints
  import opened Value

  /** `seg` is `pad` written out repeatedly and cut to |seg| codepoints. */
  predicate PadFill(seg: seq<char>, pad: seq<char>)
  {
    && |pad| > 0
    && (forall i :: 0 <= i < |seg| && i < |pad| ==> seg[i] == pad[i])
    && (forall i :: |pad| <= i < |seg| ==> seg[i] == seg[i - |pad|])
  }

  /** ceil(k / m) * m covers k. */
  lemma CeilCovers(k: nat, m: nat)
    requires m > 0
    ensures ((k + m - 1) / m) * m >= k
  {
    var q := (k + m - 1) / m;
    var r := (k + m - 1) % m;
    assert k + m - 1 == q * m + r;
  }

  /**
   * One side's padding: `ceil(k / |pad|)` copies of `pad`, cut to `k`
   * codepoints. A non-positive width gives nothing.
   */
  function Segment(pad: seq<char>, k: int): (seg: seq<char>)
    requires |pad| > 0
    ensures |seg| == Max(0, k)
    ensures PadFill(seg, pad)
  {
    if k <= 0 then []
    else
      var copies := (k + |pad| - 1) / |pad|;
      CeilCovers(k, |pad|);
      var whole := Codepoints.Repeat(pad, copies);
      assert copies > 0;
      Codepoints.Substr(whole, 0, Some(k))
  }

  /**
   * applyPadding(left, right, pad): an empty pad string or a non-positive
   * total leaves the value unchanged; otherwise `left` codepoints of fill
   * go before and `right` after.
   */
  function ApplyPadding(s: Stringy, left: int, right: int, pad: seq<char>): (r: Stringy)
    ensures r.encoding == s.encoding
    ensures pad == [] || left + right <= 0 ==> r == s
    ensures pad != [] && left + right > 0 ==>
      && |r.str| == Max(0, left) + |s.str| + Max(0, right)
      && r.str[Max(0, left)..Max(0, left) + |s.str|] == s.str
      && PadFill(r.str[..Max(0, left)], pad)
      && PadFill(r.str[Max(0, left) + |s.str|..], pad)
  {
    if |pad| == 0 || |s.str| + left + right <= |s.str| then s
    else
      var l := Segment(pad, left);
      var rr := Segment(pad, right);
      var out := l + s.str + rr;
      assert out[..|l|] == l && out[|l| + |s.str|..] == rr;
      Stringy(out, s.encoding)
  }

  /** padLeft(n, pad): fill before the value up to length n; the value stays intact as the suffix. */
  function PadLeft(s: Stringy, n: int, pad: seq<char>): (r: Stringy)
    ensures r.encoding == s.encoding
    ensures pad == [] || n <= |s.str| ==> r == s
    ensures pad != [] ==> |r.str| == Max(n, |s.str|)
    ensures IsSuffix(s.str, r.str)
    ensures pad != [] ==> PadFill(r.str[..|r.str| - |s.str|], pad)
  {
    ApplyPadding(s, n - Length(s), 0, pad)
  }

  /** padRight(n, pad): fill after the value up to length n; the value stays intact as the prefix. */
  function PadRight(s: Stringy, n: int, pad: seq<char>): (r: Stringy)
    ensures r.encoding == s.encoding
    ensures pad == [] || n <= |s.str| ==> r == s
    ensures pad != [] ==> |r.str| == Max(n, |s.str|)
    ensures IsPrefix(s.str, r.str)
    ensures pad != [] ==> PadFill(r.str[|s.str|..], pad)
  {
    ApplyPadding(s, 0, n - Length(s), pad)
  }

  /**
   * padBoth(n, pad): the deficit d = n - length is split floor(d/2) before
   * and ceil(d/2) after, so the value sits intact in the middle.
   */
  function PadBoth(s: Stringy, n: int, pad: seq<char>): (r: Stringy)
    ensures r.encoding == s.encoding
    ensures pad == [] || n <= |s.str| ==> r == s
    ensures pad != [] ==> |r.str| == Max(n, |s.str|)
    ensures pad != [] && n > |s.str| ==>
      var d := n - |s.str|;
      && d / 2 + (d + 1) / 2 == d
      && r.str[d / 2..d / 2 + |s.str|] == s.str
      && PadFill(r.str[..d / 2], pad)
      && PadFill(r.str[d / 2 + |s.str|..], pad)
      && |r.str[d / 2 + |s.str|..]| - |r.str[..d / 2]| in {0, 1}
  {
    var d := n - Length(s);
    ApplyPadding(s, d / 2, (d + 1) / 2, pad)
  }

  /** pad(n, pad, type): dispatch on the pad type; anything but left, right or both is refused. */
  function Pad(s: Stringy, n: int, pad: seq<char>, padType: string): (r: Result<Stringy>)
    ensures r.Err? <==> padType !in {"left", "right", "both"}
    ensures r.Err? ==> r.error == InvalidArgument
    ensures padType == "left" ==> r == Ok(PadLeft(s, n, pad))
    ensures padType == "right" ==> r == Ok(PadRight(s, n, pad))
    ensures padType == "both" ==> r == Ok(PadBoth(s, n, pad))
  {
    if padType !in ["left", "right", "both"] then Err(InvalidArgument)
    else if padType == "left" then Ok(PadLeft(s, n, pad))
    else if padType == "right" then Ok(PadRight(s, n, pad))
    else Ok(PadBoth(s, n, pad))
  }

  /** The first `budget` codepoints mb_substr keeps; a negative budget leaves that many off the end. */
  function HardCut(t: seq<char>, budget: int): (cut: seq<char>)
    ensures 0 <= budget ==> cut == t[..Min(budget, |t|)]
    ensures budget < 0 ==> cut == t[..Max(0, |t| + budget)]
  {
    Codepoints.Substr(t, 0, Some(budget))
  }

  /**
   * truncate(n, suffix): unchanged when n is at least the length; otherwise
   * the first n - |suffix| codepoints followed by `suffix`, so the result
   * has length exactly n when the suffix fits in n.
   */
  function Truncate(s: Stringy, n: int, suffix: seq<char>): (r: Stringy)
    ensures r.encoding == s.encoding
    ensures n >= |s.str| ==> r == s
    ensures |suffix| <= n < |s.str| ==> r.str == s.str[..n - |suffix|] + suffix && |r.str| == n
    ensures n < |suffix| && n < |s.str| ==> r.str == s.str[..Max(0, |s.str| + n - |suffix|)] + suffix
  {
    if n >= Length(s) then s
    else Stringy(HardCut(s.str, n - |suffix|) + suffix, s.encoding)
  }

  /** PHP's `$a != $b` between `int|false` and an int: false equals exactly 0. */
  predicate LooseDiffers(found: Option<nat>, n: int)
  {
    match found
    case None => n != 0
    case Some(p) => p != n
  }

  /**
   * Whether safeTruncate decides the hard cut split a word: the first space
   * at or after the codepoint before the cut is not the one right at the cut.
   */
  function CutSplitsWord(t: seq<char>, budget: int): bool
  {
    LooseDiffers(Strpos(t, " ", budget - 1), budget)
  }

  /**
   * safeTruncate(n, suffix): unchanged when n is at least the length.
   * Otherwise the hard cut of n - |suffix| codepoints, shortened to its last
   * space when the cut split a word and it has one, followed by `suffix`.
   */
  function SafeTruncate(s: Stringy, n: int, suffix: seq<char>): (r: Stringy)
    ensures r.encoding == s.encoding
    ensures n >= |s.str| ==> r == s
    ensures n < |s.str| ==>
      && IsSuffix(suffix, r.str)
      && IsPrefix(r.str[..|r.str| - |suffix|], HardCut(s.str, n - |suffix|))
    ensures |suffix| <= n < |s.str| ==> |r.str| <= n
    ensures ' ' !in s.str ==> r == Truncate(s, n, suffix)
  {
    if n >= Length(s) then s
    else
      var budget := n - |suffix|;
      var cut := HardCut(s.str, budget);
      var kept :=
        if CutSplitsWord(s.str, budget) then
          match Strrpos(cut, " ", 0)
          case Some(p) => cut[..p]
          case None => cut
        else cut;
      assert (Stringy(kept + suffix, s.encoding)).str[..|kept|] == kept;
      NoSpaceNoLast(cut);
      Stringy(kept + suffix, s.encoding)
  }

  /** A string without a space has no last space. */
  lemma NoSpaceNoLast(t: seq<char>)
    ensures ' ' !in t ==> Strrpos(t, " ", 0).None?
  {
    match Strrpos(t, " ", 0)
    case None =>
    case Some(q) =>
      OccursAtSingleton(t, ' ', q);
  }

  /** When the cut split a word and contains a space, safeTruncate backs off to the last space in the cut. */
  lemma SafeTruncateBacksOff(s: Stringy, n: int, suffix: seq<char>, cut: seq<char>, p: nat)
    requires n < |s.str|
    requires cut == HardCut(s.str, n - |suffix|)
    requires CutSplitsWord(s.str, n - |suffix|)
    requires p < |cut| && cut[p] == ' '
    requires forall q :: p < q < |cut| ==> cut[q] != ' '
    ensures SafeTruncate(s, n, suffix).str == cut[..p] + suffix
  {
    assert OccursAt(cut, " ", p);
    var last := Strrpos(cut, " ", 0);
    assert last.Some?;
    assert last.value == p by {
      assert OccursAt(cut, " ", last.value);
      assert cut[last.value] == ' ';
    }
  }

  /** When the cut ends at a word boundary, or holds no space, safeTruncate is truncate. */
  lemma SafeTruncateKeepsCut(s: Stringy, n: int, suffix: seq<char>)
    requires n < |s.str|
    requires !CutSplitsWord(s.str, n - |suffix|) || ' ' !in HardCut(s.str, n - |suffix|)
    ensures SafeTruncate(s, n, suffix) == Truncate(s, n, suffix)
  {
    var cut := HardCut(s.str, n - |suffix|);
    NoSpaceNoLast(cut);
  }

  /**
   * For a budget strictly inside the string, the cut splits a word unless
   * the codepoint before the cut is not a space and the one at the cut is.
   */
  lemma CutSplitsWordInside(t: seq<char>, budget: int)
    requires 1 <= budget < |t|
    ensures CutSplitsWord(t, budget) <==> !(t[budget - 1] != ' ' && t[budget] == ' ')
  {
    var found := Strpos(t, " ", budget - 1);
    if t[budget - 1] == ' ' {
      assert OccursAt(t, " ", budget - 1);
    } else if t[budget] == ' ' {
      assert OccursAt(t, " ", budget);
      assert !OccursAt(t, " ", budget - 1);
    }
  }
}
