/**
 * Trimming, whitespace collapsing and case mapping. Whitespace and the case
 * maps come from a `CharClasses` parameter.
 */
module Casing {
  import opened Failures
  import opened Codepoints
  import opened Classes
  import opened Runs
  import opened Value

  /**
   * The codepoints trim, trimLeft and trimRight strip: whitespace when no
   * character list is given or the list is falsy ('' or "0"), otherwise
   * exactly the listed codepoints.
   */
  function StripSet(cc: CharClasses, chars: Option<seq<char>>): char -> bool
  {
    if chars.None? || chars.value == "" || chars.value == "0" then cc.isSpace
    else c => c in chars.value
  }

  /** trimLeft(chars): the longest stripped prefix is removed. */
  function TrimLeft(s: Stringy, cc: CharClasses, chars: Option<seq<char>>): (r: Stringy)
    ensures r.encoding == s.encoding
    ensures IsSuffix(r.str, s.str)
    ensures forall i :: 0 <= i < |s.str| - |r.str| ==> StripSet(cc, chars)(s.str[i])
    ensures r.str != [] ==> !StripSet(cc, chars)(r.str[0])
  {
    var p := StripSet(cc, chars);
    LeadingRunIn(p, s.str);
    Stringy(s.str[LeadingRun(p, s.str)..], s.encoding)
  }

  /** trimRight(chars): the longest stripped suffix is removed. */
  function TrimRight(s: Stringy, cc: CharClasses, chars: Option<seq<char>>): (r: Stringy)
    ensures r.encoding == s.encoding
    ensures IsPrefix(r.str, s.str)
    ensures forall i :: |r.str| <= i < |s.str| ==> StripSet(cc, chars)(s.str[i])
    ensures r.str != [] ==> !StripSet(cc, chars)(r.str[|r.str| - 1])
  {
    var p := StripSet(cc, chars);
    Stringy(s.str[..|s.str| - TrailingRun(p, s.str)], s.encoding)
  }

  /**
   * `r` is `t` with a stripped prefix of length `lo` and a stripped suffix
   * removed, and neither end of `r` could be stripped further.
   */
  ghost predicate StrippedWindow(p: char -> bool, t: seq<char>, r: seq<char>, lo: int)
  {
    && 0 <= lo && lo + |r| <= |t|
    && r == t[lo..lo + |r|]
    && (forall i :: 0 <= i < lo ==> p(t[i]))
    && (forall i :: lo + |r| <= i < |t| ==> p(t[i]))
    && (r != [] ==> !p(r[0]) && !p(r[|r| - 1]))
  }

  /**
   * trim(chars): strip both ends. When everything is strippable the result
   * is empty; otherwise it is the window between the first and the last
   * codepoint that is kept.
   */
  function Trim(s: Stringy, cc: CharClasses, chars: Option<seq<char>>): (r: Stringy)
    ensures r.encoding == s.encoding
    ensures exists lo :: StrippedWindow(StripSet(cc, chars), s.str, r.str, lo)
  {
    var left := TrimLeft(s, cc, chars);
    var r := TrimRight(left, cc, chars);
    var lo := |s.str| - |left.str|;
    assert r.str == s.str[lo..lo + |r.str|];
    assert r.str != [] ==> r.str[0] == left.str[0];
    assert StrippedWindow(StripSet(cc, chars), s.str, r.str, lo);
    r
  }

  /** Trimming a trimmed value changes nothing. */
  lemma TrimIdempotent(s: Stringy, cc: CharClasses, chars: Option<seq<char>>)
    ensures Trim(Trim(s, cc, chars), cc, chars) == Trim(s, cc, chars)
  {
    var p := StripSet(cc, chars);
    var t := Trim(s, cc, chars);
    var left := TrimLeft(t, cc, chars);
    assert LeadingRun(p, t.str) == 0;
    assert left == t;
    assert TrailingRun(p, t.str) == 0;
  }

  /** Text that neither starts nor ends with whitespace is left alone by trim(). */
  lemma TrimUntouched(s: Stringy, cc: CharClasses)
    requires s.str != [] ==> !cc.isSpace(s.str[0]) && !cc.isSpace(s.str[|s.str| - 1])
    ensures Trim(s, cc, None) == s
  {
    var r := Trim(s, cc, None);
    assert StripSet(cc, None) == cc.isSpace;
    var lo :| StrippedWindow(cc.isSpace, s.str, r.str, lo);
    if s.str != [] {
      assert r.str == s.str[0..|s.str|];
    }
  }

  /** A window of a string inherits every property that holds codepoint by codepoint. */
  lemma WindowKeeps(p: char -> bool, u: seq<char>, r: seq<char>, lo: int, rep: seq<char>)
    requires 0 <= lo && lo + |r| <= |u| && r == u[lo..lo + |r|]
    requires forall i :: 0 <= i < |u| && p(u[i]) ==> u[i] in rep
    requires NoAdjacent(p, u)
    ensures forall i :: 0 <= i < |r| && p(r[i]) ==> r[i] in rep
    ensures NoAdjacent(p, r)
  {
    assert forall i :: 0 <= i < |r| ==> r[i] == u[lo + i];
  }

  /**
   * collapseWhitespace(): every run of whitespace becomes one ' ', then the
   * result is trimmed.
   */
  function CollapseWhitespace(s: Stringy, cc: CharClasses): (r: Stringy)
    ensures r.encoding == s.encoding
  {
    Trim(Stringy(CollapseRuns(cc.isSpace, s.str, " "), s.encoding), cc, None)
  }

  /** Trimming whitespace keeps the codepoint-by-codepoint properties and leaves no whitespace at the ends. */
  lemma TrimKeeps(u: Stringy, cc: CharClasses, rep: seq<char>)
    requires forall i :: 0 <= i < |u.str| && cc.isSpace(u.str[i]) ==> u.str[i] in rep
    requires NoAdjacent(cc.isSpace, u.str)
    ensures var r := Trim(u, cc, None).str;
      && (r != [] ==> !cc.isSpace(r[0]) && !cc.isSpace(r[|r| - 1]))
      && NoAdjacent(cc.isSpace, r)
      && forall i :: 0 <= i < |r| && cc.isSpace(r[i]) ==> r[i] in rep
  {
    var r := Trim(u, cc, None).str;
    assert StripSet(cc, None) == cc.isSpace;
    var lo :| StrippedWindow(cc.isSpace, u.str, r, lo);
    WindowKeeps(cc.isSpace, u.str, r, lo, rep);
  }

  /**
   * When ' ' is whitespace, a collapsed value has no whitespace at either
   * end, no two whitespace codepoints side by side, and no whitespace
   * other than ' '.
   */
  lemma CollapseWhitespaceShape(s: Stringy, cc: CharClasses)
    requires cc.isSpace(' ')
    ensures var r := CollapseWhitespace(s, cc).str;
      && (r != [] ==> !cc.isSpace(r[0]) && !cc.isSpace(r[|r| - 1]))
      && NoAdjacent(cc.isSpace, r)
      && forall i :: 0 <= i < |r| && cc.isSpace(r[i]) ==> r[i] == ' '
  {
    var u := Stringy(CollapseRuns(cc.isSpace, s.str, " "), s.encoding);
    CollapseRunsClass(cc.isSpace, s.str, " ");
    assert CollapseWhitespace(s, cc) == Trim(u, cc, None);
    TrimKeeps(u, cc, " ");
  }

  /**
   * Words free of whitespace with whitespace runs between them collapse to
   * the words joined by single spaces.
   */
  lemma CollapseWhitespaceWords(cc: CharClasses, ws: seq<seq<char>>, gs: seq<seq<char>>, enc: Encoding)
    requires |ws| >= 1 && |gs| + 1 == |ws|
    requires forall k :: 0 <= k < |ws| ==> ws[k] != []
    requires AllIn(c => !cc.isSpace(c), ws)
    requires forall k :: 0 <= k < |gs| ==> gs[k] != []
    requires AllIn(cc.isSpace, gs)
    ensures CollapseWhitespace(Stringy(Spaced(ws, gs), enc), cc).str == Join(" ", ws)
  {
    CollapseSpaced(cc.isSpace, ws, gs, " ");
    JoinEnds(" ", ws);
    TrimUntouched(Stringy(Join(" ", ws), enc), cc);
  }

  /** toLowerCase(): every codepoint through the lower-case map. */
  function ToLowerCase(s: Stringy, cc: CharClasses): (r: Stringy)
    ensures r.encoding == s.encoding
    ensures |r.str| == |s.str|
    ensures forall i :: 0 <= i < |s.str| ==> r.str[i] == cc.lower(s.str[i])
  {
    Stringy(Map(cc.lower, s.str), s.encoding)
  }

  /** toUpperCase(): every codepoint through the upper-case map. */
  function ToUpperCase(s: Stringy, cc: CharClasses): (r: Stringy)
    ensures r.encoding == s.encoding
    ensures |r.str| == |s.str|
    ensures forall i :: 0 <= i < |s.str| ==> r.str[i] == cc.upper(s.str[i])
  {
    Stringy(Map(cc.upper, s.str), s.encoding)
  }

  /** Lower-casing twice is lower-casing once, when the map is idempotent on every codepoint. */
  lemma ToLowerCaseIdempotent(s: Stringy, cc: CharClasses)
    requires forall c :: cc.lower(cc.lower(c)) == cc.lower(c)
    ensures ToLowerCase(ToLowerCase(s, cc), cc) == ToLowerCase(s, cc)
  {
    var once := ToLowerCase(s, cc);
    var twice := ToLowerCase(once, cc);
    assert forall i :: 0 <= i < |s.str| ==> twice.str[i] == cc.lower(cc.lower(s.str[i]));
  }

  /** The map applied to the first codepoint only. */
  function MapFirst(f: char -> char, t: seq<char>): (r: seq<char>)
    ensures |r| == |t|
    ensures t != [] ==> r[0] == f(t[0]) && r[1..] == t[1..]
  {
    if t == [] then [] else [f(t[0])] + t[1..]
  }

  /**
   * upperCaseFirst(): substr(0, 1) upper-cased, followed by
   * substr(1, length - 1).
   */
  function UpperCaseFirst(s: Stringy, cc: CharClasses): (r: Stringy)
    ensures r.encoding == s.encoding
    ensures r.str == MapFirst(cc.upper, s.str)
  {
    var first := Value.Substr(s, 0, Some(1)).str;
    var rest := Value.Substr(s, 1, Some(Length(s) - 1)).str;
    assert s.str != [] ==> rest == s.str[1..];
    Stringy(Map(cc.upper, first) + rest, s.encoding)
  }

  /** lowerCaseFirst(): the same with the lower-case map. */
  function LowerCaseFirst(s: Stringy, cc: CharClasses): (r: Stringy)
    ensures r.encoding == s.encoding
    ensures r.str == MapFirst(cc.lower, s.str)
  {
    var first := Value.Substr(s, 0, Some(1)).str;
    var rest := Value.Substr(s, 1, Some(Length(s) - 1)).str;
    assert s.str != [] ==> rest == s.str[1..];
    Stringy(Map(cc.lower, first) + rest, s.encoding)
  }

  /** lowerCaseFirst undoes upperCaseFirst when the lower-case map undoes the upper-case map on the first codepoint. */
  lemma CaseFirstInverse(s: Stringy, cc: CharClasses)
    requires s.str != [] ==> cc.lower(cc.upper(s.str[0])) == s.str[0]
    ensures LowerCaseFirst(UpperCaseFirst(s, cc), cc) == s
  {
    var u := UpperCaseFirst(s, cc);
    if s.str != [] {
      assert LowerCaseFirst(u, cc).str == [s.str[0]] + s.str[1..];
      assert [s.str[0]] + s.str[1..] == s.str;
    }
  }
}
