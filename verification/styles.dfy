/**
 * The case-style rewriters: delimit (with dasherize and underscored) and
 * camelize (with upperCamelize). Word and digit classes and the case maps
 * come from a `CharClasses` parameter.
 */
module Styles {
  import opened Failures
  import opened Codepoints
  import opened Classes
  import opened Runs
  import opened Value
  import opened Casing

  /** The codepoints delimit and camelize treat as word separators: '-', '_' and whitespace. */
  predicate Separator(cc: CharClasses, c: char)
  {
    c == '-' || c == '_' || cc.isSpace(c)
  }

  function SeparatorClass(cc: CharClasses): char -> bool
  {
    c => Separator(cc, c)
  }

  /**
   * `\B` in front of position i: the codepoints on both sides are word
   * codepoints, or neither is; the start of the string counts as non-word.
   */
  predicate NoBoundaryBefore(cc: CharClasses, t: seq<char>, i: nat)
    requires i < |t|
  {
    (i > 0 && cc.isWord(t[i - 1])) == cc.isWord(t[i])
  }

  /** What `\B([A-Z])` → `-\1` makes of position i. */
  function Marked(cc: CharClasses, t: seq<char>, i: nat): seq<char>
    requires i < |t|
  {
    if IsAsciiUpper(t[i]) && NoBoundaryBefore(cc, t, i) then ['-', t[i]] else [t[i]]
  }

  /**
   * preg_replace('/\B([A-Z])/u', '-\1') restricted to positions lo..hi-1:
   * each position is judged on the original text, since the pattern reads
   * only the codepoint before the capital and never one it inserted.
   */
  function MarkCapitals(cc: CharClasses, t: seq<char>, lo: nat, hi: nat): seq<char>
    requires lo <= hi <= |t|
    decreases hi - lo
  {
    if lo == hi then [] else Marked(cc, t, lo) + MarkCapitals(cc, t, lo + 1, hi)
  }

  /** Marking splits at any position in between. */
  lemma {:induction false} MarkCapitalsSplit(cc: CharClasses, t: seq<char>, lo: nat, mid: nat, hi: nat)
    requires lo <= mid <= hi <= |t|
    ensures MarkCapitals(cc, t, lo, hi) == MarkCapitals(cc, t, lo, mid) + MarkCapitals(cc, t, mid, hi)
    decreases mid - lo
  {
    if lo < mid {
      MarkCapitalsSplit(cc, t, lo + 1, mid, hi);
      var x := Marked(cc, t, lo);
      Assoc(x, MarkCapitals(cc, t, lo + 1, mid), MarkCapitals(cc, t, mid, hi));
    }
  }

  /** Without ASCII capitals, marking leaves the text as it is. */
  lemma {:induction false} MarkCapitalsPlain(cc: CharClasses, t: seq<char>, lo: nat, hi: nat)
    requires lo <= hi <= |t|
    requires forall i :: lo <= i < hi ==> !IsAsciiUpper(t[i])
    ensures MarkCapitals(cc, t, lo, hi) == t[lo..hi]
    decreases hi - lo
  {
    if lo < hi {
      MarkCapitalsPlain(cc, t, lo + 1, hi);
      assert t[lo..hi] == [t[lo]] + t[lo + 1..hi];
    }
  }

  /**
   * What delimit does after trimming: put '-' before every capital with no
   * word boundary in front of it, lower-case, then turn every run of '-',
   * '_' and whitespace into one `d`.
   */
  function DelimitText(cc: CharClasses, t: seq<char>, d: seq<char>): (r: seq<char>)
    ensures forall i :: 0 <= i < |r| && Separator(cc, r[i]) ==> r[i] in d
    ensures |d| == 1 && Separator(cc, d[0]) ==> NoAdjacent(SeparatorClass(cc), r)
  {
    var lowered := Map(cc.lower, MarkCapitals(cc, t, 0, |t|));
    CollapseRunsClass(SeparatorClass(cc), lowered, d);
    CollapseRuns(SeparatorClass(cc), lowered, d)
  }

  /** delimit(d): the trimmed value, delimited. */
  function Delimit(s: Stringy, cc: CharClasses, d: seq<char>): (r: Stringy)
    ensures r.encoding == s.encoding
    ensures forall i :: 0 <= i < |r.str| && Separator(cc, r.str[i]) ==> r.str[i] in d
    ensures |d| == 1 && Separator(cc, d[0]) ==> NoAdjacent(SeparatorClass(cc), r.str)
  {
    Stringy(DelimitText(cc, Trim(s, cc, None).str, d), s.encoding)
  }

  /** The lower-case map sends codepoints that are not separators to codepoints that are not separators. */
  ghost predicate LowerKeepsWords(cc: CharClasses)
  {
    forall c :: !Separator(cc, c) ==> !Separator(cc, cc.lower(c))
  }

  /** Lower-casing text without separators leaves none, when the map keeps words free of separators. */
  lemma LowerNoSeparator(cc: CharClasses, w: seq<char>)
    requires LowerKeepsWords(cc)
    requires forall i :: 0 <= i < |w| ==> !Separator(cc, w[i])
    ensures forall i :: 0 <= i < |Map(cc.lower, w)| ==> !SeparatorClass(cc)(Map(cc.lower, w)[i])
  {
  }

  /** Text with no capital and no separator is only lower-cased. */
  lemma DelimitPlain(cc: CharClasses, t: seq<char>, d: seq<char>)
    requires LowerKeepsWords(cc)
    requires forall i :: 0 <= i < |t| ==> !IsAsciiUpper(t[i]) && !Separator(cc, t[i])
    ensures DelimitText(cc, t, d) == Map(cc.lower, t)
  {
    MarkCapitalsPlain(cc, t, 0, |t|);
    assert t[0..|t|] == t;
    LowerNoSeparator(cc, t);
    CollapseRunsPlain(SeparatorClass(cc), Map(cc.lower, t), d);
  }

  /** Marking puts '-' before a capital word codepoint that follows a word codepoint, and nowhere else when there are no other capitals. */
  lemma MarkCapitalInside(cc: CharClasses, t: seq<char>, n: nat)
    requires 0 < n < |t| && cc.isWord(t[n - 1]) && cc.isWord(t[n]) && IsAsciiUpper(t[n])
    requires forall i :: 0 <= i < |t| && i != n ==> !IsAsciiUpper(t[i])
    ensures MarkCapitals(cc, t, 0, |t|) == t[..n] + ['-'] + t[n..]
  {
    MarkCapitalsSplit(cc, t, 0, n, |t|);
    MarkCapitalsPlain(cc, t, 0, n);
    var tail := MarkCapitalTail(cc, t, n);
    assert t[0..n] == t[..n];
    DashRegroup(t[..n], t[n], tail);
    assert [t[n]] + tail == t[n..];
  }

  /** From a marked capital on, marking gives '-', the capital and the rest unchanged. */
  lemma MarkCapitalTail(cc: CharClasses, t: seq<char>, n: nat) returns (tail: seq<char>)
    requires 0 < n < |t| && cc.isWord(t[n - 1]) && cc.isWord(t[n]) && IsAsciiUpper(t[n])
    requires forall i :: n < i < |t| ==> !IsAsciiUpper(t[i])
    ensures tail == t[n + 1..] && MarkCapitals(cc, t, n, |t|) == ['-', t[n]] + tail
  {
    MarkCapitalsPlain(cc, t, n + 1, |t|);
    tail := t[n + 1..];
    assert Marked(cc, t, n) == ['-', t[n]];
  }

  /** Regrouping around an inserted '-'; `[c] + b` is the text from the capital on. */
  lemma DashRegroup(a: seq<char>, c: char, b: seq<char>)
    ensures a + (['-', c] + b) == a + ['-'] + ([c] + b)
  {
  }

  /**
   * A capital inside a word starts a new part: when the capital at n follows
   * a word codepoint, is itself one, and the text has no other capital and
   * no separator, delimit gives the lower-cased text before n, one `d`, and
   * the lower-cased rest (when lower-casing keeps '-' a separator and words
   * free of separators).
   */
  lemma DelimitSplitsAtCapital(cc: CharClasses, t: seq<char>, n: nat, d: seq<char>)
    requires 0 < n < |t| && cc.isWord(t[n - 1]) && cc.isWord(t[n]) && IsAsciiUpper(t[n])
    requires forall i :: 0 <= i < |t| && i != n ==> !IsAsciiUpper(t[i])
    requires forall i :: 0 <= i < |t| ==> !Separator(cc, t[i])
    requires LowerKeepsWords(cc) && Separator(cc, cc.lower('-'))
    ensures DelimitText(cc, t, d) == Map(cc.lower, t[..n]) + d + Map(cc.lower, t[n..])
  {
    MarkCapitalInside(cc, t, n);
    var a, b := t[..n], t[n..];
    MapConcat(cc.lower, a + ['-'], b);
    MapConcat(cc.lower, a, ['-']);
    var la, lb := Map(cc.lower, a), Map(cc.lower, b);
    assert Map(cc.lower, ['-']) == [cc.lower('-')];
    var lowered := Map(cc.lower, t[..n] + ['-'] + t[n..]);
    assert lowered == la + [cc.lower('-')] + lb;
    LowerNoSeparator(cc, a);
    LowerNoSeparator(cc, b);
    var p := SeparatorClass(cc);
    CollapseRunsSplit(p, la, [cc.lower('-')], lb, d);
    CollapseRunsPlain(p, la, d);
    CollapseRunsPlain(p, lb, d);
  }

  /** The lower-case map sends separators to separators. */
  ghost predicate LowerKeepsSeparators(cc: CharClasses)
  {
    forall c :: Separator(cc, c) ==> Separator(cc, cc.lower(c))
  }

  /** Mapping spaced text maps every word and every gap. */
  lemma {:induction false} MapSpaced(f: char -> char, ws: seq<seq<char>>, gs: seq<seq<char>>)
    requires |ws| >= 1 && |gs| + 1 == |ws|
    ensures Map(f, Spaced(ws, gs)) == Spaced(MapAll(f, ws), MapAll(f, gs))
    decreases |ws|
  {
    if |ws| > 1 {
      MapSpaced(f, ws[1..], gs[1..]);
      MapConcat(f, ws[0] + gs[0], Spaced(ws[1..], gs[1..]));
      MapConcat(f, ws[0], gs[0]);
      assert MapAll(f, ws)[1..] == MapAll(f, ws[1..]);
      assert MapAll(f, gs)[1..] == MapAll(f, gs[1..]);
    }
  }

  /** Mapping a join maps every part and the separator. */
  lemma {:induction false} MapJoin(f: char -> char, sep: seq<char>, ws: seq<seq<char>>)
    requires |ws| >= 1
    ensures Map(f, Join(sep, ws)) == Join(Map(f, sep), MapAll(f, ws))
    decreases |ws|
  {
    if |ws| > 1 {
      MapJoin(f, sep, ws[1..]);
      MapConcat(f, ws[0] + sep, Join(sep, ws[1..]));
      MapConcat(f, ws[0], sep);
      assert MapAll(f, ws)[1..] == MapAll(f, ws[1..]);
    }
  }

  /**
   * Words free of separators and capitals, with runs of separators between
   * them: delimit lower-cases each word and puts exactly one `d` in place of
   * each run ("test case", "test_case" and "test -_ case" all give
   * "test" + d + "case").
   */
  lemma DelimitWords(cc: CharClasses, ws: seq<seq<char>>, gs: seq<seq<char>>, d: seq<char>)
    requires |ws| >= 1 && |gs| + 1 == |ws|
    requires forall k :: 0 <= k < |ws| ==> ws[k] != []
    requires forall k :: 0 <= k < |gs| ==> gs[k] != []
    requires AllIn(c => !Separator(cc, c) && !IsAsciiUpper(c), ws)
    requires AllIn(c => Separator(cc, c) && !IsAsciiUpper(c), gs)
    requires LowerKeepsWords(cc) && LowerKeepsSeparators(cc)
    ensures DelimitText(cc, Spaced(ws, gs), d) == Join(d, MapAll(cc.lower, ws))
  {
    var t := Spaced(ws, gs);
    SpacedAll(c => !IsAsciiUpper(c), ws, gs);
    MarkCapitalsPlain(cc, t, 0, |t|);
    assert t[0..|t|] == t;
    MapSpaced(cc.lower, ws, gs);
    var lw, lg := MapAll(cc.lower, ws), MapAll(cc.lower, gs);
    forall k, i | 0 <= k < |lw| && 0 <= i < |lw[k]| ensures !SeparatorClass(cc)(lw[k][i]) {
      assert lw[k][i] == cc.lower(ws[k][i]);
      assert !Separator(cc, ws[k][i]);
    }
    forall k, i | 0 <= k < |lg| && 0 <= i < |lg[k]| ensures SeparatorClass(cc)(lg[k][i]) {
      assert lg[k][i] == cc.lower(gs[k][i]);
      assert Separator(cc, gs[k][i]);
    }
    CollapseSpaced(SeparatorClass(cc), lw, lg, d);
  }

  /** The same for a whole value: such text has nothing for trim to remove. */
  lemma DelimitSpacedWords(cc: CharClasses, ws: seq<seq<char>>, gs: seq<seq<char>>, d: seq<char>, enc: Encoding)
    requires |ws| >= 1 && |gs| + 1 == |ws|
    requires forall k :: 0 <= k < |ws| ==> ws[k] != []
    requires forall k :: 0 <= k < |gs| ==> gs[k] != []
    requires AllIn(c => !Separator(cc, c) && !IsAsciiUpper(c), ws)
    requires AllIn(c => Separator(cc, c) && !IsAsciiUpper(c), gs)
    requires LowerKeepsWords(cc) && LowerKeepsSeparators(cc)
    ensures Delimit(Stringy(Spaced(ws, gs), enc), cc, d).str == Join(d, MapAll(cc.lower, ws))
    ensures Dasherize(Stringy(Spaced(ws, gs), enc), cc).str == Join("-", MapAll(cc.lower, ws))
    ensures Underscored(Stringy(Spaced(ws, gs), enc), cc).str == Join("_", MapAll(cc.lower, ws))
  {
    var s := Stringy(Spaced(ws, gs), enc);
    SpacedHead(ws, gs);
    SpacedLast(ws, gs);
    TrimUntouched(s, cc);
    DelimitWords(cc, ws, gs, d);
    DelimitWords(cc, ws, gs, "-");
    DelimitWords(cc, ws, gs, "_");
  }

  /** Marking positions lo..hi-1 reads only the text from just before lo on. */
  lemma {:induction false} MarkCapitalsShift(cc: CharClasses, t: seq<char>, j: nat, lo: nat, hi: nat)
    requires j < lo <= hi <= |t|
    ensures MarkCapitals(cc, t, lo, hi) == MarkCapitals(cc, t[j..], lo - j, hi - j)
    decreases hi - lo
  {
    if lo < hi {
      assert t[j..][lo - j] == t[lo];
      assert t[j..][lo - j - 1] == t[lo - 1];
      assert Marked(cc, t, lo) == Marked(cc, t[j..], lo - j);
      MarkCapitalsShift(cc, t, j, lo + 1, hi);
    }
  }

  /** Marking positions lo..hi-1 reads nothing from position hi on. */
  lemma {:induction false} MarkCapitalsPrefix(cc: CharClasses, t: seq<char>, n: nat, lo: nat, hi: nat)
    requires lo <= hi <= n <= |t|
    ensures MarkCapitals(cc, t, lo, hi) == MarkCapitals(cc, t[..n], lo, hi)
    decreases hi - lo
  {
    if lo < hi {
      assert t[..n][lo] == t[lo];
      assert lo > 0 ==> t[..n][lo - 1] == t[lo - 1];
      assert Marked(cc, t, lo) == Marked(cc, t[..n], lo);
      MarkCapitalsPrefix(cc, t, n, lo + 1, hi);
    }
  }

  /** A word whose only capital, if any, is its first codepoint gets no mark. */
  lemma MarkWord(cc: CharClasses, w: seq<char>)
    requires w != [] && cc.isWord(w[0])
    requires forall i :: 0 < i < |w| ==> !IsAsciiUpper(w[i])
    ensures MarkCapitals(cc, w, 0, |w|) == w
  {
    MarkCapitalsPlain(cc, w, 1, |w|);
    assert Marked(cc, w, 0) == [w[0]];
    assert MarkCapitals(cc, w, 0, |w|) == [w[0]] + w[1..|w|];
    assert [w[0]] + w[1..|w|] == w;
  }

  /**
   * Word codepoints where each word after the first starts with a capital
   * and has no other: marking puts '-' before every such capital.
   */
  lemma {:induction false} MarkWords(cc: CharClasses, ws: seq<seq<char>>)
    requires |ws| >= 1 && forall k :: 0 <= k < |ws| ==> ws[k] != []
    requires AllIn(cc.isWord, ws)
    requires forall k, i :: 0 <= k < |ws| && 0 < i < |ws[k]| ==> !IsAsciiUpper(ws[k][i])
    requires forall k :: 0 < k < |ws| ==> IsAsciiUpper(ws[k][0])
    ensures MarkCapitals(cc, Join([], ws), 0, |Join([], ws)|) == Join("-", ws)
    decreases |ws|
  {
    var w := ws[0];
    assert cc.isWord(w[0]);
    MarkWord(cc, w);
    if |ws| > 1 {
      assert cc.isWord(w[|w| - 1]);
      assert cc.isWord(ws[1][0]) && IsAsciiUpper(ws[1][0]);
      MarkWordsStep(cc, ws);
      MarkWords(cc, ws[1..]);
    }
  }

  /** Marking a concatenation of words puts '-' at the seam after the first word. */
  lemma MarkWordsStep(cc: CharClasses, ws: seq<seq<char>>)
    requires |ws| > 1 && forall k :: 0 <= k < |ws| ==> ws[k] != []
    requires cc.isWord(ws[0][|ws[0]| - 1])
    requires cc.isWord(ws[1][0]) && IsAsciiUpper(ws[1][0])
    ensures MarkCapitals(cc, Join([], ws), 0, |Join([], ws)|)
      == MarkCapitals(cc, ws[0], 0, |ws[0]|) + ['-'] + MarkCapitals(cc, Join([], ws[1..]), 0, |Join([], ws[1..])|)
  {
    var w := ws[0];
    var t := Join([], ws);
    var u := Join([], ws[1..]);
    assert t == w + u;
    assert t[..|w|] == w && t[|w|..] == u;
    JoinEnds([], ws[1..]);
    MarkBeforeCapital(cc, t, |w|);
  }

  /** A capital word codepoint right after a word codepoint gets a mark; nothing else changes across the seam at n. */
  lemma MarkBeforeCapital(cc: CharClasses, t: seq<char>, n: nat)
    requires 0 < n < |t| && cc.isWord(t[n - 1]) && cc.isWord(t[n]) && IsAsciiUpper(t[n])
    ensures MarkCapitals(cc, t, 0, |t|) == MarkCapitals(cc, t[..n], 0, n) + ['-'] + MarkCapitals(cc, t[n..], 0, |t| - n)
  {
    MarkCapitalsSplit(cc, t, 0, n, |t|);
    MarkCapitalsPrefix(cc, t, n, 0, n);
    MarkSeam(cc, t, n);
  }

  /** From the seam at n on, marking gives '-' and then the rest marked on its own. */
  lemma MarkSeam(cc: CharClasses, t: seq<char>, n: nat)
    requires 0 < n < |t| && cc.isWord(t[n - 1]) && cc.isWord(t[n]) && IsAsciiUpper(t[n])
    ensures MarkCapitals(cc, t, n, |t|) == ['-'] + MarkCapitals(cc, t[n..], 0, |t| - n)
  {
    assert Marked(cc, t, n) == ['-', t[n]];
    MarkCapitalsShift(cc, t, n, n + 1, |t|);
    assert t[n..][0] == t[n];
    assert Marked(cc, t[n..], 0) == [t[n]];
  }

  /**
   * Word codepoints where each word after the first starts with its only
   * capital: delimit lower-cases each word and puts one `d` before each
   * capital ("TestDCase" gives "test" + d + "d" + d + "case"), when
   * lower-casing keeps '-' a separator and words free of separators.
   */
  lemma DelimitCapitals(cc: CharClasses, ws: seq<seq<char>>, d: seq<char>)
    requires |ws| >= 1 && forall k :: 0 <= k < |ws| ==> ws[k] != []
    requires AllIn(c => cc.isWord(c) && !Separator(cc, c), ws)
    requires forall k, i :: 0 <= k < |ws| && 0 < i < |ws[k]| ==> !IsAsciiUpper(ws[k][i])
    requires forall k :: 0 < k < |ws| ==> IsAsciiUpper(ws[k][0])
    requires LowerKeepsWords(cc) && Separator(cc, cc.lower('-'))
    ensures DelimitText(cc, Join([], ws), d) == Join(d, MapAll(cc.lower, ws))
  {
    assert AllIn(cc.isWord, ws);
    MarkWords(cc, ws);
    assert AllIn(c => !Separator(cc, c), ws);
    DelimitDashed(cc, ws, d);
  }

  /** Words free of separators joined by '-': lower-casing and folding the runs puts one `d` between each two. */
  lemma DelimitDashed(cc: CharClasses, ws: seq<seq<char>>, d: seq<char>)
    requires |ws| >= 1 && forall k :: 0 <= k < |ws| ==> ws[k] != []
    requires AllIn(c => !Separator(cc, c), ws)
    requires LowerKeepsWords(cc) && Separator(cc, cc.lower('-'))
    ensures CollapseRuns(SeparatorClass(cc), Map(cc.lower, Join("-", ws)), d) == Join(d, MapAll(cc.lower, ws))
  {
    MapJoin(cc.lower, "-", ws);
    var lw := MapAll(cc.lower, ws);
    var g := Map(cc.lower, "-");
    assert g == [cc.lower('-')];
    JoinSpaced(g, lw);
    var gs := seq(|lw| - 1, _ => g);
    forall k, i | 0 <= k < |lw| && 0 <= i < |lw[k]| ensures !SeparatorClass(cc)(lw[k][i]) {
      assert lw[k][i] == cc.lower(ws[k][i]);
      assert !Separator(cc, ws[k][i]);
    }
    CollapseSpaced(SeparatorClass(cc), lw, gs, d);
  }

  /** dasherize(): delimit('-'); the only separator left is a single '-' between parts. */
  function Dasherize(s: Stringy, cc: CharClasses): (r: Stringy)
    ensures r.encoding == s.encoding
    ensures forall i :: 0 <= i < |r.str| && Separator(cc, r.str[i]) ==> r.str[i] == '-'
    ensures NoAdjacent(SeparatorClass(cc), r.str)
  {
    Delimit(s, cc, "-")
  }

  /** underscored(): delimit('_'); the only separator left is a single '_' between parts. */
  function Underscored(s: Stringy, cc: CharClasses): (r: Stringy)
    ensures r.encoding == s.encoding
    ensures forall i :: 0 <= i < |r.str| && Separator(cc, r.str[i]) ==> r.str[i] == '_'
    ensures NoAdjacent(SeparatorClass(cc), r.str)
  {
    Delimit(s, cc, "_")
  }

  /** The codepoints camelize strips from the front after trimming. */
  predicate IsDashOrUnderscore(c: char)
  {
    c == '-' || c == '_'
  }

  /**
   * preg_replace_callback('/[-_\s]+(.)?/u', …): each run of separators is
   * dropped, and the codepoint after it, unless there is none or it is a
   * newline (which `.` does not match), is upper-cased in its place.
   */
  function CamelRuns(cc: CharClasses, t: seq<char>): seq<char>
    decreases |t|
  {
    if t == [] then []
    else if Separator(cc, t[0]) then
      var k := LeadingRun(SeparatorClass(cc), t);
      if k < |t| && t[k] != '\n' then [cc.upper(t[k])] + CamelRuns(cc, t[k + 1..])
      else CamelRuns(cc, t[k..])
    else [t[0]] + CamelRuns(cc, t[1..])
  }

  /**
   * preg_replace_callback('/[\d]+(.)?/u', …): each run of digits, together
   * with the codepoint after it unless that is a newline, goes through the
   * upper-case map.
   */
  function DigitRuns(cc: CharClasses, t: seq<char>): seq<char>
    decreases |t|
  {
    if t == [] then []
    else if cc.isDigit(t[0]) then
      var k := LeadingRun(cc.isDigit, t);
      var w := if k < |t| && t[k] != '\n' then k + 1 else k;
      Map(cc.upper, t[..w]) + DigitRuns(cc, t[w..])
    else [t[0]] + DigitRuns(cc, t[1..])
  }

  /**
   * What camelize does after trimming and lower-casing the first codepoint:
   * strip leading '-' and '_', then fold separator runs and digit runs.
   */
  function CamelText(cc: CharClasses, t: seq<char>): seq<char>
  {
    DigitRuns(cc, CamelRuns(cc, t[LeadingRun(IsDashOrUnderscore, t)..]))
  }

  /** camelize(): trim, lower-case the first codepoint, then `CamelText`. */
  function Camelize(s: Stringy, cc: CharClasses): (r: Stringy)
    ensures r.encoding == s.encoding
  {
    Stringy(CamelText(cc, LowerCaseFirst(Trim(s, cc, None), cc).str), s.encoding)
  }

  /** upperCamelize(): camelize, then upper-case the first codepoint. */
  function UpperCamelize(s: Stringy, cc: CharClasses): (r: Stringy)
    ensures r.encoding == s.encoding
    ensures |r.str| == |Camelize(s, cc).str|
    ensures Camelize(s, cc).str != [] ==>
      r.str[0] == cc.upper(Camelize(s, cc).str[0]) && r.str[1..] == Camelize(s, cc).str[1..]
  {
    UpperCaseFirst(Camelize(s, cc), cc)
  }

  /** The upper-case map sends codepoints that are not separators to codepoints that are not separators. */
  ghost predicate UpperKeepsWords(cc: CharClasses)
  {
    forall c :: !Separator(cc, c) ==> !Separator(cc, cc.upper(c))
  }

  /** No codepoint of `t` is a separator. */
  predicate Clean(cc: CharClasses, t: seq<char>)
  {
    forall i :: 0 <= i < |t| ==> !Separator(cc, t[i])
  }

  lemma CleanConcat(cc: CharClasses, a: seq<char>, b: seq<char>)
    requires Clean(cc, a) && Clean(cc, b)
    ensures Clean(cc, a + b)
  {
    assert forall i :: |a| <= i < |a + b| ==> (a + b)[i] == b[i - |a|];
  }

  lemma CleanSlice(cc: CharClasses, t: seq<char>, lo: nat, hi: nat)
    requires lo <= hi <= |t| && Clean(cc, t)
    ensures Clean(cc, t[lo..hi])
  {
    assert forall i :: 0 <= i < hi - lo ==> t[lo..hi][i] == t[lo + i];
  }

  lemma CleanUpper(cc: CharClasses, t: seq<char>)
    requires UpperKeepsWords(cc) && Clean(cc, t)
    ensures Clean(cc, Map(cc.upper, t))
  {
  }

  /** No separator survives folding the separator runs. */
  lemma {:induction false} CamelRunsClean(cc: CharClasses, t: seq<char>)
    requires UpperKeepsWords(cc)
    ensures Clean(cc, CamelRuns(cc, t))
    decreases |t|
  {
    if t == [] {
      assert CamelRuns(cc, t) == [];
    } else if Separator(cc, t[0]) {
      var k := LeadingRun(SeparatorClass(cc), t);
      if k < |t| && t[k] != '\n' {
        CamelRunsClean(cc, t[k + 1..]);
        assert !SeparatorClass(cc)(t[k]);
        CleanConcat(cc, [cc.upper(t[k])], CamelRuns(cc, t[k + 1..]));
      } else {
        CamelRunsClean(cc, t[k..]);
      }
    } else {
      CamelRunsClean(cc, t[1..]);
      CleanConcat(cc, [t[0]], CamelRuns(cc, t[1..]));
    }
  }

  /** Upper-casing digit runs brings in no separator. */
  lemma {:induction false} DigitRunsClean(cc: CharClasses, t: seq<char>)
    requires UpperKeepsWords(cc) && Clean(cc, t)
    ensures Clean(cc, DigitRuns(cc, t))
    decreases |t|
  {
    if t == [] {
      assert DigitRuns(cc, t) == [];
    } else if cc.isDigit(t[0]) {
      var k := LeadingRun(cc.isDigit, t);
      var w := if k < |t| && t[k] != '\n' then k + 1 else k;
      CleanSlice(cc, t, w, |t|);
      CleanSlice(cc, t, 0, w);
      DigitRunsClean(cc, t[w..]);
      CleanUpper(cc, t[..w]);
      CleanConcat(cc, Map(cc.upper, t[..w]), DigitRuns(cc, t[w..]));
    } else {
      CleanSlice(cc, t, 1, |t|);
      DigitRunsClean(cc, t[1..]);
      CleanConcat(cc, [t[0]], DigitRuns(cc, t[1..]));
    }
  }

  /** `CamelText` leaves no separator. */
  lemma CamelTextClean(cc: CharClasses, t: seq<char>)
    requires UpperKeepsWords(cc)
    ensures Clean(cc, CamelText(cc, t))
  {
    var u := t[LeadingRun(IsDashOrUnderscore, t)..];
    CamelRunsClean(cc, u);
    DigitRunsClean(cc, CamelRuns(cc, u));
  }

  /**
   * camelize removes every '-', '_' and whitespace codepoint, and so does
   * upperCamelize, when the upper-case map keeps words free of separators.
   */
  lemma CamelizeClean(s: Stringy, cc: CharClasses)
    requires UpperKeepsWords(cc)
    ensures Clean(cc, Camelize(s, cc).str)
    ensures Clean(cc, UpperCamelize(s, cc).str)
  {
    var c := Camelize(s, cc).str;
    CamelTextClean(cc, LowerCaseFirst(Trim(s, cc, None), cc).str);
    var r := UpperCamelize(s, cc).str;
    assert r == MapFirst(cc.upper, c);
    assert forall i :: 1 <= i < |r| ==> r[i] == c[i];
  }

  /** Text with no separator is left alone by the separator fold. */
  lemma {:induction false} CamelRunsPlain(cc: CharClasses, t: seq<char>)
    requires Clean(cc, t)
    ensures CamelRuns(cc, t) == t
    decreases |t|
  {
    if t != [] {
      CleanSlice(cc, t, 1, |t|);
      CamelRunsPlain(cc, t[1..]);
      assert [t[0]] + t[1..] == t;
    }
  }

  /** Text with no digit is left alone by the digit fold. */
  lemma {:induction false} DigitRunsPlain(cc: CharClasses, t: seq<char>)
    requires forall i :: 0 <= i < |t| ==> !cc.isDigit(t[i])
    ensures DigitRuns(cc, t) == t
    decreases |t|
  {
    if t != [] {
      assert forall i :: 0 <= i < |t[1..]| ==> t[1..][i] == t[i + 1];
      DigitRunsPlain(cc, t[1..]);
      assert [t[0]] + t[1..] == t;
    }
  }

  /** A digit-free prefix passes through the digit fold unchanged. */
  lemma {:induction false} DigitRunsPrefix(cc: CharClasses, t: seq<char>, n: nat)
    requires n <= |t|
    requires forall i :: 0 <= i < n ==> !cc.isDigit(t[i])
    ensures DigitRuns(cc, t) == t[..n] + DigitRuns(cc, t[n..])
    decreases n
  {
    if n > 0 {
      assert forall i :: 0 <= i < n - 1 ==> t[1..][i] == t[i + 1];
      DigitRunsPrefix(cc, t[1..], n - 1);
      assert t[1..][n - 1..] == t[n..];
      Assoc([t[0]], t[1..][..n - 1], DigitRuns(cc, t[n..]));
      assert [t[0]] + t[1..][..n - 1] == t[..n];
    }
  }

  /** A leading digit run of length k goes through the upper-case map together with the codepoint after it. */
  lemma DigitRunsAtRun(cc: CharClasses, t: seq<char>, k: nat)
    requires 0 < k < |t| && t[k] != '\n' && !cc.isDigit(t[k])
    requires forall i :: 0 <= i < k ==> cc.isDigit(t[i])
    ensures DigitRuns(cc, t) == Map(cc.upper, t[..k + 1]) + DigitRuns(cc, t[k + 1..])
  {
    LeadingRunExact(cc.isDigit, t, k);
  }

  /** From a digit run at n..m-1 on, the fold upper-cases the run and the codepoint after it. */
  lemma DigitRunsFromRun(cc: CharClasses, t: seq<char>, n: nat, m: nat)
    requires n < m < |t| && t[m] != '\n' && !cc.isDigit(t[m])
    requires forall i :: n <= i < m ==> cc.isDigit(t[i])
    ensures DigitRuns(cc, t[n..]) == Map(cc.upper, t[n..m + 1]) + DigitRuns(cc, t[m + 1..])
  {
    var u := t[n..];
    assert forall i :: 0 <= i < m - n ==> u[i] == t[n + i];
    DigitRunsAtRun(cc, u, m - n);
    assert u[..m - n + 1] == t[n..m + 1];
    assert u[m - n + 1..] == t[m + 1..];
  }

  /**
   * After a digit-free stretch t[..n], the digit run at n..m-1 and the
   * codepoint after it, which is neither a digit nor a newline, come out
   * upper-cased: the letter that follows the digits is capitalised.
   */
  lemma DigitRunsAfterWord(cc: CharClasses, t: seq<char>, n: nat, m: nat)
    requires n < m < |t| && t[m] != '\n' && !cc.isDigit(t[m])
    requires forall i :: 0 <= i < n ==> !cc.isDigit(t[i])
    requires forall i :: n <= i < m ==> cc.isDigit(t[i])
    ensures DigitRuns(cc, t) == t[..n] + Map(cc.upper, t[n..m + 1]) + DigitRuns(cc, t[m + 1..])
  {
    DigitRunsPrefix(cc, t, n);
    DigitRunsFromRun(cc, t, n, m);
    Assoc(t[..n], Map(cc.upper, t[n..m + 1]), DigitRuns(cc, t[m + 1..]));
  }


  /** A separator-free prefix passes through the separator fold unchanged. */
  lemma {:induction false} CamelRunsPrefix(cc: CharClasses, t: seq<char>, n: nat)
    requires n <= |t|
    requires forall i :: 0 <= i < n ==> !Separator(cc, t[i])
    ensures CamelRuns(cc, t) == t[..n] + CamelRuns(cc, t[n..])
    decreases n
  {
    if n > 0 {
      assert forall i :: 0 <= i < n - 1 ==> t[1..][i] == t[i + 1];
      CamelRunsPrefix(cc, t[1..], n - 1);
      assert t[1..][n - 1..] == t[n..];
      Assoc([t[0]], t[1..][..n - 1], CamelRuns(cc, t[n..]));
      assert [t[0]] + t[1..][..n - 1] == t[..n];
    }
  }

  /** A leading separator run of length k is replaced by the upper-cased codepoint after it. */
  lemma CamelRunsAtRun(cc: CharClasses, u: seq<char>, k: nat)
    requires 0 < k < |u| && u[k] != '\n' && !Separator(cc, u[k])
    requires forall i :: 0 <= i < k ==> Separator(cc, u[i])
    ensures CamelRuns(cc, u) == [cc.upper(u[k])] + CamelRuns(cc, u[k + 1..])
  {
    LeadingRunExact(SeparatorClass(cc), u, k);
  }

  /**
   * `t` is a word, a run of separators at n..m-1, and a word from m on whose
   * first codepoint is not a newline.
   */
  predicate TwoWords(cc: CharClasses, t: seq<char>, n: nat, m: nat)
  {
    && n < m < |t| && t[m] != '\n'
    && (forall i :: 0 <= i < n ==> !Separator(cc, t[i]))
    && (forall i :: n <= i < m ==> Separator(cc, t[i]))
    && (forall i :: m <= i < |t| ==> !Separator(cc, t[i]))
  }

  /** From the separator run on, the fold gives the upper-cased codepoint after the run and the rest unchanged. */
  lemma CamelRunsFromRun(cc: CharClasses, t: seq<char>, n: nat, m: nat)
    requires TwoWords(cc, t, n, m)
    ensures CamelRuns(cc, t[n..]) == [cc.upper(t[m])] + t[m + 1..]
  {
    var u := t[n..];
    assert forall i :: 0 <= i < m - n ==> u[i] == t[n + i];
    assert u[m - n] == t[m];
    CamelRunsAtRun(cc, u, m - n);
    var w := t[m + 1..];
    assert u[m - n + 1..] == w;
    assert forall i :: 0 <= i < |w| ==> w[i] == t[m + 1 + i];
    CamelRunsPlain(cc, w);
  }

  /**
   * A run of separators between two words disappears and the codepoint after
   * it is upper-cased: the fold gives t[..n], upper(t[m]), t[m+1..].
   */
  lemma CamelRunsJoin(cc: CharClasses, t: seq<char>, n: nat, m: nat)
    requires TwoWords(cc, t, n, m)
    ensures CamelRuns(cc, t) == t[..n] + [cc.upper(t[m])] + t[m + 1..]
  {
    CamelRunsPrefix(cc, t, n);
    CamelRunsFromRun(cc, t, n, m);
    Assoc(t[..n], [cc.upper(t[m])], t[m + 1..]);
  }

  /**
   * camelize's fold on text that starts with a codepoint other than '-' or
   * '_' and has no digit: a single separator run between two words is
   * dropped and the word after it starts upper-cased, provided upper-casing
   * brings in no digit.
   */
  lemma CamelTextJoin(cc: CharClasses, t: seq<char>, n: nat, m: nat)
    requires 0 < n && TwoWords(cc, t, n, m)
    requires forall i :: 0 <= i < |t| ==> !cc.isDigit(t[i])
    requires !cc.isDigit(cc.upper(t[m]))
    ensures CamelText(cc, t) == t[..n] + [cc.upper(t[m])] + t[m + 1..]
  {
    assert LeadingRun(IsDashOrUnderscore, t) == 0;
    assert t[0..] == t;
    CamelRunsJoin(cc, t, n, m);
    var r := t[..n] + [cc.upper(t[m])] + t[m + 1..];
    assert forall i :: 0 <= i < |r| ==> !cc.isDigit(r[i]) by {
      forall i | 0 <= i < |r| ensures !cc.isDigit(r[i]) {
        if i < n { assert r[i] == t[i]; }
        else if i > n { assert r[i] == t[m + 1 + (i - n - 1)]; }
      }
    }
    DigitRunsPlain(cc, r);
  }

  /**
   * camelize's fold on text without separators: a digit run at n..m-1 after
   * digit-free text, followed by a codepoint that is neither a digit nor a
   * newline, is upper-cased together with that codepoint, as in
   * "1camel2case" to "1Camel2Case".
   */
  lemma CamelTextDigits(cc: CharClasses, t: seq<char>, n: nat, m: nat)
    requires Clean(cc, t)
    requires n < m < |t| && t[m] != '\n' && !cc.isDigit(t[m])
    requires forall i :: 0 <= i < n ==> !cc.isDigit(t[i])
    requires forall i :: n <= i < m ==> cc.isDigit(t[i])
    ensures CamelText(cc, t) == t[..n] + Map(cc.upper, t[n..m + 1]) + DigitRuns(cc, t[m + 1..])
  {
    assert !Separator(cc, t[0]);
    assert LeadingRun(IsDashOrUnderscore, t) == 0;
    assert t[0..] == t;
    CamelRunsPlain(cc, t);
    DigitRunsAfterWord(cc, t, n, m);
  }


  /** On two words with the first not starting with '-' or '_', camelize's fold is the digit fold of the joined words. */
  lemma CamelTextAfterJoin(cc: CharClasses, t: seq<char>, n: nat, m: nat)
    requires 0 < n && TwoWords(cc, t, n, m)
    ensures CamelText(cc, t) == DigitRuns(cc, t[..n] + [cc.upper(t[m])] + t[m + 1..])
  {
    assert LeadingRun(IsDashOrUnderscore, t) == 0;
    assert t[0..] == t;
    CamelRunsJoin(cc, t, n, m);
  }

  /** The fold from position o on: digit-free text up to p passes through, then the run at p..q-1 is folded. */
  lemma {:induction false} DigitRunsWindow(cc: CharClasses, t: seq<char>, o: nat, p: nat, q: nat)
    requires o <= p < q < |t| && t[q] != '\n' && !cc.isDigit(t[q])
    requires forall i :: o <= i < p ==> !cc.isDigit(t[i])
    requires forall i :: p <= i < q ==> cc.isDigit(t[i])
    ensures DigitRuns(cc, t[o..]) == t[o..p] + Map(cc.upper, t[p..q + 1]) + DigitRuns(cc, t[q + 1..])
    decreases p - o
  {
    if o == p {
      DigitRunsFromRun(cc, t, p, q);
      assert t[o..p] == [];
    } else {
      assert t[o..][1..] == t[o + 1..];
      DigitRunsWindow(cc, t, o + 1, p, q);
      assert [t[o]] + t[o + 1..p] == t[o..p];
      Assoc([t[o]], t[o + 1..p] + Map(cc.upper, t[p..q + 1]), DigitRuns(cc, t[q + 1..]));
      Assoc([t[o]], t[o + 1..p], Map(cc.upper, t[p..q + 1]));
    }
  }

  /**
   * The digit fold on t[..n] + [c] + t[m+1..], where c is not a digit and the
   * first digit after n sits in the run at p..q-1.
   */
  lemma DigitRunsAfterDrop(cc: CharClasses, t: seq<char>, n: nat, m: nat, c: char, p: nat, q: nat)
    requires n <= m < p < q < |t| && t[q] != '\n' && !cc.isDigit(t[q]) && !cc.isDigit(c)
    requires forall i :: 0 <= i < p ==> !cc.isDigit(t[i])
    requires forall i :: p <= i < q ==> cc.isDigit(t[i])
    ensures DigitRuns(cc, t[..n] + [c] + t[m + 1..]) ==
      t[..n] + [c] + t[m + 1..p] + Map(cc.upper, t[p..q + 1]) + DigitRuns(cc, t[q + 1..])
  {
    var r := t[..n] + [c] + t[m + 1..];
    assert forall i :: 0 <= i < n + 1 ==> !cc.isDigit(r[i]);
    DigitRunsPrefix(cc, r, n + 1);
    assert r[..n + 1] == t[..n] + [c] && r[n + 1..] == t[m + 1..];
    DigitRunsWindow(cc, t, m + 1, p, q);
    var x, y, z := t[m + 1..p], Map(cc.upper, t[p..q + 1]), DigitRuns(cc, t[q + 1..]);
    Assoc(t[..n] + [c], x + y, z);
    Assoc(t[..n] + [c], x, y);
  }



  /**
   * Both folds together: a separator run at n..m-1 between two words, and a
   * digit run at p..q-1 in the second word followed by a codepoint that is
   * neither a digit nor a newline. The word after the separators starts
   * upper-cased and the codepoint after the digits is upper-cased too, as in
   * "string_with1number" to "stringWith1Number".
   */
  lemma CamelTextJoinDigits(cc: CharClasses, t: seq<char>, n: nat, m: nat, p: nat, q: nat)
    requires 0 < n && TwoWords(cc, t, n, m)
    requires m < p < q < |t| && t[q] != '\n' && !cc.isDigit(t[q])
    requires forall i :: 0 <= i < p ==> !cc.isDigit(t[i])
    requires forall i :: p <= i < q ==> cc.isDigit(t[i])
    requires !cc.isDigit(cc.upper(t[m]))
    ensures CamelText(cc, t) ==
      t[..n] + [cc.upper(t[m])] + t[m + 1..p] + Map(cc.upper, t[p..q + 1]) + DigitRuns(cc, t[q + 1..])
  {
    CamelTextAfterJoin(cc, t, n, m);
    DigitRunsAfterDrop(cc, t, n, m, cc.upper(t[m]), p, q);
  }




}
