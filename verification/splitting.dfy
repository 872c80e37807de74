/**
 * Splitting and literal replacement: split on a literal separator with a
 * limit, lines on runs of one or two line-break codepoints, and the tab and
 * space conversions.
 */
module Splitting {
  import opened Failures
  import opened Codepoints
  import opened Runs
  import opened Value

  /** The text of each piece. */
  function Texts(pieces: seq<Stringy>): (r: seq<seq<char>>)
    ensures |r| == |pieces|
    ensures forall k :: 0 <= k < |r| ==> r[k] == pieces[k].str
  {
    seq(|pieces|, k requires 0 <= k < |pieces| => pieces[k].str)
  }

  /** Each text as a value with the given encoding. */
  function Wrap(texts: seq<seq<char>>, encoding: Encoding): (r: seq<Stringy>)
    ensures Texts(r) == texts
    ensures forall k :: 0 <= k < |r| ==> r[k].encoding == encoding
  {
    seq(|texts|, k requires 0 <= k < |texts| => Stringy(texts[k], encoding))
  }

  /**
   * split(pattern, limit). A limit of exactly 0 gives no pieces and an empty
   * pattern gives the value itself. Otherwise the text is cut at every
   * leftmost occurrence of the pattern (which is quoted, so it is literal);
   * a positive limit k keeps the first k pieces, since preg_split is asked
   * for k + 1 and the last one, holding the rest of the text, is dropped.
   * A null, zero-free or negative limit keeps every piece.
   */
  function Split(s: Stringy, pattern: seq<char>, limit: Option<int>): (r: seq<Stringy>)
    ensures limit == Some(0) ==> r == []
    ensures limit != Some(0) && pattern == [] ==> r == [s]
    ensures forall k :: 0 <= k < |r| ==> r[k].encoding == s.encoding
    ensures limit.Some? && limit.value > 0 ==> |r| <= limit.value
  {
    if limit == Some(0) then []
    else if pattern == [] then [s]
    else
      var parts := Explode(s.str, pattern);
      var kept := if limit.Some? && limit.value > 0 then parts[..Min(limit.value, |parts|)] else parts;
      Wrap(kept, s.encoding)
  }

  /**
   * Without a positive limit the pieces contain no occurrence of the pattern
   * and joining them with it gives back the text.
   */
  lemma SplitJoin(s: Stringy, pattern: seq<char>, limit: Option<int>)
    requires pattern != [] && (limit.None? || limit.value < 0)
    ensures Join(pattern, Texts(Split(s, pattern, limit))) == s.str
    ensures forall k :: 0 <= k < |Split(s, pattern, limit)| ==> !Occurs(Split(s, pattern, limit)[k].str, pattern)
  {
  }

  /** A positive limit k keeps the first k of the unlimited pieces. */
  lemma SplitLimit(s: Stringy, pattern: seq<char>, k: int)
    requires pattern != [] && k > 0
    ensures var all := Split(s, pattern, None);
      Split(s, pattern, Some(k)) == all[..Min(k, |all|)]
  {
    var parts := Explode(s.str, pattern);
    var m := Min(k, |parts|);
    assert Wrap(parts[..m], s.encoding) == Wrap(parts, s.encoding)[..m];
  }

  /**
   * Splitting a join gives back the parts, when no part contains the first
   * codepoint of the pattern.
   */
  lemma SplitOfJoin(parts: seq<seq<char>>, pattern: seq<char>, encoding: Encoding)
    requires pattern != [] && |parts| >= 1
    requires forall k :: 0 <= k < |parts| ==> pattern[0] !in parts[k]
    ensures Texts(Split(Stringy(Join(pattern, parts), encoding), pattern, None)) == parts
  {
    ExplodeJoin(pattern, parts);
  }

  /** The codepoints `[\r\n]` matches. */
  predicate IsBreak(c: char)
  {
    c == '\r' || c == '\n'
  }

  predicate NotBreak(c: char)
  {
    !IsBreak(c)
  }

  /**
   * preg_split('/[\r\n]{1,2}/u'): scanning from the left, the first
   * line-break codepoint starts a separator, which greedily takes the next
   * codepoint too when that is also a line break.
   */
  function LineTexts(t: seq<char>): (r: seq<seq<char>>)
    ensures |r| >= 1
    ensures forall k, i :: 0 <= k < |r| && 0 <= i < |r[k]| ==> !IsBreak(r[k][i])
    decreases |t|
  {
    var k := LeadingRun(NotBreak, t);
    LeadingRunIn(NotBreak, t);
    if k == |t| then [t]
    else
      var w := if k + 1 < |t| && IsBreak(t[k + 1]) then 2 else 1;
      [t[..k]] + LineTexts(t[k + w..])
  }

  /** lines(): the text split at line breaks, each line keeping the encoding. */
  function Lines(s: Stringy): (r: seq<Stringy>)
    ensures |r| >= 1
    ensures forall k :: 0 <= k < |r| ==> r[k].encoding == s.encoding
    ensures forall k, i :: 0 <= k < |r| && 0 <= i < |r[k].str| ==> !IsBreak(r[k].str[i])
  {
    Wrap(LineTexts(s.str), s.encoding)
  }

  /** No line-break codepoint anywhere in `t`. */
  predicate NoBreaks(t: seq<char>)
  {
    forall i :: 0 <= i < |t| ==> !IsBreak(t[i])
  }

  /** One line followed by "\n" and a text that starts with no line break splits into that line and the text's lines. */
  lemma LineTextsStep(line: seq<char>, rest: seq<char>)
    requires NoBreaks(line)
    requires rest == [] || !IsBreak(rest[0])
    ensures LineTexts(line + "\n" + rest) == [line] + LineTexts(rest)
  {
    var t := line + "\n" + rest;
    LeadingRunExact(NotBreak, t, |line|);
    assert t[..|line|] == line;
    assert t[|line| + 1..] == rest;
  }

  /**
   * Joining lines with "\n" and splitting again gives the lines back, when
   * no line holds a line break and no line strictly between the first and
   * the last is empty (two breaks in a row would be read as one separator).
   */
  lemma {:induction false} LinesOfJoin(ls: seq<seq<char>>)
    requires |ls| >= 1
    requires forall k :: 0 <= k < |ls| ==> NoBreaks(ls[k])
    requires forall k :: 0 < k < |ls| - 1 ==> ls[k] != []
    ensures LineTexts(Join("\n", ls)) == ls
    decreases |ls|
  {
    if |ls| == 1 {
      LeadingRunExact(NotBreak, ls[0], |ls[0]|);
    } else {
      var rest := Join("\n", ls[1..]);
      LinesOfJoin(ls[1..]);
      assert rest == [] || !IsBreak(rest[0]) by {
        if |ls| > 2 {
          assert ls[1] != [];
          JoinStartsWith(ls[1..]);
        } else {
          assert rest == ls[1];
        }
      }
      LineTextsStep(ls[0], rest);
      assert [ls[0]] + ls[1..] == ls;
    }
  }

  /** A join of two or more lines starts with the first line's first codepoint when that line is not empty. */
  lemma JoinStartsWith(ls: seq<seq<char>>)
    requires |ls| >= 2 && ls[0] != []
    ensures Join("\n", ls) != [] && Join("\n", ls)[0] == ls[0][0]
  {
  }

  /** toSpaces(tabLength): every tab becomes tabLength spaces. */
  function ToSpaces(s: Stringy, tabLength: nat): (r: Stringy)
    ensures r.encoding == s.encoding
    ensures '\t' !in s.str ==> r == s
  {
    var spaces := Codepoints.Repeat(" ", tabLength);
    Stringy(ReplaceAll(s.str, "\t", spaces), s.encoding)
  }

  /** toTabs(tabLength): every leftmost run of tabLength spaces becomes a tab; a length of 0 changes nothing. */
  function ToTabs(s: Stringy, tabLength: nat): (r: Stringy)
    ensures r.encoding == s.encoding
    ensures tabLength == 0 ==> r == s
  {
    var spaces := Codepoints.Repeat(" ", tabLength);
    Stringy(ReplaceAll(s.str, spaces, "\t"), s.encoding)
  }

  /** A codepoint of a part is a codepoint of the join. */
  lemma {:induction false} JoinHas(sep: seq<char>, parts: seq<seq<char>>, k: nat, c: char)
    requires k < |parts| && c in parts[k]
    ensures c in Join(sep, parts)
    decreases |parts|
  {
    if k > 0 {
      JoinHas(sep, parts[1..], k - 1, c);
    }
  }

  /** A codepoint in neither the separator nor any part is not in the join. */
  lemma {:induction false} JoinAvoids(sep: seq<char>, parts: seq<seq<char>>, c: char)
    requires c !in sep && forall k :: 0 <= k < |parts| ==> c !in parts[k]
    ensures c !in Join(sep, parts)
    decreases |parts|
  {
    if |parts| > 1 {
      JoinAvoids(sep, parts[1..], c);
    }
  }

  /** The pieces of an explode hold only codepoints of the exploded text. */
  lemma ExplodeAvoids(t: seq<char>, sep: seq<char>, c: char)
    requires sep != [] && c !in t
    ensures forall k :: 0 <= k < |Explode(t, sep)| ==> c !in Explode(t, sep)[k]
  {
    var parts := Explode(t, sep);
    forall k | 0 <= k < |parts| ensures c !in parts[k] {
      if c in parts[k] {
        JoinHas(sep, parts, k, c);
      }
    }
  }

  /** A piece between tabs holds no tab. */
  lemma PiecesHaveNo(t: seq<char>, c: char)
    ensures forall k :: 0 <= k < |Explode(t, [c])| ==> c !in Explode(t, [c])[k]
  {
    var parts := Explode(t, [c]);
    forall k, i | 0 <= k < |parts| && 0 <= i < |parts[k]| ensures parts[k][i] != c {
      OccursAtSingleton(parts[k], c, i);
    }
  }

  /** str_repeat(' ', n) is n spaces. */
  lemma {:induction false} RepeatSpace(n: nat)
    ensures forall i :: 0 <= i < |Codepoints.Repeat(" ", n)| ==> Codepoints.Repeat(" ", n)[i] == ' '
  {
    if n > 0 {
      RepeatSpace(n - 1);
      assert Codepoints.Repeat(" ", n) == " " + Codepoints.Repeat(" ", n - 1);
    }
  }

  /** toSpaces leaves no tab behind. */
  lemma ToSpacesRemovesTabs(s: Stringy, tabLength: nat)
    ensures '\t' !in ToSpaces(s, tabLength).str
  {
    PiecesHaveNo(s.str, '\t');
    RepeatSpace(tabLength);
    JoinAvoids(Codepoints.Repeat(" ", tabLength), Explode(s.str, "\t"), '\t');
  }

  /** toTabs undoes toSpaces for a positive tab length, when the text has no space to begin with. */
  lemma ToTabsUndoesToSpaces(s: Stringy, tabLength: nat)
    requires tabLength > 0 && ' ' !in s.str
    ensures ToTabs(ToSpaces(s, tabLength), tabLength) == s
  {
    var spaces := Codepoints.Repeat(" ", tabLength);
    var parts := Explode(s.str, "\t");
    assert spaces[0] == ' ' by {
      assert spaces[..1] == " ";
    }
    ExplodeAvoids(s.str, "\t", ' ');
    ExplodeJoin(spaces, parts);
  }

  /** toSpaces undoes toTabs, when the text has no tab to begin with. */
  lemma ToSpacesUndoesToTabs(s: Stringy, tabLength: nat)
    requires '\t' !in s.str
    ensures ToSpaces(ToTabs(s, tabLength), tabLength) == s
  {
    if tabLength > 0 {
      var spaces := Codepoints.Repeat(" ", tabLength);
      var parts := Explode(s.str, spaces);
      ExplodeAvoids(s.str, spaces, '\t');
      ExplodeJoin("\t", parts);
    }
  }
}
