/**
 * Word-by-word capitalisation: titleize, and capitalizePersonalName with its
 * table of name particles and prefixes that stay as typed.
 */
module Names {
  import opened Failures
  import opened Codepoints
  import opened Classes
  import opened Runs
  import opened Value
  import opened Casing

  function NotSpace(cc: CharClasses): char -> bool
  {
    c => !cc.isSpace(c)
  }

  /** A `\S+` match: non-empty and free of whitespace. */
  predicate IsWord(cc: CharClasses, w: seq<char>)
  {
    w != [] && forall i :: 0 <= i < |w| ==> !cc.isSpace(w[i])
  }

  /**
   * The callback titleize applies to one word: a word listed in `ignore` is
   * kept, any other is lower-cased and then has its first codepoint
   * upper-cased.
   */
  function TitleWord(cc: CharClasses, ignore: seq<seq<char>>, enc: seq<char>, w: seq<char>): (r: seq<char>)
    ensures |r| == |w|
    ensures w in ignore ==> r == w
    ensures w !in ignore ==> r == MapFirst(cc.upper, Map(cc.lower, w))
  {
    if w in ignore then w
    else UpperCaseFirst(ToLowerCase(Stringy(w, enc), cc), cc).str
  }

  /** preg_replace_callback('/([\S]+)/u', …): whitespace is copied, each maximal word goes through `TitleWord`. */
  function TitleWords(cc: CharClasses, ignore: seq<seq<char>>, enc: seq<char>, t: seq<char>): (r: seq<char>)
    ensures |r| == |t|
    decreases |t|
  {
    if t == [] then []
    else if cc.isSpace(t[0]) then [t[0]] + TitleWords(cc, ignore, enc, t[1..])
    else
      var k := LeadingRun(NotSpace(cc), t);
      TitleWord(cc, ignore, enc, t[..k]) + TitleWords(cc, ignore, enc, t[k..])
  }

  /**
   * titleize(ignore): trim, then capitalise every word not in `ignore`. A
   * null or empty ignore list capitalises every word.
   */
  function Titleize(s: Stringy, cc: CharClasses, ignore: seq<seq<char>>): (r: Stringy)
    ensures r.encoding == s.encoding
    ensures |r.str| == |Trim(s, cc, None).str|
  {
    Stringy(TitleWords(cc, ignore, s.encoding, Trim(s, cc, None).str), s.encoding)
  }

  /**
   * The title-cased codepoint at position i, read off the text alone:
   * whitespace is kept, a codepoint that starts a word is lower-cased then
   * upper-cased, any other is lower-cased.
   */
  function TitleAt(cc: CharClasses, t: seq<char>, i: nat): char
    requires i < |t|
  {
    if cc.isSpace(t[i]) then t[i]
    else if i == 0 || cc.isSpace(t[i - 1]) then cc.upper(cc.lower(t[i]))
    else cc.lower(t[i])
  }

  /** Dropping a prefix of j codepoints does not change the reading at i, unless i is a word start only in the shorter text. */
  lemma TitleAtShift(cc: CharClasses, t: seq<char>, j: nat, i: nat)
    requires 0 < j <= i < |t|
    requires i > j || cc.isSpace(t[j]) || cc.isSpace(t[j - 1])
    ensures TitleAt(cc, t[j..], i - j) == TitleAt(cc, t, i)
  {
    assert t[j..][i - j] == t[i];
    if i > j {
      assert t[j..][i - j - 1] == t[i - 1];
    }
  }

  /** `r` is `t` title-cased position by position. */
  ghost predicate TitledAs(cc: CharClasses, t: seq<char>, r: seq<char>)
  {
    |r| == |t| && forall i :: 0 <= i < |t| ==> r[i] == TitleAt(cc, t, i)
  }

  /** A word on its own is title-cased by lower-casing it and upper-casing its first codepoint. */
  lemma TitleOneWord(cc: CharClasses, w: seq<char>)
    requires IsWord(cc, w)
    ensures TitledAs(cc, w, MapFirst(cc.upper, Map(cc.lower, w)))
  {
    var r := MapFirst(cc.upper, Map(cc.lower, w));
    forall i | 0 <= i < |w| ensures r[i] == TitleAt(cc, w, i) {
      if i > 0 {
        assert r[i] == Map(cc.lower, w)[i];
        assert !cc.isSpace(w[i - 1]);
      }
    }
  }

  /** Whitespace at the front is copied and the rest is title-cased on its own. */
  lemma TitleSpaceStep(cc: CharClasses, t: seq<char>, rest: seq<char>)
    requires t != [] && cc.isSpace(t[0])
    requires TitledAs(cc, t[1..], rest)
    ensures TitledAs(cc, t, [t[0]] + rest)
  {
    var r := [t[0]] + rest;
    forall i | 1 <= i < |t| ensures r[i] == TitleAt(cc, t, i) {
      TitleAtShift(cc, t, 1, i);
    }
  }

  /** A leading word of length k is title-cased on its own, and so is the rest after it. */
  lemma TitleWordStep(cc: CharClasses, t: seq<char>, k: nat, head: seq<char>, rest: seq<char>)
    requires 0 < k <= |t| && IsWord(cc, t[..k]) && (k < |t| ==> cc.isSpace(t[k]))
    requires TitledAs(cc, t[..k], head)
    requires TitledAs(cc, t[k..], rest)
    ensures TitledAs(cc, t, head + rest)
  {
    var r := head + rest;
    forall i | 0 <= i < k ensures r[i] == TitleAt(cc, t, i) {
      assert t[..k][i] == t[i];
      if i > 0 {
        assert t[..k][i - 1] == t[i - 1];
      }
    }
    forall i | k <= i < |t| ensures r[i] == TitleAt(cc, t, i) {
      TitleAtShift(cc, t, k, i);
    }
  }

  /**
   * When no entry of `ignore` is a word, titleize's rewriting agrees with
   * `TitleAt` at every position.
   */
  lemma {:induction false} TitleWordsPointwise(cc: CharClasses, ignore: seq<seq<char>>, enc: seq<char>, t: seq<char>)
    requires forall w :: w in ignore ==> !IsWord(cc, w)
    ensures TitledAs(cc, t, TitleWords(cc, ignore, enc, t))
    decreases |t|
  {
    if t == [] {
    } else if cc.isSpace(t[0]) {
      TitleWordsPointwise(cc, ignore, enc, t[1..]);
      TitleSpaceStep(cc, t, TitleWords(cc, ignore, enc, t[1..]));
    } else {
      var k := LeadingRun(NotSpace(cc), t);
      LeadingRunIn(NotSpace(cc), t);
      var w := t[..k];
      assert IsWord(cc, w);
      TitleOneWord(cc, w);
      TitleWordsPointwise(cc, ignore, enc, t[k..]);
      TitleWordStep(cc, t, k, TitleWord(cc, ignore, enc, w), TitleWords(cc, ignore, enc, t[k..]));
    }
  }

  /** titleize with no word to ignore capitalises exactly the word starts of the trimmed text. */
  lemma TitleizePointwise(s: Stringy, cc: CharClasses, ignore: seq<seq<char>>)
    requires forall w :: w in ignore ==> !IsWord(cc, w)
    ensures TitledAs(cc, Trim(s, cc, None).str, Titleize(s, cc, ignore).str)
  {
    TitleWordsPointwise(cc, ignore, s.encoding, Trim(s, cc, None).str);
  }

  /** A single word listed in `ignore` comes back as it is. */
  lemma TitleWordsIgnored(cc: CharClasses, ignore: seq<seq<char>>, enc: seq<char>, t: seq<char>)
    requires IsWord(cc, t) && t in ignore
    ensures TitleWords(cc, ignore, enc, t) == t
  {
    LeadingRunExact(NotSpace(cc), t, |t|);
    assert t[..|t|] == t;
    assert t[|t|..] == [];
  }

  /** Every word put through titleize's callback. */
  function TitleEach(cc: CharClasses, ignore: seq<seq<char>>, enc: seq<char>, ws: seq<seq<char>>): (rs: seq<seq<char>>)
    ensures |rs| == |ws|
    ensures forall k :: 0 <= k < |ws| ==> rs[k] == TitleWord(cc, ignore, enc, ws[k])
  {
    if ws == [] then [] else [TitleWord(cc, ignore, enc, ws[0])] + TitleEach(cc, ignore, enc, ws[1..])
  }

  /**
   * Words separated by single spaces are rewritten one by one: an ignored
   * word is kept as it is, any other is capitalised.
   */
  lemma {:induction false} TitleWordsJoin(cc: CharClasses, ignore: seq<seq<char>>, enc: seq<char>, ws: seq<seq<char>>)
    requires cc.isSpace(' ')
    requires forall k :: 0 <= k < |ws| ==> IsWord(cc, ws[k])
    ensures TitleWords(cc, ignore, enc, Join(" ", ws)) == Join(" ", TitleEach(cc, ignore, enc, ws))
    decreases |ws|
  {
    if |ws| == 1 {
      TitleWordsOne(cc, ignore, enc, ws[0]);
    } else if |ws| > 1 {
      TitleWordsThenSpace(cc, ignore, enc, ws[0], Join(" ", ws[1..]));
      TitleWordsJoin(cc, ignore, enc, ws[1..]);
      assert TitleEach(cc, ignore, enc, ws)[1..] == TitleEach(cc, ignore, enc, ws[1..]);
    }
  }

  /** A text that is one word goes through the callback whole. */
  lemma TitleWordsOne(cc: CharClasses, ignore: seq<seq<char>>, enc: seq<char>, w: seq<char>)
    requires IsWord(cc, w)
    ensures TitleWords(cc, ignore, enc, w) == TitleWord(cc, ignore, enc, w)
  {
    LeadingRunExact(NotSpace(cc), w, |w|);
    assert w[..|w|] == w;
    assert w[|w|..] == [];
  }

  /** A word, a space and the rest: the word goes through the callback, the space is kept, the rest is rewritten on its own. */
  lemma TitleWordsThenSpace(cc: CharClasses, ignore: seq<seq<char>>, enc: seq<char>, w: seq<char>, rest: seq<char>)
    requires cc.isSpace(' ') && IsWord(cc, w)
    ensures TitleWords(cc, ignore, enc, w + " " + rest) == TitleWord(cc, ignore, enc, w) + " " + TitleWords(cc, ignore, enc, rest)
  {
    var t := w + " " + rest;
    var tail := [' '] + rest;
    assert t[|w|] == ' ' && t[0] == w[0];
    LeadingRunExact(NotSpace(cc), t, |w|);
    assert t[..|w|] == w;
    assert t[|w|..] == tail;
    assert tail[1..] == rest;
    assert TitleWords(cc, ignore, enc, tail) == [' '] + TitleWords(cc, ignore, enc, rest);
  }

  /**
   * titleize of words separated by single spaces: the words listed in
   * `ignore` come back as they are, and every other word is capitalised.
   */
  lemma TitleizeJoin(cc: CharClasses, ignore: seq<seq<char>>, enc: seq<char>, ws: seq<seq<char>>)
    requires cc.isSpace(' ')
    requires forall k :: 0 <= k < |ws| ==> IsWord(cc, ws[k])
    ensures Titleize(Stringy(Join(" ", ws), enc), cc, ignore).str == Join(" ", TitleEach(cc, ignore, enc, ws))
  {
    var s := Stringy(Join(" ", ws), enc);
    if |ws| > 0 {
      JoinEnds(" ", ws);
    }
    TrimUntouched(s, cc);
    TitleWordsJoin(cc, ignore, enc, ws);
  }

  /** Names that are never capitalised, and under '-' never capitalised as a beginning either. */
  const NameParticles: seq<seq<char>> := [
    "ab", "af", "al", "and", "ap", "bint", "binte", "da", "de", "del", "den", "der",
    "di", "dit", "ibn", "la", "mac", "nic", "of", "ter", "the", "und", "van", "von",
    "y", "zu"]

  /** Beginnings that keep a name as typed. */
  const NamePrefixes: seq<seq<char>> := ["al-", "d'", "ff", "l'", "mac", "mc", "nic"]

  /** Some entry of `list` is found by mb_strpos at position 0 of `name`. */
  predicate HasTablePrefix(name: seq<char>, list: seq<seq<char>>)
  {
    exists b :: b in list && Strpos(name, b, 0) == Some(0)
  }

  /**
   * A name stays as typed when it is a particle, when it begins with a
   * particle and the delimiter is '-', or when it begins with a prefix.
   */
  predicate KeepName(name: seq<char>, d: char)
  {
    || name in NameParticles
    || (d == '-' && HasTablePrefix(name, NameParticles))
    || HasTablePrefix(name, NamePrefixes)
  }

  /** mb_strpos from offset 0 answers 0 exactly when the needle is a non-empty prefix. */
  lemma StrposAtZero(name: seq<char>, b: seq<char>)
    ensures Strpos(name, b, 0) == Some(0) <==> b != [] && IsPrefix(b, name)
  {
    if b != [] && IsPrefix(b, name) {
      assert OccursAt(name, b, 0);
    }
  }

  /** `KeepName` read as prefix tests on the two tables. */
  lemma KeepNameMeans(name: seq<char>, d: char)
    ensures KeepName(name, d) <==>
      || name in NameParticles
      || (d == '-' && exists b :: b in NameParticles && IsPrefix(b, name))
      || (exists b :: b in NamePrefixes && IsPrefix(b, name))
  {
    forall b | b in NameParticles || b in NamePrefixes
      ensures Strpos(name, b, 0) == Some(0) <==> IsPrefix(b, name)
    {
      StrposAtZero(name, b);
    }
  }

  /** One exploded piece: kept, or its first codepoint upper-cased (capitalizeWord). */
  function FixName(cc: CharClasses, enc: seq<char>, d: char, name: seq<char>): (r: seq<char>)
    ensures |r| == |name|
    ensures KeepName(name, d) ==> r == name
    ensures !KeepName(name, d) ==> r == MapFirst(cc.upper, name)
  {
    if KeepName(name, d) then name else UpperCaseFirst(Stringy(name, enc), cc).str
  }

  function FixNames(cc: CharClasses, enc: seq<char>, d: char, parts: seq<seq<char>>): seq<seq<char>>
  {
    seq(|parts|, k requires 0 <= k < |parts| => FixName(cc, enc, d, parts[k]))
  }

  /** Joining pieces of the same lengths gives strings of the same length. */
  lemma {:induction false} JoinSameLengths(sep: seq<char>, ps: seq<seq<char>>, qs: seq<seq<char>>)
    requires |ps| == |qs|
    requires forall k :: 0 <= k < |ps| ==> |ps[k]| == |qs[k]|
    ensures |Join(sep, ps)| == |Join(sep, qs)|
    decreases |ps|
  {
    if |ps| > 1 {
      JoinSameLengths(sep, ps[1..], qs[1..]);
    }
  }

  /**
   * capitalizePersonalNameByDelimiter(names, d): explode on d, fix every
   * piece, implode with d. The length does not change.
   */
  function ByDelimiter(cc: CharClasses, enc: seq<char>, names: seq<char>, d: char): (r: seq<char>)
    ensures |r| == |names|
  {
    var parts := Explode(names, [d]);
    var fixed := FixNames(cc, enc, d, parts);
    JoinSameLengths([d], fixed, parts);
    Join([d], fixed)
  }

  /** A fixed piece still does not contain the delimiter, when upper-casing never produces it. */
  lemma FixNameAvoids(cc: CharClasses, enc: seq<char>, d: char, name: seq<char>)
    requires forall c :: c != d ==> cc.upper(c) != d
    requires !Occurs(name, [d])
    ensures d !in FixName(cc, enc, d, name)
  {
    forall i | 0 <= i < |name| ensures name[i] != d {
      OccursAtSingleton(name, d, i);
    }
  }

  /**
   * Exploding the result on the delimiter gives back the fixed pieces, one
   * for each piece of the input, when upper-casing never produces the
   * delimiter from another codepoint.
   */
  lemma ByDelimiterParts(cc: CharClasses, enc: seq<char>, names: seq<char>, d: char)
    requires forall c :: c != d ==> cc.upper(c) != d
    ensures Explode(ByDelimiter(cc, enc, names, d), [d]) == FixNames(cc, enc, d, Explode(names, [d]))
  {
    var parts := Explode(names, [d]);
    var fixed := FixNames(cc, enc, d, parts);
    forall k | 0 <= k < |fixed| ensures [d][0] !in fixed[k] {
      FixNameAvoids(cc, enc, d, parts[k]);
    }
    ExplodeJoin([d], fixed);
  }

  /** Fixing a fixed piece changes nothing, when upper-casing is idempotent. */
  lemma FixNameIdempotent(cc: CharClasses, enc: seq<char>, d: char, name: seq<char>)
    requires forall c :: cc.upper(cc.upper(c)) == cc.upper(c)
    ensures FixName(cc, enc, d, FixName(cc, enc, d, name)) == FixName(cc, enc, d, name)
  {
    var once := FixName(cc, enc, d, name);
    if !KeepName(name, d) && !KeepName(once, d) && name != [] {
      assert MapFirst(cc.upper, once) == [cc.upper(cc.upper(name[0]))] + name[1..];
    }
  }

  /**
   * Capitalising by a delimiter twice is capitalising once, when
   * upper-casing is idempotent and never produces the delimiter from another
   * codepoint.
   */
  lemma ByDelimiterIdempotent(cc: CharClasses, enc: seq<char>, names: seq<char>, d: char)
    requires forall c :: cc.upper(cc.upper(c)) == cc.upper(c)
    requires forall c :: c != d ==> cc.upper(c) != d
    ensures ByDelimiter(cc, enc, ByDelimiter(cc, enc, names, d), d) == ByDelimiter(cc, enc, names, d)
  {
    var fixed := FixNames(cc, enc, d, Explode(names, [d]));
    ByDelimiterParts(cc, enc, names, d);
    forall k | 0 <= k < |fixed| ensures FixName(cc, enc, d, fixed[k]) == fixed[k] {
      FixNameIdempotent(cc, enc, d, Explode(names, [d])[k]);
    }
    assert FixNames(cc, enc, d, fixed) == fixed;
  }

  /**
   * capitalizePersonalName(): collapse whitespace, then fix the pieces
   * between spaces, then the pieces between hyphens.
   */
  function CapitalizePersonalName(s: Stringy, cc: CharClasses): (r: Stringy)
    ensures r.encoding == s.encoding
    ensures |r.str| == |CollapseWhitespace(s, cc).str|
  {
    var collapsed := CollapseWhitespace(s, cc).str;
    var bySpace := ByDelimiter(cc, s.encoding, collapsed, ' ');
    Stringy(ByDelimiter(cc, s.encoding, bySpace, '-'), s.encoding)
  }
}
