/**
 * Searching inside a Stringy value and testing, adding and removing affixes.
 * Case-insensitive variants lower both sides with an abstract per-codepoint
 * mapping before comparing.
 */
module Search {
  import opened Failures
  import opened Codepoints
  import opened Classes
  import opened Value

  /** The haystack or needle as the comparison sees it. */
  function Folded(t: seq<char>, caseSensitive: bool, lower: char -> char): seq<char>
  {
    if caseSensitive then t else Map(lower, t)
  }

  /** indexOf(needle, offset): mb_strpos over the codepoints. */
  function IndexOf(s: Stringy, needle: seq<char>, offset: int): (r: Option<nat>)
    ensures needle == [] ==> r == None
    ensures offset > |s.str| || offset < -|s.str| ==> r == None
    ensures r.Some? ==> FirstAtOrAfter(s.str, needle, OffsetFrom(|s.str|, offset), r.value)
    ensures r.None? && needle != [] && -|s.str| <= offset <= |s.str| ==>
      forall q :: OffsetFrom(|s.str|, offset) <= q ==> !OccursAt(s.str, needle, q)
  {
    Strpos(s.str, needle, offset)
  }

  /** indexOfLast(needle, offset): mb_strrpos over the codepoints. */
  function IndexOfLast(s: Stringy, needle: seq<char>, offset: int): (r: Option<nat>)
    ensures needle == [] ==> r == None
    ensures offset > |s.str| || offset < -|s.str| ==> r == None
    ensures 0 <= offset && r.Some? ==> LastWithin(s.str, needle, offset, |s.str|, r.value)
    ensures 0 <= offset <= |s.str| && needle != [] && r.None? ==>
      forall q :: offset <= q ==> !OccursAt(s.str, needle, q)
    ensures offset < 0 && r.Some? ==> LastWithin(s.str, needle, 0, |s.str| + offset, r.value)
    ensures -|s.str| <= offset < 0 && needle != [] && r.None? ==>
      forall q :: q <= |s.str| + offset ==> !OccursAt(s.str, needle, q)
  {
    Strrpos(s.str, needle, offset)
  }

  /** The first occurrence at or after a position is unique. */
  lemma FirstUnique(hay: seq<char>, needle: seq<char>, from: int, p: int, q: int)
    requires FirstAtOrAfter(hay, needle, from, p) && FirstAtOrAfter(hay, needle, from, q)
    ensures p == q
  {
  }

  /**
   * between(start, end, offset): the text after the first `start` found at
   * or after `offset`, up to the first `end` found after that match; '' when
   * either delimiter is missing.
   */
  function Between(s: Stringy, start: seq<char>, end: seq<char>, offset: int): (r: Stringy)
    ensures r.encoding == s.encoding
    ensures |r.str| <= |s.str|
    ensures start == [] || end == [] ==> r.str == []
  {
    match IndexOf(s, start, offset)
    case None => Stringy("", s.encoding)
    case Some(i) => BetweenFrom(s, end, i + |start|)
  }

  /** The second half of between(): from `substrIndex` up to the first `end` found there. */
  function BetweenFrom(s: Stringy, end: seq<char>, from: nat): (r: Stringy)
    ensures r.encoding == s.encoding
    ensures |r.str| <= |s.str|
    ensures end == [] ==> r.str == []
  {
    match IndexOf(s, end, from)
    case None => Stringy("", s.encoding)
    case Some(j) => Value.Substr(s, from, Some(j - from))
  }

  /** A first occurrence at or after a non-negative offset is what indexOf reports. */
  lemma IndexOfFinds(s: Stringy, needle: seq<char>, from: nat, i: nat)
    requires needle != [] && FirstAtOrAfter(s.str, needle, from, i)
    ensures IndexOf(s, needle, from) == Some(i)
  {
    assert OccursAt(s.str, needle, i);
    var r := IndexOf(s, needle, from);
    FirstUnique(s.str, needle, from, r.value, i);
  }

  /** When both delimiters are found, between() is exactly the text they enclose. */
  lemma BetweenFound(s: Stringy, start: seq<char>, end: seq<char>, offset: int, i: nat, j: nat)
    requires 0 <= offset
    requires FirstAtOrAfter(s.str, start, offset, i)
    requires FirstAtOrAfter(s.str, end, i + |start|, j)
    requires start != [] && end != []
    ensures Between(s, start, end, offset).str == s.str[i + |start|..j]
  {
    IndexOfFinds(s, start, offset, i);
    BetweenAt(s, start, end, offset, i);
    BetweenFromFound(s, end, i + |start|, j);
  }

  /** Once `start` is found at i, between() is the search for `end` after it. */
  lemma BetweenAt(s: Stringy, start: seq<char>, end: seq<char>, offset: int, i: nat)
    requires IndexOf(s, start, offset) == Some(i)
    ensures Between(s, start, end, offset) == BetweenFrom(s, end, i + |start|)
  {
  }

  lemma BetweenFromFound(s: Stringy, end: seq<char>, from: nat, j: nat)
    requires end != [] && FirstAtOrAfter(s.str, end, from, j)
    ensures BetweenFrom(s, end, from).str == s.str[from..j]
  {
    IndexOfFinds(s, end, from, j);
    assert j <= |s.str|;
  }

  /** With no `start` at or after the offset, between() is empty. */
  lemma BetweenNoStart(s: Stringy, start: seq<char>, end: seq<char>, offset: int)
    requires 0 <= offset
    requires forall q :: offset <= q ==> !OccursAt(s.str, start, q)
    ensures Between(s, start, end, offset).str == []
  {
  }

  /** With `start` found at `i` but no `end` after it, between() is empty. */
  lemma BetweenNoEnd(s: Stringy, start: seq<char>, end: seq<char>, offset: int, i: nat)
    requires 0 <= offset
    requires FirstAtOrAfter(s.str, start, offset, i)
    requires forall q :: i + |start| <= q ==> !OccursAt(s.str, end, q)
    ensures Between(s, start, end, offset).str == []
  {
    var ri := IndexOf(s, start, offset);
    if ri.Some? {
      FirstUnique(s.str, start, offset, ri.value, i);
    }
  }

  /** contains(needle): an occurrence exists (case-folded when asked); an empty needle is never contained. */
  function Contains(s: Stringy, needle: seq<char>, caseSensitive: bool, lower: char -> char): (b: bool)
    ensures b <==> needle != [] && Occurs(Folded(s.str, caseSensitive, lower), Folded(needle, caseSensitive, lower))
  {
    var hay := Folded(s.str, caseSensitive, lower);
    var pin := Folded(needle, caseSensitive, lower);
    var r := Strpos(hay, pin, 0);
    assert r.Some? ==> OccursAt(hay, pin, r.value);
    r.Some?
  }

  /** containsAny(needles): some needle is contained; false for an empty list. */
  function ContainsAny(s: Stringy, needles: seq<seq<char>>, caseSensitive: bool, lower: char -> char): (b: bool)
    ensures b <==> exists k :: 0 <= k < |needles| && Contains(s, needles[k], caseSensitive, lower)
  {
    if |needles| == 0 then false
    else if Contains(s, needles[0], caseSensitive, lower) then true
    else
      var rest := ContainsAny(s, needles[1..], caseSensitive, lower);
      assert rest ==> exists k :: 0 <= k < |needles| && Contains(s, needles[k], caseSensitive, lower) by {
        if rest {
          var k :| 0 <= k < |needles[1..]| && Contains(s, needles[1..][k], caseSensitive, lower);
          assert Contains(s, needles[k + 1], caseSensitive, lower);
        }
      }
      rest
  }

  /** The foreach of containsAll: every needle is contained, stopping at the first that is not. */
  function AllContained(s: Stringy, needles: seq<seq<char>>, caseSensitive: bool, lower: char -> char): (b: bool)
    ensures b <==> forall k :: 0 <= k < |needles| ==> Contains(s, needles[k], caseSensitive, lower)
  {
    if |needles| == 0 then true
    else
      var rest := AllContained(s, needles[1..], caseSensitive, lower);
      assert forall k :: 1 <= k < |needles| ==> needles[k] == needles[1..][k - 1];
      Contains(s, needles[0], caseSensitive, lower) && rest
  }

  /** containsAll(needles): every needle is contained, and the list is not empty. */
  function ContainsAll(s: Stringy, needles: seq<seq<char>>, caseSensitive: bool, lower: char -> char): (b: bool)
    ensures b <==> |needles| > 0 && forall k :: 0 <= k < |needles| ==> Contains(s, needles[k], caseSensitive, lower)
  {
    |needles| > 0 && AllContained(s, needles, caseSensitive, lower)
  }

  /** PHP's `(int)` cast of a string: optional leading whitespace and sign, then the leading decimal digits. */
  function StringToInt(t: string): int
    decreases |t|
  {
    if |t| > 0 && t[0] in " \t\n\r\U{B}\U{C}" then StringToInt(t[1..])
    else if |t| > 0 && t[0] == '-' then 0 - DigitsValue(t[1..], 0) as int
    else if |t| > 0 && t[0] == '+' then DigitsValue(t[1..], 0)
    else DigitsValue(t, 0)
  }

  /** The value of the leading decimal digits of `t`, accumulated onto `acc`. */
  function DigitsValue(t: string, acc: nat): nat
    decreases |t|
  {
    if |t| > 0 && '0' <= t[0] <= '9' then DigitsValue(t[1..], acc * 10 + (t[0] as int - '0' as int))
    else acc
  }

  /**
   * startsWith(sub) as written: the encoding name lands in mb_strpos's offset
   * position and is cast to an integer, so an encoding whose name starts with
   * digits moves the search start.
   */
  function StartsWithAsWritten(s: Stringy, sub: seq<char>, caseSensitive: bool, lower: char -> char): (b: bool)
    ensures StringToInt(s.encoding) > 0 ==> !b
    ensures StringToInt(s.encoding) == 0 ==> b == StartsWith(s, sub, caseSensitive, lower)
  {
    var hay := Folded(s.str, caseSensitive, lower);
    var pin := Folded(sub, caseSensitive, lower);
    Strpos(hay, pin, StringToInt(s.encoding)) == Some(0)
  }

  /** An instance tagged "8bit", a valid mbstring encoding, never starts with anything. */
  lemma StartsWithEightBit()
    ensures StringToInt("8bit") == 8
    ensures IsPrefix("foo", "foo bar baz")
    ensures !StartsWithAsWritten(Of("foo bar baz", "8bit"), "foo", true, c => c)
  {
    assert DigitsValue("bit", 8) == 8;
  }

  /** startsWith(sub): `sub` is a non-empty prefix (after case folding when asked). */
  function StartsWith(s: Stringy, sub: seq<char>, caseSensitive: bool, lower: char -> char): (b: bool)
    ensures b <==> sub != [] && IsPrefix(Folded(sub, caseSensitive, lower), Folded(s.str, caseSensitive, lower))
  {
    var hay := Folded(s.str, caseSensitive, lower);
    var pin := Folded(sub, caseSensitive, lower);
    var r := Strpos(hay, pin, 0);
    assert IsPrefix(pin, hay) && pin != [] ==> r == Some(0) by {
      if IsPrefix(pin, hay) && pin != [] {
        assert OccursAt(hay, pin, 0);
      }
    }
    r == Some(0)
  }

  /**
   * endsWith(sub): the last |sub| codepoints equal `sub` (after case folding
   * when asked). An empty `sub` is always a suffix.
   */
  function EndsWith(s: Stringy, sub: seq<char>, caseSensitive: bool, lower: char -> char): (b: bool)
    ensures b <==> IsSuffix(Folded(sub, caseSensitive, lower), Folded(s.str, caseSensitive, lower))
  {
    var window := Tail(s.str, |sub|);
    TailCompare(s.str, sub, caseSensitive, lower);
    Folded(sub, caseSensitive, lower) == Folded(window, caseSensitive, lower)
  }

  /** mb_substr(t, len - n, n): the last n codepoints, or all of `t` when it is shorter. */
  function Tail(t: seq<char>, n: nat): (w: seq<char>)
    ensures n <= |t| ==> w == t[|t| - n..]
    ensures |w| <= |t|
  {
    Codepoints.Substr(t, |t| - n, Some(n))
  }

  /** Comparing `sub` with the tail window of its length decides whether it is a suffix. */
  lemma TailCompare(t: seq<char>, sub: seq<char>, caseSensitive: bool, lower: char -> char)
    ensures Folded(sub, caseSensitive, lower) == Folded(Tail(t, |sub|), caseSensitive, lower) <==>
      IsSuffix(Folded(sub, caseSensitive, lower), Folded(t, caseSensitive, lower))
  {
    var w := Tail(t, |sub|);
    if |sub| <= |t| {
      MapSlice(lower, t, |t| - |sub|, |t|);
    } else {
      assert |Folded(w, caseSensitive, lower)| < |Folded(sub, caseSensitive, lower)|;
    }
  }

  /**
   * startsWithAny(subs): some entry passes startsWith; false for an empty list.
   * It calls startsWith as written, so it shares its treatment of the encoding.
   */
  function StartsWithAny(s: Stringy, subs: seq<seq<char>>, caseSensitive: bool, lower: char -> char): (b: bool)
    ensures b <==> exists k :: 0 <= k < |subs| && StartsWithAsWritten(s, subs[k], caseSensitive, lower)
    ensures StringToInt(s.encoding) > 0 ==> !b
    ensures StringToInt(s.encoding) == 0 ==>
      (b <==> exists k :: 0 <= k < |subs| && StartsWith(s, subs[k], caseSensitive, lower))
  {
    if |subs| == 0 then false
    else if StartsWithAsWritten(s, subs[0], caseSensitive, lower) then true
    else
      var rest := StartsWithAny(s, subs[1..], caseSensitive, lower);
      assert rest ==> exists k :: 0 <= k < |subs| && StartsWithAsWritten(s, subs[k], caseSensitive, lower) by {
        if rest {
          var k :| 0 <= k < |subs[1..]| && StartsWithAsWritten(s, subs[1..][k], caseSensitive, lower);
          assert StartsWithAsWritten(s, subs[k + 1], caseSensitive, lower);
        }
      }
      rest
  }

  /** endsWithAny(subs): some entry is a suffix; false for an empty list. */
  function EndsWithAny(s: Stringy, subs: seq<seq<char>>, caseSensitive: bool, lower: char -> char): (b: bool)
    ensures b <==> exists k :: 0 <= k < |subs| && EndsWith(s, subs[k], caseSensitive, lower)
  {
    if |subs| == 0 then false
    else if EndsWith(s, subs[0], caseSensitive, lower) then true
    else
      var rest := EndsWithAny(s, subs[1..], caseSensitive, lower);
      assert rest ==> exists k :: 0 <= k < |subs| && EndsWith(s, subs[k], caseSensitive, lower) by {
        if rest {
          var k :| 0 <= k < |subs[1..]| && EndsWith(s, subs[1..][k], caseSensitive, lower);
          assert EndsWith(s, subs[k + 1], caseSensitive, lower);
        }
      }
      rest
  }

  /**
   * ensureLeft(sub): the result starts with `sub`; an existing prefix is left
   * alone, otherwise `sub` is prepended. The test is startsWith as written, so
   * an encoding name read as a positive offset makes every call prepend.
   */
  function EnsureLeft(s: Stringy, sub: seq<char>): (r: Stringy)
    ensures r.encoding == s.encoding
    ensures IsPrefix(sub, r.str)
    ensures r == s || r.str == sub + s.str
    ensures !IsPrefix(sub, s.str) ==> r.str == sub + s.str
    ensures StringToInt(s.encoding) == 0 && sub != [] && IsPrefix(sub, s.str) ==> r == s
    ensures StringToInt(s.encoding) > 0 ==> r.str == sub + s.str
  {
    if StartsWithAsWritten(s, sub, true, c => c) then s else Stringy(sub + s.str, s.encoding)
  }

  /** ensureLeft is idempotent. */
  lemma EnsureLeftIdempotent(s: Stringy, sub: seq<char>)
    ensures StringToInt(s.encoding) == 0 ==> EnsureLeft(EnsureLeft(s, sub), sub) == EnsureLeft(s, sub)
    ensures StringToInt(s.encoding) > 0 ==> EnsureLeft(EnsureLeft(s, sub), sub).str == sub + sub + s.str
  {
    var once := EnsureLeft(s, sub);
    if sub == [] {
      assert once.str == s.str;
    }
  }

  /** ensureRight(sub): the result ends with `sub`; an existing suffix is left alone, otherwise `sub` is appended. */
  function EnsureRight(s: Stringy, sub: seq<char>): (r: Stringy)
    ensures r.encoding == s.encoding
    ensures IsSuffix(sub, r.str)
    ensures IsSuffix(sub, s.str) ==> r == s
    ensures !IsSuffix(sub, s.str) ==> r.str == s.str + sub
  {
    if EndsWith(s, sub, true, c => c) then s else Stringy(s.str + sub, s.encoding)
  }

  /** ensureRight is idempotent. */
  lemma EnsureRightIdempotent(s: Stringy, sub: seq<char>)
    ensures EnsureRight(EnsureRight(s, sub), sub) == EnsureRight(s, sub)
  {
  }

  /**
   * removeLeft(sub): drops `sub` when it is a prefix, and otherwise changes
   * nothing. Like ensureLeft it tests with startsWith as written, so an
   * encoding name read as a positive offset makes it change nothing.
   */
  function RemoveLeft(s: Stringy, sub: seq<char>): (r: Stringy)
    ensures r.encoding == s.encoding
    ensures r == s || (IsPrefix(sub, s.str) && r.str == s.str[|sub|..])
    ensures !IsPrefix(sub, s.str) ==> r == s
    ensures StringToInt(s.encoding) == 0 && IsPrefix(sub, s.str) ==> r.str == s.str[|sub|..]
    ensures StringToInt(s.encoding) > 0 ==> r == s
  {
    if StartsWithAsWritten(s, sub, true, c => c) then Value.Substr(s, |sub|, None) else s
  }

  /** removeRight(sub): drops `sub` when it is a suffix, and otherwise changes nothing. */
  function RemoveRight(s: Stringy, sub: seq<char>): (r: Stringy)
    ensures r.encoding == s.encoding
    ensures IsSuffix(sub, s.str) ==> r.str == s.str[..|s.str| - |sub|]
    ensures !IsSuffix(sub, s.str) ==> r == s
  {
    if EndsWith(s, sub, true, c => c) then Value.Substr(s, 0, Some(Length(s) - |sub|)) else s
  }

  /** removeLeft undoes prepend, and ensureLeft undoes removeLeft of a present prefix. */
  lemma RemoveLeftInverse(s: Stringy, sub: seq<char>)
    ensures StringToInt(s.encoding) == 0 ==> RemoveLeft(Prepend(s, sub), sub) == s
    ensures StringToInt(s.encoding) == 0 && sub != [] && IsPrefix(sub, s.str) && !IsPrefix(sub, s.str[|sub|..]) ==>
      EnsureLeft(RemoveLeft(s, sub), sub) == s
    ensures StringToInt(s.encoding) == 0 && !IsPrefix(sub, s.str) ==> RemoveLeft(EnsureLeft(s, sub), sub) == s
    ensures StringToInt(s.encoding) > 0 ==> RemoveLeft(Prepend(s, sub), sub) == Prepend(s, sub)
    ensures StringToInt(s.encoding) > 0 ==> RemoveLeft(EnsureLeft(s, sub), sub).str == sub + s.str
  {
    var p := Prepend(s, sub);
    assert IsPrefix(sub, p.str);
    assert p.str[|sub|..] == s.str;
    if StringToInt(s.encoding) == 0 && sub != [] && IsPrefix(sub, s.str) {
      var t := RemoveLeft(s, sub);
      assert sub + t.str == s.str;
    }
  }

  /** removeRight undoes append, and ensureRight undoes removeRight of a present suffix. */
  lemma RemoveRightInverse(s: Stringy, sub: seq<char>)
    ensures RemoveRight(Append(s, sub), sub) == s
    ensures IsSuffix(sub, s.str) && !IsSuffix(sub, s.str[..|s.str| - |sub|]) ==>
      EnsureRight(RemoveRight(s, sub), sub) == s
    ensures !IsSuffix(sub, s.str) ==> RemoveRight(EnsureRight(s, sub), sub) == s
  {
    var a := Append(s, sub);
    assert IsSuffix(sub, a.str);
    assert a.str[..|a.str| - |sub|] == s.str;
    if IsSuffix(sub, s.str) {
      var t := RemoveRight(s, sub);
      assert t.str + sub == s.str;
    }
  }

  /**
   * afterFirst(sep): the text after the first occurrence of `sep`, or '' when
   * there is none. The not-found branch builds its result without the
   * receiver's encoding, so it carries the ambient one.
   */
  function AfterFirst(s: Stringy, sep: seq<char>, internal: Encoding): (r: Stringy)
    ensures IndexOf(s, sep, 0).None? ==> r == Stringy("", internal)
    ensures IndexOf(s, sep, 0).Some? ==>
      r.encoding == s.encoding && r.str == s.str[IndexOf(s, sep, 0).value + |sep|..]
  {
    match IndexOf(s, sep, 0)
    case None => Stringy("", internal)
    case Some(p) => Stringy(Codepoints.Substr(s.str, p + |sep|, None), s.encoding)
  }

  /** beforeFirst(sep): the text before the first occurrence of `sep`, which does not contain `sep`. */
  function BeforeFirst(s: Stringy, sep: seq<char>): (r: Stringy)
    ensures r.encoding == s.encoding
    ensures IndexOf(s, sep, 0).None? ==> r.str == []
    ensures !Occurs(r.str, sep) || sep == []
  {
    match IndexOf(s, sep, 0)
    case None => Stringy("", s.encoding)
    case Some(p) =>
      NoOccurrenceBefore(s.str, sep, p);
      Stringy(Codepoints.Substr(s.str, 0, Some(p)), s.encoding)
  }

  /** afterLast(sep): the text after the last occurrence of `sep`, which does not contain `sep`. */
  function AfterLast(s: Stringy, sep: seq<char>): (r: Stringy)
    ensures r.encoding == s.encoding
    ensures IndexOfLast(s, sep, 0).None? ==> r.str == []
    ensures IndexOfLast(s, sep, 0).Some? ==> r.str == s.str[IndexOfLast(s, sep, 0).value + |sep|..]
    ensures !Occurs(r.str, sep) || sep == []
  {
    match IndexOfLast(s, sep, 0)
    case None => Stringy("", s.encoding)
    case Some(p) =>
      var after := s.str[p + |sep|..];
      assert !Occurs(after, sep) by {
        forall q | OccursAt(after, sep, q) ensures false {
          assert s.str[p + |sep| + q..p + |sep| + q + |sep|] == after[q..q + |sep|];
          assert OccursAt(s.str, sep, p + |sep| + q);
        }
      }
      Stringy(Codepoints.Substr(s.str, p + |sep|, None), s.encoding)
  }

  /** beforeLast(sep): the text before the last occurrence of `sep`. */
  function BeforeLast(s: Stringy, sep: seq<char>): (r: Stringy)
    ensures r.encoding == s.encoding
    ensures IndexOfLast(s, sep, 0).None? ==> r.str == []
    ensures IndexOfLast(s, sep, 0).Some? ==> r.str == s.str[..IndexOfLast(s, sep, 0).value]
  {
    match IndexOfLast(s, sep, 0)
    case None => Stringy("", s.encoding)
    case Some(p) => Stringy(Codepoints.Substr(s.str, 0, Some(p)), s.encoding)
  }

  /** An occurrence of `sep` at q cuts the text into the part before, `sep`, and the part after. */
  lemma CutAt(t: seq<char>, sep: seq<char>, q: nat)
    requires OccursAt(t, sep, q)
    ensures t[..q] + sep + t[q + |sep|..] == t
  {
    assert t == t[..q] + t[q..q + |sep|] + t[q + |sep|..];
  }

  /** When `sep` occurs, the text before and after its first occurrence rebuild the receiver around it. */
  lemma FirstSplitRoundTrip(s: Stringy, sep: seq<char>, internal: Encoding)
    requires sep != [] && Occurs(s.str, sep)
    ensures BeforeFirst(s, sep).str + sep + AfterFirst(s, sep, internal).str == s.str
  {
    var p :| OccursAt(s.str, sep, p);
    var i := IndexOf(s, sep, 0);
    assert i.Some?;
    var q := i.value;
    assert BeforeFirst(s, sep).str == s.str[..q];
    assert AfterFirst(s, sep, internal).str == s.str[q + |sep|..];
    CutAt(s.str, sep, q);
  }

  /** When `sep` occurs, the text before and after its last occurrence rebuild the receiver around it. */
  lemma LastSplitRoundTrip(s: Stringy, sep: seq<char>)
    requires sep != [] && Occurs(s.str, sep)
    ensures BeforeLast(s, sep).str + sep + AfterLast(s, sep).str == s.str
  {
    var p :| OccursAt(s.str, sep, p);
    var i := IndexOfLast(s, sep, 0);
    assert i.Some?;
    var q := i.value;
    assert BeforeLast(s, sep).str == s.str[..q];
    assert AfterLast(s, sep).str == s.str[q + |sep|..];
    CutAt(s.str, sep, q);
  }

  /** countSubstr(sub), case-sensitive: the number of non-overlapping occurrences; false for an empty `sub`. */
  function CountSubstr(s: Stringy, sub: seq<char>): (r: Option<nat>)
    ensures r.None? <==> sub == []
    ensures r.Some? ==> r.value * |sub| <= |s.str|
    ensures r.Some? ==> (r.value == 0 <==> !Occurs(s.str, sub))
    ensures r.Some? ==> r.value + 1 == |Explode(s.str, sub)|
  {
    SubstrCount(s.str, sub)
  }

  /**
   * countSubstr counts the leftmost occurrence and carries on after it, so the
   * occurrences counted are the leftmost non-overlapping ones.
   */
  lemma CountSubstrStep(s: Stringy, sub: seq<char>, p: nat)
    requires sub != [] && FirstAtOrAfter(s.str, sub, 0, p)
    ensures CountSubstr(s, sub).Some?
    ensures CountSubstr(s, sub).value == CountSubstr(Stringy(s.str[p + |sub|..], s.encoding), sub).value + 1
  {
    SubstrCountStep(s.str, sub, p);
  }

  /** Joining k + 1 pieces that avoid the separator's first codepoint gives exactly k occurrences. */
  lemma CountSubstrOfJoin(sub: seq<char>, parts: seq<seq<char>>, encoding: Encoding)
    requires sub != [] && |parts| >= 1
    requires forall k :: 0 <= k < |parts| ==> sub[0] !in parts[k]
    ensures CountSubstr(Stringy(Join(sub, parts), encoding), sub) == Some(|parts| - 1)
  {
    var j := Join(sub, parts);
    ExplodeJoin(sub, parts);
    assert Explode(j, sub) == parts;
    if |parts| > 1 {
      ExplodeOccurs(j, sub);
    }
  }
}
