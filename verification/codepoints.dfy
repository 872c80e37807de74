/**
 * The multibyte primitives the value type delegates to (`UTF8::substr`,
 * `UTF8::strpos`, `UTF8::strrpos`, `UTF8::substr_count`, `UTF8::str_repeat`,
 * `UTF8::strrev`, `UTF8::str_replace`, `explode`, `implode`), stated over
 * sequences of codepoints with the semantics of PHP's `mb_*` functions.
 */
module Codepoints {
  import opened Failures

  /** `needle` occurs in `hay` starting at codepoint position `p`. */
  predicate OccursAt(hay: seq<char>, needle: seq<char>, p: int)
  {
    0 <= p && p + |needle| <= |hay| && hay[p..p + |needle|] == needle
  }

  /** `needle` occurs somewhere in `hay`. */
  ghost predicate Occurs(hay: seq<char>, needle: seq<char>)
  {
    exists p :: OccursAt(hay, needle, p)
  }

  /** `p` is the least position at or after `from` where `needle` occurs. */
  ghost predicate FirstAtOrAfter(hay: seq<char>, needle: seq<char>, from: int, p: int)
  {
    && from <= p
    && OccursAt(hay, needle, p)
    && forall q :: from <= q < p ==> !OccursAt(hay, needle, q)
  }

  /** `p` is the greatest position in `lo..hi` where `needle` occurs. */
  ghost predicate LastWithin(hay: seq<char>, needle: seq<char>, lo: int, hi: int, p: int)
  {
    && lo <= p <= hi
    && OccursAt(hay, needle, p)
    && forall q :: p < q <= hi ==> !OccursAt(hay, needle, q)
  }

  /** A one-codepoint needle occurs exactly where that codepoint sits. */
  lemma OccursAtSingleton(hay: seq<char>, c: char, p: int)
    ensures OccursAt(hay, [c], p) <==> 0 <= p < |hay| && hay[p] == c
  {
    if 0 <= p < |hay| {
      assert hay[p..p + 1] == [hay[p]];
    }
  }

  predicate IsPrefix(pre: seq<char>, s: seq<char>)
  {
    |pre| <= |s| && s[..|pre|] == pre
  }

  predicate IsSuffix(suf: seq<char>, s: seq<char>)
  {
    |suf| <= |s| && s[|s| - |suf|..] == suf
  }

  /** Forward scan from `from`: the first occurrence of `needle`, if any. */
  function FindFrom(hay: seq<char>, needle: seq<char>, from: nat): (r: Option<nat>)
    requires from <= |hay|
    ensures r.Some? ==> FirstAtOrAfter(hay, needle, from, r.value)
    ensures r.None? ==> forall q :: from <= q ==> !OccursAt(hay, needle, q)
    decreases |hay| - from
  {
    if from + |needle| > |hay| then None
    else if hay[from..from + |needle|] == needle then Some(from)
    else FindFrom(hay, needle, from + 1)
  }

  /** Backward scan from `hi` down to `lo`: the last occurrence of `needle`, if any. */
  function FindLast(hay: seq<char>, needle: seq<char>, lo: nat, hi: int): (r: Option<nat>)
    ensures r.Some? ==> LastWithin(hay, needle, lo, hi, r.value)
    ensures r.None? ==> forall q :: lo <= q <= hi ==> !OccursAt(hay, needle, q)
    decreases hi - lo
  {
    if hi < lo then None
    else if OccursAt(hay, needle, hi) then Some(hi)
    else FindLast(hay, needle, lo, hi - 1)
  }

  /** The position a (possibly negative) `mb_strpos` offset designates. */
  function OffsetFrom(len: nat, offset: int): int
  {
    if offset < 0 then len + offset else offset
  }

  /**
   * mb_strpos: the first occurrence of `needle` at or after `offset` (a negative
   * offset counts from the end). An empty needle or an offset outside the string
   * gives false.
   */
  function Strpos(hay: seq<char>, needle: seq<char>, offset: int): (r: Option<nat>)
    ensures needle == [] ==> r == None
    ensures offset > |hay| || offset < -|hay| ==> r == None
    ensures r.Some? ==> FirstAtOrAfter(hay, needle, OffsetFrom(|hay|, offset), r.value)
    ensures r.None? && needle != [] && -|hay| <= offset <= |hay| ==>
      forall q :: OffsetFrom(|hay|, offset) <= q ==> !OccursAt(hay, needle, q)
  {
    var from := OffsetFrom(|hay|, offset);
    if needle == [] || from < 0 || from > |hay| then None
    else FindFrom(hay, needle, from)
  }

  /**
   * mb_strrpos: the last occurrence of `needle`. A non-negative offset only
   * admits matches starting at or after it; a negative offset only admits
   * matches starting at or before `|hay| + offset`. An empty needle or an
   * offset outside the string gives false.
   */
  function Strrpos(hay: seq<char>, needle: seq<char>, offset: int): (r: Option<nat>)
    ensures needle == [] ==> r == None
    ensures offset > |hay| || offset < -|hay| ==> r == None
    ensures 0 <= offset && r.Some? ==> LastWithin(hay, needle, offset, |hay|, r.value)
    ensures 0 <= offset <= |hay| && needle != [] && r.None? ==>
      forall q :: offset <= q ==> !OccursAt(hay, needle, q)
    ensures offset < 0 && r.Some? ==> LastWithin(hay, needle, 0, |hay| + offset, r.value)
    ensures -|hay| <= offset < 0 && needle != [] && r.None? ==>
      forall q :: q <= |hay| + offset ==> !OccursAt(hay, needle, q)
  {
    if needle == [] then None
    else if offset >= 0 then
      if offset > |hay| then None else FindLast(hay, needle, offset, |hay|)
    else
      if -offset > |hay| then None else FindLast(hay, needle, 0, |hay| + offset)
  }

  /** The first codepoint position mb_substr reads from. */
  function SubstrFrom(len: nat, start: int): nat
  {
    if start < 0 then Max(0, len + start) else start
  }

  /**
   * mb_substr(s, start, length): a negative start counts from the end (clamped
   * to 0), a null length reads to the end, a negative length leaves that many
   * codepoints off the end, and a start beyond the end gives the empty string.
   */
  function Substr(s: seq<char>, start: int, length: Option<int>): (r: seq<char>)
    ensures SubstrFrom(|s|, start) > |s| ==> r == []
    ensures 0 <= start <= |s| && length.None? ==> r == s[start..]
    ensures 0 <= start <= |s| && length.Some? && 0 <= length.value ==>
      r == s[start..Min(|s|, start + length.value)]
    ensures 0 <= start <= |s| && length.Some? && length.value < 0 ==>
      r == s[start..Max(start, |s| + length.value)]
    ensures start < 0 && length.None? ==> r == s[Max(0, |s| + start)..]
    ensures start < 0 && length.Some? && 0 <= length.value ==>
      r == s[Max(0, |s| + start)..Min(|s|, Max(0, |s| + start) + length.value)]
    ensures start < 0 && length.Some? && length.value < 0 ==>
      r == s[Max(0, |s| + start)..Max(Max(0, |s| + start), |s| + length.value)]
    ensures |r| <= |s|
  {
    var from := SubstrFrom(|s|, start);
    if from > |s| then []
    else
      var to := match length
        case None => |s|
        case Some(n) => if n < 0 then Max(from, |s| + n) else Min(|s|, from + n);
      s[from..to]
  }

  /** str_repeat: `s` written `n` times: it starts with `s` and repeats with period `|s|`. */
  function Repeat(s: seq<char>, n: nat): (r: seq<char>)
    ensures |r| == n * |s|
    ensures n > 0 ==> r[..|s|] == s
    ensures forall i :: |s| <= i < |r| ==> r[i] == r[i - |s|]
  {
    if n == 0 then [] else s + Repeat(s, n - 1)
  }

  /** strrev over codepoints. */
  function Reverse(s: seq<char>): (r: seq<char>)
    ensures |r| == |s|
    ensures forall i :: 0 <= i < |s| ==> r[i] == s[|s| - 1 - i]
  {
    if s == [] then [] else Reverse(s[1..]) + [s[0]]
  }

  /** implode: the parts with `sep` between consecutive ones. */
  function Join(sep: seq<char>, parts: seq<seq<char>>): seq<char>
  {
    if |parts| == 0 then []
    else if |parts| == 1 then parts[0]
    else parts[0] + sep + Join(sep, parts[1..])
  }

  /** A join of non-empty parts starts where its first part does and ends where its last part does. */
  lemma {:induction false} JoinEnds(sep: seq<char>, parts: seq<seq<char>>)
    requires |parts| >= 1 && forall k :: 0 <= k < |parts| ==> parts[k] != []
    ensures var j := Join(sep, parts);
      j != [] && j[0] == parts[0][0] && j[|j| - 1] == parts[|parts| - 1][|parts[|parts| - 1]| - 1]
    decreases |parts|
  {
    if |parts| > 1 {
      JoinEnds(sep, parts[1..]);
    }
  }

  /**
   * explode / preg_split on a literal separator: the pieces between the
   * leftmost non-overlapping occurrences of `sep`. Joining them back with
   * `sep` gives the input, and no piece contains `sep`.
   */
  function Explode(s: seq<char>, sep: seq<char>): (parts: seq<seq<char>>)
    requires sep != []
    ensures |parts| >= 1
    ensures Join(sep, parts) == s
    ensures forall k :: 0 <= k < |parts| ==> !Occurs(parts[k], sep)
    ensures forall k :: 0 <= k < |parts| - 1 ==> FirstAtOrAfter(Join(sep, parts[k..]), sep, 0, |parts[k]|)
    decreases |s|
  {
    match FindFrom(s, sep, 0)
    case None => [s]
    case Some(p) =>
      NoOccurrenceBefore(s, sep, p);
      var rest := Explode(s[p + |sep|..], sep);
      assert s == s[..p] + sep + s[p + |sep|..] by {
        assert s == s[..p] + s[p..p + |sep|] + s[p + |sep|..];
      }
      var parts := [s[..p]] + rest;
      assert parts[0..] == parts;
      ConsTails(s[..p], rest);
      parts
  }

  /** The tails of a list with one more entry in front. */
  lemma ConsTails(h: seq<char>, rest: seq<seq<char>>)
    ensures forall k :: 1 <= k <= |rest| ==> ([h] + rest)[k..] == rest[k - 1..] && ([h] + rest)[k] == rest[k - 1]
  {
    forall k | 1 <= k <= |rest| ensures ([h] + rest)[k..] == rest[k - 1..] {
      assert ([h] + rest)[k..] == rest[k - 1..];
    }
  }

  /** Explode cuts at the first occurrence of the separator and goes on after it. */
  lemma ExplodeStep(s: seq<char>, sep: seq<char>, p: nat)
    requires sep != [] && FirstAtOrAfter(s, sep, 0, p)
    ensures Explode(s, sep) == [s[..p]] + Explode(s[p + |sep|..], sep)
  {
    var q := FindFrom(s, sep, 0);
    assert q == Some(p);
  }

  /** The prefix before the first occurrence does not contain the needle. */
  lemma NoOccurrenceBefore(s: seq<char>, sep: seq<char>, p: nat)
    requires sep != []
    requires FirstAtOrAfter(s, sep, 0, p)
    ensures !Occurs(s[..p], sep)
  {
    forall q | OccursAt(s[..p], sep, q) ensures false {
      assert s[..p][q..q + |sep|] == s[q..q + |sep|];
      assert OccursAt(s, sep, q);
    }
  }

  /**
   * str_replace with one search string: every leftmost non-overlapping
   * occurrence of `search` is replaced by `rep`; an empty search string leaves
   * the subject unchanged.
   */
  function ReplaceAll(s: seq<char>, search: seq<char>, rep: seq<char>): (r: seq<char>)
    ensures search == [] ==> r == s
    ensures search != [] && !Occurs(s, search) ==> r == s
    ensures search != [] ==> r == Join(rep, Explode(s, search))
  {
    if search == [] then s else Join(rep, Explode(s, search))
  }

  /**
   * str_replace rewrites the leftmost occurrence and carries on after it:
   * together with the case of no occurrence this fixes every result.
   */
  lemma ReplaceAllStep(s: seq<char>, search: seq<char>, rep: seq<char>, p: nat)
    requires search != [] && FirstAtOrAfter(s, search, 0, p)
    ensures ReplaceAll(s, search, rep) == s[..p] + rep + ReplaceAll(s[p + |search|..], search, rep)
  {
    ExplodeStep(s, search, p);
  }

  /**
   * mb_substr_count: the number of non-overlapping occurrences of `needle`;
   * an empty needle is an error (false).
   */
  function SubstrCount(s: seq<char>, needle: seq<char>): (r: Option<nat>)
    ensures r.None? <==> needle == []
    ensures r.Some? ==> r.value * |needle| <= |s|
    ensures r.Some? ==> (r.value == 0 <==> !Occurs(s, needle))
    ensures r.Some? ==> r.value + 1 == |Explode(s, needle)|
  {
    if needle == [] then None
    else
      var parts := Explode(s, needle);
      JoinLength(needle, parts);
      if |parts| == 1 then Some(0)
      else
        ExplodeOccurs(s, needle);
        Some(|parts| - 1)
  }

  /**
   * mb_substr_count counts the leftmost occurrence and carries on after it:
   * together with the zero case this fixes every count.
   */
  lemma SubstrCountStep(s: seq<char>, needle: seq<char>, p: nat)
    requires needle != [] && FirstAtOrAfter(s, needle, 0, p)
    ensures SubstrCount(s, needle).Some? && SubstrCount(s[p + |needle|..], needle).Some?
    ensures SubstrCount(s, needle).value == SubstrCount(s[p + |needle|..], needle).value + 1
  {
    ExplodeStep(s, needle, p);
    var rest := s[p + |needle|..];
    if |Explode(rest, needle)| == 1 {
    } else {
      ExplodeOccurs(rest, needle);
    }
  }

  /** explode cuts at the leftmost occurrence. */
  lemma ExplodeLeftmost()
    ensures Explode("aaa", "aa") == ["", "a"]
  {
    assert OccursAt("aaa", "aa", 0);
    ExplodeStep("aaa", "aa", 0);
    assert "aaa"[2..] == "a";
    assert !Occurs("a", "aa");
  }

  /** Counted occurrences do not overlap, and none is missed. */
  lemma SubstrCountDisjoint()
    ensures SubstrCount("aaaa", "aa") == Some(2)
  {
    assert OccursAt("aaaa", "aa", 0);
    SubstrCountStep("aaaa", "aa", 0);
    assert "aaaa"[2..] == "aa";
    assert OccursAt("aa", "aa", 0);
    SubstrCountStep("aa", "aa", 0);
    assert "aa"[2..] == [];
  }

  lemma {:induction false} JoinLength(sep: seq<char>, parts: seq<seq<char>>)
    requires |parts| >= 1
    ensures |Join(sep, parts)| >= (|parts| - 1) * |sep|
    decreases |parts|
  {
    if |parts| > 1 {
      JoinLength(sep, parts[1..]);
      assert (|parts| - 1) * |sep| == (|parts| - 2) * |sep| + |sep|;
    }
  }

  /** More than one piece means the separator occurred. */
  lemma ExplodeOccurs(s: seq<char>, sep: seq<char>)
    requires sep != []
    ensures |Explode(s, sep)| > 1 <==> Occurs(s, sep)
  {
    match FindFrom(s, sep, 0)
    case None =>
    case Some(p) => assert OccursAt(s, sep, p);
  }

  /**
   * Splitting a join gives back the parts, when no part contains the first
   * codepoint of the separator.
   */
  lemma {:induction false} ExplodeJoin(sep: seq<char>, parts: seq<seq<char>>)
    requires sep != [] && |parts| >= 1
    requires forall k :: 0 <= k < |parts| ==> sep[0] !in parts[k]
    ensures Explode(Join(sep, parts), sep) == parts
    decreases |parts|
  {
    var j := Join(sep, parts);
    if |parts| == 1 {
      match FindFrom(j, sep, 0)
      case None =>
      case Some(p) =>
        assert false;
    } else {
      var p0 := parts[0];
      var rest := Join(sep, parts[1..]);
      assert j == p0 + sep + rest;
      assert OccursAt(j, sep, |p0|) by {
        assert j[|p0|..|p0| + |sep|] == sep;
      }
      match FindFrom(j, sep, 0)
      case None =>
        assert false;
      case Some(p) =>
        if p < |p0| {
          assert false;
        }
        assert p == |p0|;
        assert j[p + |sep|..] == rest;
        ExplodeJoin(sep, parts[1..]);
        assert Explode(j, sep) == [p0] + Explode(rest, sep);
    }
  }
}
