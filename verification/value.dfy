/**
 * The Stringy value: a sequence of codepoints plus the encoding tag it was
 * created with. Every operation returns a new value; Dafny's value semantics
 * make "the receiver is never modified" hold by construction.
 */
module Value {
  import opened Failures
  import opened Codepoints

  /** An mbstring encoding name, carried along and never interpreted. */
  type Encoding = string

  datatype Stringy = Stringy(str: seq<char>, encoding: Encoding)

  /** What the constructor may be handed, as PHP distinguishes it. */
  datatype Input =
    | Text(text: string)              // a PHP string
    | Scalar(cast: string)            // int, float, bool or null, as `(string)` renders it
    | Stringable(rendered: string)    // an object with __toString, as that method renders it
    | PlainObject                     // an object without __toString
    | Array                           // any PHP array

  /** PHP truthiness of the `$encoding` argument: null, '' and '0' are falsy. */
  predicate EncodingGiven(encoding: Option<string>)
  {
    encoding.Some? && encoding.value != "" && encoding.value != "0"
  }

  /**
   * __construct / create: arrays and objects without __toString are refused;
   * anything else is cast to a string. A falsy encoding falls back to the
   * ambient `mb_internal_encoding()`, passed in as `internal`.
   */
  function Create(input: Input, encoding: Option<string>, internal: Encoding): (r: Result<Stringy>)
    ensures r.Err? <==> input.Array? || input.PlainObject?
    ensures r.Err? ==> r.error == InvalidArgument
    ensures input.Text? ==> r.Ok? && r.value.str == input.text
    ensures input.Scalar? ==> r.Ok? && r.value.str == input.cast
    ensures input.Stringable? ==> r.Ok? && r.value.str == input.rendered
    ensures r.Ok? && EncodingGiven(encoding) ==> r.value.encoding == encoding.value
    ensures r.Ok? && !EncodingGiven(encoding) ==> r.value.encoding == internal
  {
    var enc := if EncodingGiven(encoding) then encoding.value else internal;
    match input
    case Array => Err(InvalidArgument)
    case PlainObject => Err(InvalidArgument)
    case Text(t) => Ok(Stringy(t, enc))
    case Scalar(t) => Ok(Stringy(t, enc))
    case Stringable(t) => Ok(Stringy(t, enc))
  }

  /** A value built from a plain string with an explicit encoding. */
  function Of(text: string, encoding: Encoding): Stringy
  {
    Stringy(text, encoding)
  }

  /** create() never fails on a string, and __toString gives the string back. */
  lemma CreateToString(text: string, encoding: Option<string>, internal: Encoding)
    ensures Create(Text(text), encoding, internal).Ok?
    ensures ToString(Create(Text(text), encoding, internal).value) == text
  {
  }

  /** __toString(): the text, from which create rebuilds the same value. */
  function ToString(s: Stringy): (r: string)
    ensures Create(Text(r), Some(s.encoding), s.encoding) == Ok(s)
  {
    s.str
  }

  /** getEncoding(): the tag, under which create rebuilds the same value. */
  function GetEncoding(s: Stringy): (r: Encoding)
    ensures Create(Text(s.str), Some(r), r) == Ok(s)
  {
    s.encoding
  }

  /** length(): the number of codepoints, which is exactly the number of valid non-negative offsets. */
  function Length(s: Stringy): (n: nat)
    ensures forall i :: 0 <= i ==> (i < n <==> OffsetExists(s, i))
  {
    |s.str|
  }

  /** count(), the Countable interface, agrees with length(). */
  function Count(s: Stringy): (n: nat)
    ensures n == Length(s)
    ensures n == |Chars(s)|
  {
    Length(s)
  }

  /**
   * substr(start, length): like mb_substr, except that a null length reads to
   * the end of the string.
   */
  function Substr(s: Stringy, start: int, length: Option<int>): (r: Stringy)
    ensures r.encoding == s.encoding
    ensures length.None? && SubstrFrom(|s.str|, start) <= |s.str| ==>
      r.str == s.str[SubstrFrom(|s.str|, start)..]
    ensures 0 <= start <= |s.str| && length.Some? && 0 <= length.value ==>
      r.str == s.str[start..Min(|s.str|, start + length.value)]
    ensures start > |s.str| ==> r.str == []
    ensures start < 0 && length.Some? && 0 <= length.value ==>
      r.str == s.str[Max(0, |s.str| + start)..Min(|s.str|, Max(0, |s.str| + start) + length.value)]
    ensures 0 <= start <= |s.str| && length.Some? && length.value < 0 ==>
      r.str == s.str[start..Max(start, |s.str| + length.value)]
    ensures start < 0 && length.Some? && length.value < 0 ==>
      r.str == s.str[Max(0, |s.str| + start)..Max(Max(0, |s.str| + start), |s.str| + length.value)]
  {
    var len := match length case None => Length(s) case Some(n) => n;
    Stringy(Codepoints.Substr(s.str, start, Some(len)), s.encoding)
  }

  /** A negative start counts from the end; a negative length leaves that many codepoints off the end. */
  lemma SubstrNegative()
    ensures Substr(Of("foobar", "UTF-8"), -3, Some(2)).str == "ba"
    ensures Substr(Of("foobar", "UTF-8"), 1, Some(-1)).str == "ooba"
    ensures Substr(Of("foobar", "UTF-8"), -3, Some(-1)).str == "ba"
  {
  }

  /**
   * at(index) = substr(index, 1). Out of range on the right gives ''; a
   * negative index counts from the end and, following mb_substr, is clamped
   * to the first codepoint when it reaches past the start.
   */
  function At(s: Stringy, index: int): (r: Stringy)
    ensures r.encoding == s.encoding
    ensures 0 <= index < |s.str| ==> r.str == [s.str[index]]
    ensures index >= |s.str| ==> r.str == []
    ensures -|s.str| <= index < 0 ==> r.str == [s.str[|s.str| + index]]
    ensures index < -|s.str| && s.str != [] ==> r.str == [s.str[0]]
  {
    Substr(s, index, Some(1))
  }

  /** chars(): one single-codepoint string per position, which concatenate back to the string. */
  function Chars(s: Stringy): (r: seq<seq<char>>)
    ensures |r| == |s.str|
    ensures forall i :: 0 <= i < |r| ==> r[i] == [s.str[i]]
    ensures Join([], r) == s.str
  {
    var r := seq(|s.str|, i requires 0 <= i < |s.str| => At(s, i).str);
    JoinSingletons(s.str, r);
    r
  }

  lemma {:induction false} JoinSingletons(t: seq<char>, parts: seq<seq<char>>)
    requires |parts| == |t|
    requires forall i :: 0 <= i < |t| ==> parts[i] == [t[i]]
    ensures Join([], parts) == t
    decreases |t|
  {
    if |t| > 1 {
      JoinSingletons(t[1..], parts[1..]);
      assert t == [t[0]] + t[1..];
    }
  }

  /** offsetExists: a non-negative offset below the length, or a negative one reaching at most the first codepoint. */
  function OffsetExists(s: Stringy, offset: int): (b: bool)
    ensures b <==> (0 <= offset < |s.str|) || (1 <= -offset <= |s.str|)
  {
    if offset >= 0 then |s.str| > offset else |s.str| >= -offset
  }

  /** offsetGet: the codepoint at the offset, or OutOfBoundsException exactly when offsetExists fails. */
  function OffsetGet(s: Stringy, offset: int): (r: Result<seq<char>>)
    ensures r.Ok? <==> OffsetExists(s, offset)
    ensures r.Err? ==> r.error == OutOfBounds
    ensures r.Ok? && offset >= 0 ==> r.value == [s.str[offset]]
    ensures r.Ok? && offset < 0 ==> r.value == [s.str[|s.str| + offset]]
  {
    var len := |s.str|;
    if (offset >= 0 && len <= offset) || len < (if offset < 0 then -offset else offset) then
      Err(OutOfBounds)
    else
      Ok(Codepoints.Substr(s.str, offset, Some(1)))
  }

  /** offsetSet: the value is immutable, so writing through an index always throws. */
  function OffsetSet(s: Stringy, offset: int, value: seq<char>): (r: Result<Stringy>)
    ensures r.Err? && r.error == Immutable
  {
    Err(Immutable)
  }

  /** offsetUnset: deleting through an index always throws as well. */
  function OffsetUnset(s: Stringy, offset: int): (r: Result<Stringy>)
    ensures r.Err? && r.error == Immutable
  {
    Err(Immutable)
  }

  /** first(n): '' for negative n, otherwise the first min(n, length) codepoints. */
  function First(s: Stringy, n: int): (r: Stringy)
    ensures r.encoding == s.encoding
    ensures n < 0 ==> r.str == []
    ensures n >= 0 ==> r.str == s.str[..Min(n, |s.str|)]
  {
    if n < 0 then Stringy("", s.encoding) else Substr(s, 0, Some(n))
  }

  /** last(n): '' for n <= 0, otherwise the last min(n, length) codepoints. */
  function Last(s: Stringy, n: int): (r: Stringy)
    ensures r.encoding == s.encoding
    ensures n <= 0 ==> r.str == []
    ensures n > 0 ==> r.str == s.str[|s.str| - Min(n, |s.str|)..]
  {
    if n <= 0 then Stringy("", s.encoding) else Substr(s, -n, None)
  }

  /** The length argument slice() hands to substr. */
  function SliceLength(len: nat, start: int, end: Option<int>): int
  {
    match end
    case None => len
    case Some(e) => if e < 0 then len + e - start else e - start
  }

  /**
   * slice(start, end) exactly as written: the branch for a negative end
   * passes `length + end - start` to substr even when that is negative, and
   * mb_substr then reads a negative length as "leave that many off the end".
   */
  function SliceAsWritten(s: Stringy, start: int, end: Option<int>): (r: Stringy)
    ensures r.encoding == s.encoding
    ensures end.Some? && 0 <= end.value <= start ==> r.str == []
    ensures 0 <= start && end.Some? && start < end.value ==>
      r.str == s.str[Min(start, |s.str|)..Min(end.value, |s.str|)]
    ensures end.Some? && end.value < 0 && 0 <= start <= |s.str| + end.value ==>
      r.str == s.str[start..|s.str| + end.value]
    ensures 0 <= start && end.None? ==> r.str == s.str[Min(start, |s.str|)..]
    ensures start < 0 && end.None? ==> r.str == s.str[Max(0, |s.str| + start)..]
    ensures start < 0 && end.Some? && 0 <= end.value ==>
      r.str == s.str[Max(0, |s.str| + start)..Min(|s.str|, Max(0, |s.str| + start) + end.value - start)]
  {
    if end.Some? && end.value >= 0 && end.value <= start then Stringy("", s.encoding)
    else Stringy(Codepoints.Substr(s.str, start, Some(SliceLength(|s.str|, start, end))), s.encoding)
  }

  /** With a negative end that lands before a non-negative start, slice() still returns a codepoint. */
  lemma SliceNegativeEndOvershoot()
    ensures SliceAsWritten(Of("foobar", "UTF-8"), 4, Some(-3)).str == "a"
  {
    assert Codepoints.Substr("foobar", 4, Some(-1)) == "foobar"[4..5];
  }

  /**
   * slice(start, end) as documented: the codepoints from `start` up to, not
   * including, `end`, where a negative end counts from the end of the string;
   * an end at or before the start gives ''.
   */
  function Slice(s: Stringy, start: int, end: Option<int>): (r: Stringy)
    ensures r.encoding == s.encoding
    ensures 0 <= start && end.None? ==> r.str == s.str[Min(start, |s.str|)..]
    ensures 0 <= start && end.Some? && 0 <= end.value ==>
      r.str == s.str[Min(start, |s.str|)..Max(Min(start, |s.str|), Min(end.value, |s.str|))]
    ensures 0 <= start && end.Some? && end.value < 0 ==>
      r.str == s.str[Min(start, |s.str|)..Max(Min(start, |s.str|), |s.str| + end.value)]
    ensures 0 <= start && end.Some? && end.value < 0 && start >= |s.str| + end.value ==> r.str == []
    ensures 0 <= start && end.Some? && end.value < 0 && start < |s.str| + end.value ==>
      r.str == SliceAsWritten(s, start, end).str
    ensures start < 0 ==> r == SliceAsWritten(s, start, end)
    ensures start < 0 && end.None? ==> r.str == s.str[Max(0, |s.str| + start)..]
    ensures start < 0 && end.Some? && 0 <= end.value ==>
      r.str == s.str[Max(0, |s.str| + start)..Min(|s.str|, Max(0, |s.str| + start) + end.value - start)]
  {
    if end.Some? && end.value < 0 && start >= 0 && start >= |s.str| + end.value then Stringy("", s.encoding)
    else SliceAsWritten(s, start, end)
  }

  /**
   * A negative start counts from the end, and a non-negative end is then read
   * as a length `end - start` from there rather than as an index.
   */
  lemma SliceNegativeStart()
    ensures Slice(Of("foobar", "UTF-8"), -2, Some(3)).str == "ar"
    ensures Slice(Of("foobar", "UTF-8"), -3, Some(5)).str == "bar"
    ensures Slice(Of("foobar", "UTF-8"), -4, None).str == "obar"
  {
    assert "foobar"[4..6] == "ar";
    assert "foobar"[3..6] == "bar";
    assert "foobar"[2..] == "obar";
  }

  /** append(t): the receiver followed by `t`. */
  function Append(s: Stringy, t: seq<char>): (r: Stringy)
    ensures r.encoding == s.encoding
    ensures |r.str| == |s.str| + |t|
    ensures r.str[..|s.str|] == s.str && r.str[|s.str|..] == t
  {
    Stringy(s.str + t, s.encoding)
  }

  /** prepend(t): `t` followed by the receiver. */
  function Prepend(s: Stringy, t: seq<char>): (r: Stringy)
    ensures r.encoding == s.encoding
    ensures |r.str| == |t| + |s.str|
    ensures r.str[..|t|] == t && r.str[|t|..] == s.str
  {
    Stringy(t + s.str, s.encoding)
  }

  /** surround(t): `t` on both sides. */
  function Surround(s: Stringy, t: seq<char>): (r: Stringy)
    ensures r.encoding == s.encoding
    ensures |r.str| == |s.str| + 2 * |t|
    ensures r.str[..|t|] == t && r.str[|t| + |s.str|..] == t
    ensures r.str[|t|..|t| + |s.str|] == s.str
  {
    Stringy(t + s.str + t, s.encoding)
  }

  /** The position insert() actually uses: a negative index counts from the end, clamped at 0. */
  function InsertPosition(len: nat, index: int): nat
  {
    if index >= 0 then index else Max(0, len + index)
  }

  /**
   * insert(sub, index): an index past the end leaves the value unchanged;
   * otherwise `sub` is placed at the index (negative: counted from the end).
   */
  function Insert(s: Stringy, sub: seq<char>, index: int): (r: Stringy)
    ensures r.encoding == s.encoding
    ensures index > |s.str| ==> r.str == s.str
    ensures index <= |s.str| ==>
      r.str == s.str[..InsertPosition(|s.str|, index)] + sub + s.str[InsertPosition(|s.str|, index)..]
  {
    if index > Length(s) then s
    else
      var start := Codepoints.Substr(s.str, 0, Some(index));
      var end := Codepoints.Substr(s.str, index, Some(Length(s)));
      var p := InsertPosition(|s.str|, index);
      assert start == s.str[..p] && end == s.str[p..];
      Stringy(start + sub + end, s.encoding)
  }

  /** Cutting the inserted text out again gives back the receiver. */
  lemma InsertCutOut(s: Stringy, sub: seq<char>, index: int)
    requires index <= |s.str|
    ensures var p := InsertPosition(|s.str|, index);
      var r := Insert(s, sub, index).str;
      && r[p..p + |sub|] == sub
      && r[..p] + r[p + |sub|..] == s.str
  {
    var p := InsertPosition(|s.str|, index);
    assert Insert(s, sub, index).str == s.str[..p] + sub + s.str[p..];
    Spliced(s.str[..p], sub, s.str[p..]);
    assert s.str[..p] + s.str[p..] == s.str;
  }

  /** `sub` spliced between x and y sits at |x|, and removing it leaves x + y. */
  lemma Spliced(x: seq<char>, sub: seq<char>, y: seq<char>)
    ensures (x + sub + y)[|x|..|x| + |sub|] == sub
    ensures (x + sub + y)[..|x|] + (x + sub + y)[|x| + |sub|..] == x + y
  {
    assert (x + sub + y)[..|x|] == x;
    assert (x + sub + y)[|x| + |sub|..] == y;
  }

  /** repeat(k): the receiver written k times (str_repeat refuses a negative count). */
  function Repeat(s: Stringy, multiplier: nat): (r: Stringy)
    ensures r.encoding == s.encoding
    ensures |r.str| == multiplier * |s.str|
    ensures multiplier > 0 ==> r.str[..|s.str|] == s.str
    ensures forall i :: |s.str| <= i < |r.str| ==> r.str[i] == r.str[i - |s.str|]
  {
    Stringy(Codepoints.Repeat(s.str, multiplier), s.encoding)
  }

  /** reverse(): the codepoints in reverse order. */
  function Reverse(s: Stringy): (r: Stringy)
    ensures r.encoding == s.encoding
    ensures |r.str| == |s.str|
    ensures forall i :: 0 <= i < |s.str| ==> r.str[i] == s.str[|s.str| - 1 - i]
  {
    Stringy(Codepoints.Reverse(s.str), s.encoding)
  }

  /** Reversing twice gives the receiver back. */
  lemma ReverseInvolution(s: Stringy)
    ensures Reverse(Reverse(s)) == s
  {
    var r := Reverse(Reverse(s));
    assert r.str == s.str;
  }

  /** Negative indexing mirrors positive indexing: at(-1) is the last codepoint. */
  lemma AtNegativeMirrors(s: Stringy, k: int)
    requires 1 <= k <= |s.str|
    ensures At(s, -k) == At(s, |s.str| - k)
  {
  }
}
