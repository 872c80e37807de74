/**
 * Character classes and case mappings. The original delegates these to
 * mbstring's Unicode tables and to PCRE's `\s`, `\w` and `\d`; here they are
 * parameters, so every result holds for any choice of tables.
 */
module Classes {

  datatype CharClasses = CharClasses(
    isSpace: char -> bool,   // PCRE `\s` / `[[:space:]]` under the `u` flag
    isWord: char -> bool,    // PCRE `\w`
    isDigit: char -> bool,   // PCRE `\d`
    upper: char -> char,     // mb_strtoupper on one codepoint
    lower: char -> char)     // mb_strtolower on one codepoint

  /** A per-codepoint mapping applied to a whole string. */
  function Map(f: char -> char, s: seq<char>): (r: seq<char>)
    ensures |r| == |s|
    ensures forall i :: 0 <= i < |s| ==> r[i] == f(s[i])
  {
    seq(|s|, i requires 0 <= i < |s| => f(s[i]))
  }

  /** Mapping commutes with taking a window. */
  lemma MapSlice(f: char -> char, s: seq<char>, i: nat, j: nat)
    requires i <= j <= |s|
    ensures Map(f, s)[i..j] == Map(f, s[i..j])
  {
  }

  /** Mapping distributes over concatenation. */
  lemma MapConcat(f: char -> char, a: seq<char>, b: seq<char>)
    ensures Map(f, a + b) == Map(f, a) + Map(f, b)
  {
  }

  /** The mapping applied to every string of a list. */
  function MapAll(f: char -> char, ws: seq<seq<char>>): (rs: seq<seq<char>>)
    ensures |rs| == |ws|
    ensures forall k :: 0 <= k < |ws| ==> rs[k] == Map(f, ws[k])
  {
    if ws == [] then [] else [Map(f, ws[0])] + MapAll(f, ws[1..])
  }

  function IsAsciiUpper(c: char): bool
  {
    'A' <= c <= 'Z'
  }
}
