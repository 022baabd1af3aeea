/** Small shared vocabulary: optional values, success-or-failure results and
    the character classes the PHP and JavaScript string functions rely on. */
module Base {

  /** A value that may be absent (a missing request parameter, a missing key). */
  datatype Option<T> = None | Some(value: T)

  /** The outcome of a computation that can fail with an error value. */
  datatype Result<T, E> = Success(value: T) | Failure(error: E)

  /** The characters PHP's `trim()` removes by default: space, tab, newline,
      carriage return, NUL and vertical tab. */
  predicate IsTrimmable(c: char) {
    c == ' ' || c == '\t' || c == '\n' || c == '\r' || c == '\0' || c == 11 as char
  }

  /** A string that is empty once PHP's `trim()` has been applied to it. */
  predicate IsBlank(s: string) {
    forall i | 0 <= i < |s| :: IsTrimmable(s[i])
  }

  /** ASCII lower-casing of one character, as PHP 8's `strtolower` does. */
  function LowerChar(c: char): char {
    if 'A' <= c <= 'Z' then (c as int + 32) as char else c
  }

  /** PHP 8's `strtolower`: ASCII letters are lowered, every other character kept. */
  function Lower(s: string): (r: string)
    ensures |r| == |s|
    ensures forall i | 0 <= i < |s| :: r[i] == LowerChar(s[i])
  {
    if |s| == 0 then [] else [LowerChar(s[0])] + Lower(s[1..])
  }

  /** The elements a sequence holds, repeats counted once. */
  function Items<T(!new)>(s: seq<T>): (r: set<T>)
    ensures forall x :: x in r <==> x in s
  {
    if |s| == 0 then {} else {s[0]} + Items(s[1..])
  }

  /** The longest prefix of `s` whose characters all satisfy `p`, as a length. */
  function SpanLength(s: string, p: char -> bool): (n: nat)
    ensures n <= |s|
    ensures forall i | 0 <= i < n :: p(s[i])
    ensures n < |s| ==> !p(s[n])
  {
    if |s| == 0 || !p(s[0]) then 0 else 1 + SpanLength(s[1..], p)
  }

  /** `s` without its leading characters that satisfy `p`. */
  function DropWhile(s: string, p: char -> bool): (r: string)
    ensures |r| <= |s| && r == s[|s| - |r|..]
    ensures |r| > 0 ==> !p(r[0])
    ensures forall i | 0 <= i < |s| - |r| :: p(s[i])
  {
    s[SpanLength(s, p)..]
  }
}
