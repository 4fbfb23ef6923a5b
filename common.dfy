/** Shared vocabulary: optional values, results, bytes, Go's integer division
    and the few string operations the Go and JavaScript code relies on. */
module Common {

  datatype Option<T> = None | Some(value: T)

  datatype Result<T, E> = Ok(value: T) | Err(error: E)

  /** An octet, as Go's `byte` and the engine's memory reads see it. */
  type Byte = b: nat | b < 256

  /** Go's `/` on signed integers: the quotient is truncated toward zero
      (Dafny's own `/` is Euclidean). */
  function GoDiv(a: int, b: int): (q: int)
    requires b != 0
    ensures a >= 0 && b > 0 ==> q == a / b
    ensures a <= 0 && b < 0 ==> q == (-a) / (-b)
    ensures (a >= 0) == (b > 0) ==> q >= 0
  {
    if a >= 0 && b > 0 then a / b
    else if a >= 0 then -(a / (-b))
    else if b > 0 then -((-a) / b)
    else (-a) / (-b)
  }

  predicate StartsWith(s: string, prefix: string) {
    |prefix| <= |s| && s[..|prefix|] == prefix
  }

  predicate OccursAt(s: string, t: string, i: int) {
    0 <= i <= |s| - |t| && s[i..i + |t|] == t
  }

  /** `strings.Contains(s, t)`: t occurs in s at some position. */
  predicate Contains(s: string, t: string) {
    exists i :: 0 <= i <= |s| - |t| && OccursAt(s, t, i)
  }

  function LowerChar(c: char): char {
    if 'A' <= c <= 'Z' then (c as int + 32) as char else c
  }

  /** `strings.ToLower`, on the ASCII letters. */
  function ToLower(s: string): (r: string)
    ensures |r| == |s|
    ensures forall i :: 0 <= i < |s| ==> r[i] == LowerChar(s[i])
  {
    if s == [] then [] else [LowerChar(s[0])] + ToLower(s[1..])
  }

  /** `strings.Replace(s, old, new, 1)` for a one-character `old`: the first
      occurrence of `from` becomes `to`; without one, `s` is returned. */
  function ReplaceFirst(s: string, from: char, to: char): (r: string)
    ensures |r| == |s|
    ensures from !in s ==> r == s
  {
    if s == [] then []
    else if s[0] == from then [to] + s[1..]
    else [s[0]] + ReplaceFirst(s[1..], from, to)
  }

  // ---------------------------------------------------------------------
  // encoding/hex

  const HexDigits: string := "0123456789abcdef"

  /** Value of a hexadecimal digit in either case, as `hex.DecodeString` reads it. */
  function HexDigitValue(c: char): (r: Option<nat>)
    ensures r.Some? ==> r.value < 16
  {
    if '0' <= c <= '9' then Some(c as int - '0' as int)
    else if 'a' <= c <= 'f' then Some(c as int - 'a' as int + 10)
    else if 'A' <= c <= 'F' then Some(c as int - 'A' as int + 10)
    else None
  }

  /** `hex.EncodeToString`: two lower-case digits per byte, high nibble first. */
  function HexEncode(b: seq<Byte>): (r: string)
    ensures |r| == 2 * |b|
    ensures forall c :: c in r ==> c in HexDigits
  {
    if b == [] then []
    else [HexDigits[b[0] / 16], HexDigits[b[0] % 16]] + HexEncode(b[1..])
  }

  /** `hex.DecodeString`: an odd length or a character that is not a
      hexadecimal digit is an error. */
  function HexDecode(s: string): (r: Option<seq<Byte>>)
    ensures r.Some? ==> 2 * |r.value| == |s|
  {
    if s == [] then Some([])
    else if |s| == 1 then None
    else match (HexDigitValue(s[0]), HexDigitValue(s[1]), HexDecode(s[2..]))
      case (Some(hi), Some(lo), Some(rest)) => Some([(hi * 16 + lo) as Byte] + rest)
      case _ => None
  }

  /** Each digit of HexDigits reads back as its position. */
  lemma HexDigitRoundTrip(n: nat)
    requires n < 16
    ensures HexDigitValue(HexDigits[n]) == Some(n)
  {
  }

  /** Hex decoding inverts hex encoding. */
  lemma {:induction false} HexRoundTrip(b: seq<Byte>)
    ensures HexDecode(HexEncode(b)) == Some(b)
  {
    if b != [] {
      var hi, lo := b[0] / 16, b[0] % 16;
      var e := HexEncode(b);
      assert e[0] == HexDigits[hi] && e[1] == HexDigits[lo] && e[2..] == HexEncode(b[1..]);
      HexDigitRoundTrip(hi);
      HexDigitRoundTrip(lo);
      HexRoundTrip(b[1..]);
      assert hi * 16 + lo == b[0];
      assert HexDecode(e) == Some([b[0]] + b[1..]);
      assert [b[0]] + b[1..] == b;
    }
  }
}
