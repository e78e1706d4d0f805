/** SHA-256 as an arbitrary function from bytes to 32 bytes, ASCII text, and
    the hexadecimal notation of digests. */
module Hashing {
  import opened ByteStrings
  import opened Options

  type Digest = d: Bytes | |d| == 32 witness seq(32, _ => 0)

  type Hash = Bytes -> Digest

  /** Python text that `encode("ascii")` accepts. */
  type Text = s: string | forall i :: 0 <= i < |s| ==> s[i] as int < 128

  /** No two of these inputs are sent to the same digest. */
  ghost predicate CollisionFree<A, B>(h: A -> B, inputs: set<A>) {
    forall a, b :: a in inputs && b in inputs && h(a) == h(b) ==> a == b
  }

  function Ascii(s: Text): (b: Bytes)
    ensures |b| == |s|
  {
    seq(|s|, i requires 0 <= i < |s| => s[i] as int)
  }

  lemma AsciiInjective(s: Text, t: Text)
    requires Ascii(s) == Ascii(t)
    ensures s == t
  {
    forall i | 0 <= i < |s|
      ensures s[i] == t[i]
    {
      assert Ascii(s)[i] == Ascii(t)[i];
    }
  }

  function LowerChar(c: char): char {
    if 'A' <= c <= 'Z' then (c as int + 32) as char else c
  }

  /** `s.lower()` */
  function Lower(s: Text): (t: Text)
    ensures |t| == |s|
  {
    seq(|s|, i requires 0 <= i < |s| => LowerChar(s[i]))
  }

  /** The same ASCII letter, in either case, or the same character. */
  predicate SameLetter(c: char, d: char) {
    || c == d
    || ('A' <= c <= 'Z' && d as int == c as int + 32)
    || ('A' <= d <= 'Z' && c as int == d as int + 32)
  }

  /** Equal but for the case of letters. */
  predicate SameLetters(s: string, t: string) {
    |s| == |t| && forall i :: 0 <= i < |s| ==> SameLetter(s[i], t[i])
  }

  lemma LowerExactlyWhen(s: Text, t: Text)
    ensures Lower(s) == Lower(t) <==> SameLetters(s, t)
  {
    if Lower(s) == Lower(t) {
      assert |s| == |Lower(s)| == |t|;
      forall i | 0 <= i < |s|
        ensures SameLetter(s[i], t[i])
      {
        assert Lower(s)[i] == Lower(t)[i];
      }
    }
  }

  lemma LowerHasNoCapitals(s: Text)
    ensures forall i :: 0 <= i < |s| ==> !('A' <= Lower(s)[i] <= 'Z')
  {
  }

  lemma LowerOfLower(s: Text)
    requires forall i :: 0 <= i < |s| ==> !('A' <= s[i] <= 'Z')
    ensures Lower(s) == s
  {
  }

  // ----- hexadecimal -----

  function HexDigit(n: nat): (c: char)
    requires n < 16
    ensures c as int < 128
  {
    if n < 10 then ('0' as int + n) as char else ('a' as int + n - 10) as char
  }

  function DigitValue(c: char): (r: Option<nat>)
    ensures r.Some? ==> r.value < 16
  {
    if '0' <= c <= '9' then Some(c as int - '0' as int)
    else if 'a' <= c <= 'f' then Some(c as int - 'a' as int + 10)
    else if 'A' <= c <= 'F' then Some(c as int - 'A' as int + 10)
    else None
  }

  /** The white space that `bytes.fromhex` skips. */
  predicate IsSpace(c: char) {
    c == ' ' || 9 <= c as int <= 13
  }

  /** `b.hex()` */
  function Hex(b: Bytes): (s: Text)
    ensures |s| == 2 * |b|
  {
    if b == [] then "" else [HexDigit(b[0] / 16), HexDigit(b[0] % 16)] + Hex(b[1..])
  }

  /** `bytes.fromhex(s)`: white space is skipped before a pair of digits,
      anything else raises. */
  function FromHex(s: Text): Option<Bytes> {
    if s == "" then Some([])
    else if IsSpace(s[0]) then FromHex(s[1..])
    else if |s| == 1 then None
    else
      match (DigitValue(s[0]), DigitValue(s[1]), FromHex(s[2..]))
      case (Some(hi), Some(lo), Some(rest)) => Some([16 * hi + lo] + rest)
      case _ => None
  }

  lemma {:induction false} HexRoundTrip(b: Bytes)
    ensures FromHex(Hex(b)) == Some(b)
  {
    if b != [] {
      HexRoundTrip(b[1..]);
      assert Hex(b)[2..] == Hex(b[1..]);
      assert [16 * (b[0] / 16) + b[0] % 16] + b[1..] == b;
    }
  }

  lemma {:induction false} HexIsLower(b: Bytes)
    ensures Lower(Hex(b)) == Hex(b)
  {
    if b != [] {
      HexIsLower(b[1..]);
      var hi, lo := HexDigit(b[0] / 16), HexDigit(b[0] % 16);
      assert Lower(Hex(b)) == [LowerChar(hi), LowerChar(lo)] + Lower(Hex(b[1..]));
    }
  }

  lemma HexInjective(a: Bytes, b: Bytes)
    requires Hex(a) == Hex(b)
    ensures a == b
  {
    HexRoundTrip(a);
    HexRoundTrip(b);
  }
}
