/** The boundary string and the two delimiters built from it
    (index.ts:29-31, 167-173). The boundary follows section 4.1 of RFC 7578;
    the delimiter syntax is that of section 5.1.1 of RFC 2046. */
module Boundary {
  import Utf8

  const CRLF: string := "\r\n"

  /** The 24 dashes every generated boundary starts with. */
  const Prefix: string := "------------------------"

  /** `Number.prototype.toString(16)` of a value below 16. */
  function HexDigit(n: nat): char
    requires n < 16
  {
    "0123456789abcdef"[n]
  }

  /** `Math.floor(r * 10)` for one value `r` of `Math.random()`. */
  function Digit(r: real): (d: nat)
    requires 0.0 <= r < 1.0
    ensures d < 10
  {
    (r * 10.0).Floor
  }

  /** What `Math.random()` promises of each value it returns. */
  predicate IsRandomDraws(random: seq<real>)
  {
    forall i :: 0 <= i < |random| ==> 0.0 <= random[i] < 1.0
  }

  /** The shape of every generated boundary: 24 dashes, then 16 decimal
      digits (never `a`-`f`, although each is rendered in base 16). */
  predicate IsBoundary(b: string)
  {
    |b| == 40 && b[..24] == Prefix && forall i :: 24 <= i < 40 ==> '0' <= b[i] <= '9'
  }

  /** generateBoundary, with the 16 values of `Math.random()` it draws
      passed in, in the order it draws them. */
  method GenerateBoundary(random: seq<real>) returns (boundary: string)
    requires |random| == 16 && IsRandomDraws(random)
    ensures IsBoundary(boundary)
    ensures forall i :: 0 <= i < 16 ==> boundary[24 + i] == HexDigit(Digit(random[i]))
  {
    boundary := Prefix;
    for i := 0 to 16
      invariant |boundary| == 24 + i && boundary[..24] == Prefix
      invariant forall k :: 0 <= k < i ==> boundary[24 + k] == HexDigit(Digit(random[k]))
      invariant forall k :: 24 <= k < |boundary| ==> '0' <= boundary[k] <= '9'
    {
      boundary := boundary + [HexDigit(Digit(random[i]))];
    }
  }

  /** The part delimiter `--boundary CRLF`. */
  function PartDelimiter(boundary: string): string
  {
    "--" + boundary + CRLF
  }

  /** The close delimiter `--boundary-- CRLF`. */
  function EndDelimiter(boundary: string): string
  {
    "--" + boundary + "--" + CRLF
  }

  /** The delimiters of a generated boundary are ASCII, so their bytes are
      their characters: 44 bytes for a part, 46 for the end. */
  lemma DelimiterBytes(boundary: string)
    requires IsBoundary(boundary)
    ensures Utf8.IsAscii(PartDelimiter(boundary)) && |Utf8.Encode(PartDelimiter(boundary))| == 44
    ensures Utf8.IsAscii(EndDelimiter(boundary)) && |Utf8.Encode(EndDelimiter(boundary))| == 46
  {
    assert forall i :: 0 <= i < 24 ==> boundary[i] == boundary[..24][i] == '-';
    Utf8.EncodeAscii(PartDelimiter(boundary));
    Utf8.EncodeAscii(EndDelimiter(boundary));
  }
}
