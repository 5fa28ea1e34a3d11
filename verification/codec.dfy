/** The text-level helpers `toB64` and `fromB64` of server.js. Both go
    through Node's text conversions (`Buffer.from(str)` encodes text as
    UTF-8, `buf.toString()` decodes it); those conversions belong to the
    runtime, so this model takes them as a parameter and states what it
    needs of them as a hypothesis about the particular text involved. */
module Codec {

  import opened Base64
  import opened Octets

  /** The runtime's conversion of text to bytes and back. */
  datatype TextCodec = TextCodec(toBytes: string -> Bytes, fromBytes: Bytes -> string)

  /** Converting `s` to bytes and back loses nothing. UTF-8 has this
      property for every well-formed string. */
  predicate LosslessOn(t: TextCodec, s: string) {
    t.fromBytes(t.toBytes(s)) == s
  }

  /** `toB64` (server.js:22): the Base64 text of the bytes of `s`. */
  function ToB64(t: TextCodec, s: string): (r: string)
    ensures Canonical(r)
    ensures Decode(r) == t.toBytes(s)
    ensures r == "" <==> t.toBytes(s) == []
  {
    var b := t.toBytes(s);
    EncodeIsCanonical(b);
    RoundTrip(b);
    Encode(b)
  }

  /** `fromB64` (server.js:28): the text of the bytes `s` stands for.
      When `s` is the Base64 form of some bytes, those are the bytes read. */
  function FromB64(t: TextCodec, s: string): (r: string)
    ensures forall b :: Encode(b) == s ==> r == t.fromBytes(b)
  {
    forall b | Encode(b) == s
      ensures Decode(s) == b
    {
      RoundTrip(b);
    }
    t.fromBytes(Decode(s))
  }

  /** `fromB64` undoes `toB64` on every text the conversion keeps intact. */
  lemma TextRoundTrip(t: TextCodec, s: string)
    requires LosslessOn(t, s)
    ensures FromB64(t, ToB64(t, s)) == s
  {
  }

  /** Two texts the conversion keeps intact have distinct Base64 forms
      unless they are equal. */
  lemma ToB64Injective(t: TextCodec, a: string, b: string)
    requires LosslessOn(t, a) && LosslessOn(t, b)
    ensures ToB64(t, a) == ToB64(t, b) <==> a == b
  {
    TextRoundTrip(t, a);
    TextRoundTrip(t, b);
  }

  /** One byte per character: the UTF-8 conversion as it acts on ASCII
      text, where each character is the byte of its code. */
  function Octet(c: char): bv8 {
    if c as int < 256 then c as bv8 else (c as int % 256) as bv8
  }

  /** The character whose code is the byte `x`. */
  function Latin1(x: bv8): char {
    x as int as char
  }

  /** An ASCII character survives the trip through its byte. */
  lemma Latin1Octet(c: char)
    requires c as int < 128
    ensures Latin1(Octet(c)) == c
  {
    CodeByte(c as int);
  }

  /** Every byte survives the trip through its character. */
  lemma OctetLatin1(x: bv8)
    ensures Octet(Latin1(x)) == x
  {
  }

  /** The bytes of a text, one per character. */
  function AsciiBytes(s: string): (b: Bytes)
    ensures |b| == |s|
    ensures forall i :: 0 <= i < |s| ==> b[i] == Octet(s[i])
  {
    seq(|s|, i requires 0 <= i < |s| => Octet(s[i]))
  }

  /** The text of bytes, one character per byte. */
  function AsciiText(b: Bytes): (s: string)
    ensures |s| == |b|
    ensures forall i :: 0 <= i < |b| ==> s[i] == Latin1(b[i])
  {
    seq(|b|, i requires 0 <= i < |b| => Latin1(b[i]))
  }

  /** Every character of `s` is in the ASCII range. */
  predicate IsAscii(s: string) {
    forall i :: 0 <= i < |s| ==> s[i] as int < 128
  }

  /** The conversion as it acts on ASCII text. */
  const Ascii := TextCodec(AsciiBytes, AsciiText)

  /** The text of joined bytes is the join of the texts. */
  lemma AsciiTextAppend(a: Bytes, b: Bytes)
    ensures AsciiText(a + b) == AsciiText(a) + AsciiText(b)
  {
  }

  /** Reading bytes as text and converting back gives the same bytes. */
  lemma AsciiBytesOfText(b: Bytes)
    ensures AsciiBytes(AsciiText(b)) == b
  {
    var r := AsciiBytes(AsciiText(b));
    forall i | 0 <= i < |b|
      ensures r[i] == b[i]
    {
      OctetLatin1(b[i]);
    }
  }

  /** The one-byte conversion keeps every ASCII text intact. */
  lemma AsciiLossless(s: string)
    requires IsAscii(s)
    ensures LosslessOn(Ascii, s)
  {
    var r := AsciiText(AsciiBytes(s));
    forall i | 0 <= i < |s|
      ensures r[i] == s[i]
    {
      Latin1Octet(s[i]);
    }
  }
}
