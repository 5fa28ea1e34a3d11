/** Base64 with the standard alphabet and `=` padding (section 4 of RFC 4648),
    at the byte level. `Encode` is what Node's `Buffer#toString('base64')`
    produces; `Decode` is the lenient reading `Buffer.from(s, 'base64')`
    applies to text whose characters are all below U+0100: characters outside
    the alphabet are skipped, the URL-safe digits `-` and `_` are accepted,
    and decoding stops at the first `=`. Decoding never fails, so it returns
    bytes rather than an `Option`. Node looks up only the low byte of each
    UTF-16 code unit; that reading of wider characters is not modelled. */
module Base64 {

  import opened Wrappers
  import opened Octets

  type Bytes = seq<bv8>

  /** A 6-bit value: the index of one Base64 digit. */
  type Sextet = x: bv8 | x < 64

  /** The 64 characters of the standard alphabet (Table 1 of RFC 4648). */
  predicate IsAlphabetChar(c: char) {
    'A' <= c <= 'Z' || 'a' <= c <= 'z' || '0' <= c <= '9' || c == '+' || c == '/'
  }

  predicate AllAlphabet(s: string) {
    forall i :: 0 <= i < |s| ==> IsAlphabetChar(s[i])
  }

  /** The digit for a sextet in the standard alphabet. */
  function CharOf(v: Sextet): (c: char)
    ensures IsAlphabetChar(c)
  {
    if v < 26 then ('A' as int + v as int) as char
    else if v < 52 then ('a' as int + (v as int - 26)) as char
    else if v < 62 then ('0' as int + (v as int - 52)) as char
    else if v == 62 then '+'
    else '/'
  }

  /** The sextet a character stands for when decoding, if any. Both the
      standard digits and the URL-safe `-` and `_` (section 5 of RFC 4648)
      are accepted. This is Node's table for characters below U+0100. */
  function ValueOf(c: char): (r: Option<Sextet>)
    ensures r.Some? <==> IsAlphabetChar(c) || c == '-' || c == '_'
  {
    if 'A' <= c <= 'Z' then Some((c as int - 'A' as int) as bv8)
    else if 'a' <= c <= 'z' then Some((c as int - 'a' as int + 26) as bv8)
    else if '0' <= c <= '9' then Some((c as int - '0' as int + 52) as bv8)
    else if c == '+' || c == '-' then Some(62)
    else if c == '/' || c == '_' then Some(63)
    else None
  }

  lemma ValueOfCharOf(v: Sextet)
    ensures ValueOf(CharOf(v)) == Some(v)
  {
    if v < 26 {
      UpperValue(v);
    } else if v < 52 {
      LowerValue(v);
    } else if v < 62 {
      DecimalValue(v);
    }
  }

  lemma UpperValue(v: Sextet)
    requires v < 26
    ensures ValueOf(CharOf(v)) == Some(v)
  {
    var c := CharOf(v);
    assert c as int - 'A' as int == v as int;
    ByteCode(v);
  }

  lemma LowerValue(v: Sextet)
    requires 26 <= v < 52
    ensures ValueOf(CharOf(v)) == Some(v)
  {
    var c := CharOf(v);
    assert c as int - 'a' as int + 26 == v as int;
    ByteCode(v);
  }

  lemma DecimalValue(v: Sextet)
    requires 52 <= v < 62
    ensures ValueOf(CharOf(v)) == Some(v)
  {
    var c := CharOf(v);
    assert c as int - '0' as int + 52 == v as int;
    ByteCode(v);
  }

  /** Every standard digit decodes to the sextet it encodes. */
  lemma CharOfValueOf(c: char)
    requires IsAlphabetChar(c)
    ensures ValueOf(c).Some? && CharOf(ValueOf(c).value) == c
  {
    if 'A' <= c <= 'Z' {
      UpperDigit(c);
    } else if 'a' <= c <= 'z' {
      LowerDigit(c);
    } else if '0' <= c <= '9' {
      DecimalDigit(c);
    }
  }

  lemma UpperDigit(c: char)
    requires 'A' <= c <= 'Z'
    ensures CharOf((c as int - 'A' as int) as bv8) == c
  {
    CodeByte(c as int - 'A' as int);
  }

  lemma LowerDigit(c: char)
    requires 'a' <= c <= 'z'
    ensures CharOf((c as int - 'a' as int + 26) as bv8) == c
  {
    CodeByte(c as int - 'a' as int + 26);
  }

  lemma DecimalDigit(c: char)
    requires '0' <= c <= '9'
    ensures CharOf((c as int - '0' as int + 52) as bv8) == c
  {
    CodeByte(c as int - '0' as int + 52);
  }

  /** The four sextets of a group of three bytes, most significant bits
      first. */
  function Quad(x: bv8, y: bv8, z: bv8): seq<Sextet> {
    [x >> 2, ((x & 3) << 4) | (y >> 4), ((y & 15) << 2) | (z >> 6), z & 63]
  }

  /** The three bytes of a group of four sextets. */
  function Triple(a: Sextet, b: Sextet, c: Sextet, d: Sextet): Bytes {
    [(a << 2) | (b >> 4), (b << 4) | (c >> 2), (c << 6) | d]
  }

  /** Splits bytes into sextets, three bytes to four sextets; a final group
      of one or two bytes is filled with zero bits and gives two or three
      sextets. */
  function Pack(b: Bytes): seq<Sextet>
    decreases |b|
  {
    if |b| == 0 then []
    else if |b| == 1 then [b[0] >> 2, (b[0] & 3) << 4]
    else if |b| == 2 then [b[0] >> 2, ((b[0] & 3) << 4) | (b[1] >> 4), (b[1] & 15) << 2]
    else Quad(b[0], b[1], b[2]) + Pack(b[3..])
  }

  /** Joins sextets back into bytes, four sextets to three bytes; a final
      group of two or three sextets gives one or two bytes, and a single
      leftover sextet gives none. */
  function Unpack(v: seq<Sextet>): Bytes
    decreases |v|
  {
    if |v| <= 1 then []
    else if |v| == 2 then [(v[0] << 2) | (v[1] >> 4)]
    else if |v| == 3 then [(v[0] << 2) | (v[1] >> 4), (v[1] << 4) | (v[2] >> 2)]
    else Triple(v[0], v[1], v[2], v[3]) + Unpack(v[4..])
  }

  lemma {:induction false} PackLength(b: Bytes)
    ensures |Pack(b)| == 4 * (|b| / 3) + (if |b| % 3 == 0 then 0 else |b| % 3 + 1)
    decreases |b|
  {
    if |b| >= 3 {
      PackLength(b[3..]);
    }
  }

  lemma {:induction false} UnpackLength(v: seq<Sextet>)
    ensures |Unpack(v)| == 3 * (|v| / 4) + (if |v| % 4 <= 1 then 0 else |v| % 4 - 1)
    decreases |v|
  {
    if |v| >= 4 {
      UnpackLength(v[4..]);
    }
  }

  /** Bit level: the bytes of a group, full or short, come back from its
      sextets. */
  lemma SplitJoin(x: bv8, y: bv8, z: bv8)
    ensures var a, b, c, d := x >> 2, ((x & 3) << 4) | (y >> 4), ((y & 15) << 2) | (z >> 6), z & 63;
      (a << 2) | (b >> 4) == x && (b << 4) | (c >> 2) == y && (c << 6) | d == z
    ensures var a, b, c := x >> 2, ((x & 3) << 4) | (y >> 4), (y & 15) << 2;
      (a << 2) | (b >> 4) == x && (b << 4) | (c >> 2) == y
    ensures var a, b := x >> 2, (x & 3) << 4;
      (a << 2) | (b >> 4) == x
  {
  }

  /** Bit level: the sextets of a group come back from its bytes. */
  lemma JoinSplit(a: bv8, b: bv8, c: bv8, d: bv8)
    requires a < 64 && b < 64 && c < 64 && d < 64
    ensures var x, y, z := (a << 2) | (b >> 4), (b << 4) | (c >> 2), (c << 6) | d;
      x >> 2 == a && ((x & 3) << 4) | (y >> 4) == b && ((y & 15) << 2) | (z >> 6) == c && z & 63 == d
  {
  }

  /** The digits of a sequence of sextets. */
  function Chars(v: seq<Sextet>): (s: string)
    ensures |s| == |v|
    ensures forall i :: 0 <= i < |v| ==> s[i] == CharOf(v[i])
  {
    if |v| == 0 then [] else [CharOf(v[0])] + Chars(v[1..])
  }

  /** Number of `=` characters that pad the encoding of `n` bytes. */
  function PadLength(n: nat): (k: nat)
    ensures k <= 2
    ensures (n + k) % 3 == 0
  {
    (3 - n % 3) % 3
  }

  function Padding(n: nat): (p: string)
    ensures |p| == PadLength(n)
    ensures forall i :: 0 <= i < |p| ==> p[i] == '='
  {
    if n % 3 == 1 then "==" else if n % 3 == 2 then "=" else ""
  }

  /** `Buffer.from(bytes).toString('base64')`. */
  function Encode(b: Bytes): (s: string)
    ensures |s| == 4 * ((|b| + 2) / 3)
    ensures forall i :: 0 <= i < |s| ==>
      if i < |s| - PadLength(|b|) then IsAlphabetChar(s[i]) else s[i] == '='
  {
    PackLength(b);
    EncodedLength(|b|);
    Chars(Pack(b)) + Padding(|b|)
  }

  /** The digits of `n` bytes and their padding fill whole groups of four. */
  lemma EncodedLength(n: nat)
    ensures 4 * (n / 3) + (if n % 3 == 0 then 0 else n % 3 + 1) + PadLength(n) == 4 * ((n + 2) / 3)
  {
    var q, r := n / 3, n % 3;
    assert n == 3 * q + r;
    if r == 0 {
      assert (n + 2) / 3 == q;
    } else {
      assert (n + 2) / 3 == q + 1;
    }
  }

  /** The sextets a lenient decoder reads from `s`: every alphabet
      character up to the first `=`, skipping everything else. */
  function Digits(s: string): (v: seq<Sextet>)
    ensures |v| <= |s|
  {
    if |s| == 0 || s[0] == '=' then []
    else match ValueOf(s[0])
      case None => Digits(s[1..])
      case Some(x) => [x] + Digits(s[1..])
  }

  /** `Buffer.from(s, 'base64')`. */
  function Decode(s: string): (b: Bytes)
    ensures 4 * |b| <= 3 * |s|
  {
    UnpackLength(Digits(s));
    Unpack(Digits(s))
  }

  /** Joining the sextets of any bytes gives those bytes back. */
  lemma {:induction false} UnpackPack(b: Bytes)
    ensures Unpack(Pack(b)) == b
    decreases |b|
  {
    if 0 < |b| < 3 {
      UnpackPackShort(b);
    } else if |b| >= 3 {
      var g, rest := b[..3], b[3..];
      assert b == g + rest;
      UnpackPack(rest);
      PackFirstGroup(g, rest);
      UnpackFirstGroup(Quad(g[0], g[1], g[2]), Pack(rest));
      GroupRoundTrip(g[0], g[1], g[2]);
    }
  }

  lemma UnpackPackShort(b: Bytes)
    requires 0 < |b| < 3
    ensures Unpack(Pack(b)) == b
  {
    SplitJoin(b[0], if |b| == 2 then b[1] else 0, 0);
  }

  lemma UnpackFirstGroup(q: seq<Sextet>, rest: seq<Sextet>)
    requires |q| == 4
    ensures Unpack(q + rest) == Triple(q[0], q[1], q[2], q[3]) + Unpack(rest)
  {
    assert (q + rest)[4..] == rest;
  }

  lemma GroupRoundTrip(x: bv8, y: bv8, z: bv8)
    ensures var q := Quad(x, y, z); Triple(q[0], q[1], q[2], q[3]) == [x, y, z]
  {
    SplitJoin(x, y, z);
  }

  /** The lenient reader recovers the sextets behind a run of standard
      digits, whatever padding follows it. */
  lemma {:induction false} DigitsOfChars(v: seq<Sextet>, p: string)
    requires p == [] || p[0] == '='
    ensures Digits(Chars(v) + p) == v
  {
    if |v| == 0 {
      assert Chars(v) + p == p;
    } else {
      var c, w := CharOf(v[0]), Chars(v[1..]) + p;
      assert Chars(v) + p == [c] + w;
      ValueOfCharOf(v[0]);
      DigitsCons(c, w);
      DigitsOfChars(v[1..], p);
    }
  }

  lemma DigitsCons(c: char, w: string)
    requires IsAlphabetChar(c)
    ensures Digits([c] + w) == [ValueOf(c).value] + Digits(w)
  {
    assert ([c] + w)[1..] == w;
  }

  /** Decoding the encoding of any bytes returns the same bytes. */
  lemma RoundTrip(b: Bytes)
    ensures Decode(Encode(b)) == b
  {
    DigitsOfChars(Pack(b), Padding(|b|));
    UnpackPack(b);
  }

  /** Distinct byte sequences never share an encoding. */
  lemma EncodeInjective(a: Bytes, b: Bytes)
    ensures Encode(a) == Encode(b) ==> a == b
  {
    RoundTrip(a);
    RoundTrip(b);
  }

  /** Number of trailing `=` characters, counting at most two. */
  function PadCount(s: string): (k: nat)
    ensures k <= 2 && k <= |s|
    ensures forall i :: |s| - k <= i < |s| ==> s[i] == '='
    ensures k < 2 && k < |s| ==> s[|s| - k - 1] != '='
  {
    if |s| >= 2 && s[|s| - 1] == '=' && s[|s| - 2] == '=' then 2
    else if |s| >= 1 && s[|s| - 1] == '=' then 1
    else 0
  }

  /** A final partial group has its unused low bits clear, and there is
      never a single sextet left over. */
  predicate ZeroTail(v: seq<Sextet>) {
    && |v| % 4 != 1
    && (|v| % 4 == 2 ==> v[|v| - 1] & 15 == 0)
    && (|v| % 4 == 3 ==> v[|v| - 1] & 3 == 0)
  }

  /** `s` has the form the encoder produces: whole groups of four, standard
      digits followed by at most two `=`, and clear unused bits. */
  predicate Canonical(s: string) {
    var body := s[..|s| - PadCount(s)];
    |s| % 4 == 0 && AllAlphabet(body) && ZeroTail(Digits(body))
  }

  lemma {:induction false} PackZeroTail(b: Bytes)
    ensures ZeroTail(Pack(b))
    decreases |b|
  {
    if |b| < 3 {
      PackZeroTailShort(b);
    } else {
      var r := Pack(b[3..]);
      PackZeroTail(b[3..]);
      PackFirstGroup(b[..3], b[3..]);
      assert b == b[..3] + b[3..];
      ZeroTailGroup(Quad(b[0], b[1], b[2]), r);
    }
  }

  /** A full group in front of sextets keeps their tail. */
  lemma ZeroTailGroup(q: seq<Sextet>, rest: seq<Sextet>)
    requires |q| == 4
    ensures ZeroTail(q + rest) <==> ZeroTail(rest)
  {
    var v := q + rest;
    assert |v| % 4 == |rest| % 4 by {
      assert |v| == |rest| + 4;
    }
    if |rest| > 0 {
      assert v[|v| - 1] == rest[|rest| - 1];
    }
  }

  lemma PackZeroTailShort(b: Bytes)
    requires |b| < 3
    ensures ZeroTail(Pack(b))
  {
    if |b| == 1 {
      LowBits(b[0], 0);
    } else if |b| == 2 {
      LowBits(b[0], b[1]);
    }
  }

  /** The last sextet of a short group has its unused bits clear. */
  lemma LowBits(x: bv8, y: bv8)
    ensures ((x & 3) << 4) & 15 == 0
    ensures ((y & 15) << 2) & 3 == 0
  {
  }

  /** Splitting the bytes joined from sextets with a clear tail gives those
      sextets back. */
  lemma {:induction false} PackUnpack(v: seq<Sextet>)
    requires ZeroTail(v)
    ensures Pack(Unpack(v)) == v
    decreases |v|
  {
    if |v| < 4 {
      PackUnpackShort(v);
    } else {
      var q, rest := v[..4], v[4..];
      assert v == q + rest;
      ZeroTailGroup(q, rest);
      PackUnpack(rest);
      UnpackFirstGroup(q, rest);
      var t := Triple(q[0], q[1], q[2], q[3]);
      PackFirstGroup(t, Unpack(rest));
      GroupRoundTripBack(q[0], q[1], q[2], q[3]);
    }
  }

  lemma GroupRoundTripBack(a: Sextet, b: Sextet, c: Sextet, d: Sextet)
    ensures var t := Triple(a, b, c, d); Quad(t[0], t[1], t[2]) == [a, b, c, d]
  {
    JoinSplit(a, b, c, d);
  }

  lemma PackUnpackShort(v: seq<Sextet>)
    requires |v| < 4 && ZeroTail(v)
    ensures Pack(Unpack(v)) == v
  {
    if |v| == 2 {
      PackUnpackPair(v[0], v[1]);
      assert v == [v[0], v[1]];
    } else if |v| == 3 {
      PackUnpackTrio(v[0], v[1], v[2]);
      assert v == [v[0], v[1], v[2]];
    }
  }

  lemma PackUnpackPair(a: Sextet, b: Sextet)
    requires b & 15 == 0
    ensures Pack(Unpack([a, b])) == [a, b]
  {
    var x := (a << 2) | (b >> 4);
    UnpackPairDef(a, b);
    PackOneDef(x);
    PairBits(a, b);
  }

  lemma PackUnpackTrio(a: Sextet, b: Sextet, c: Sextet)
    requires c & 3 == 0
    ensures Pack(Unpack([a, b, c])) == [a, b, c]
  {
    var x := (a << 2) | (b >> 4);
    var y := (b << 4) | (c >> 2);
    UnpackTrioDef(a, b, c);
    PackTwoDef(x, y);
    TrioBits(a, b, c);
  }

  lemma UnpackPairDef(a: Sextet, b: Sextet)
    ensures Unpack([a, b]) == [(a << 2) | (b >> 4)]
  {
  }

  lemma UnpackTrioDef(a: Sextet, b: Sextet, c: Sextet)
    ensures Unpack([a, b, c]) == [(a << 2) | (b >> 4), (b << 4) | (c >> 2)]
  {
  }

  lemma PackOneDef(x: bv8)
    ensures Pack([x]) == [x >> 2, (x & 3) << 4]
  {
  }

  lemma PackTwoDef(x: bv8, y: bv8)
    ensures Pack([x, y]) == [x >> 2, ((x & 3) << 4) | (y >> 4), (y & 15) << 2]
  {
  }

  lemma PairBits(a: bv8, b: bv8)
    requires a < 64 && b < 64 && b & 15 == 0
    ensures var x := (a << 2) | (b >> 4);
      x >> 2 == a && (x & 3) << 4 == b
  {
  }

  lemma TrioBits(a: bv8, b: bv8, c: bv8)
    requires a < 64 && b < 64 && c < 64 && c & 3 == 0
    ensures var x, y := (a << 2) | (b >> 4), (b << 4) | (c >> 2);
      x >> 2 == a && ((x & 3) << 4) | (y >> 4) == b && (y & 15) << 2 == c
  {
  }

  lemma PackFirstGroup(g: Bytes, rest: Bytes)
    requires |g| == 3
    ensures Pack(g + rest) == Quad(g[0], g[1], g[2]) + Pack(rest)
  {
    assert (g + rest)[3..] == rest;
  }

  /** A run of standard digits reads back as its own sextets, and the
      reader stops at the padding after it. */
  lemma DigitsOfAlphabet(w: string, p: string)
    requires AllAlphabet(w)
    requires p == [] || p[0] == '='
    ensures Digits(w + p) == Digits(w)
    ensures |Digits(w)| == |w|
    ensures Chars(Digits(w)) == w
  {
    DigitsStopAtPad(w, p);
    CharsOfDigits(w);
  }

  lemma {:induction false} DigitsStopAtPad(w: string, p: string)
    requires AllAlphabet(w)
    requires p == [] || p[0] == '='
    ensures Digits(w + p) == Digits(w)
  {
    if |w| == 0 {
      assert w + p == p;
    } else {
      assert w + p == [w[0]] + (w[1..] + p);
      assert w == [w[0]] + w[1..];
      DigitsCons(w[0], w[1..] + p);
      DigitsCons(w[0], w[1..]);
      DigitsStopAtPad(w[1..], p);
    }
  }

  lemma {:induction false} CharsOfDigits(w: string)
    requires AllAlphabet(w)
    ensures Chars(Digits(w)) == w
  {
    if |w| > 0 {
      assert w == [w[0]] + w[1..];
      DigitsCons(w[0], w[1..]);
      CharOfValueOf(w[0]);
      CharsOfDigits(w[1..]);
      var v := Digits(w);
      assert v[1..] == Digits(w[1..]);
    }
  }

  /** The padding counted back from the end of digits plus padding is the
      padding that was appended. */
  lemma PadCountOfPadded(body: string, p: string)
    requires AllAlphabet(body)
    requires |p| <= 2 && forall i :: 0 <= i < |p| ==> p[i] == '='
    ensures PadCount(body + p) == |p|
    ensures (body + p)[..|body + p| - |p|] == body
  {
    var s := body + p;
    if |body| > 0 {
      assert s[|body| - 1] == body[|body| - 1];
      assert IsAlphabetChar(s[|body| - 1]);
    }
    if |p| > 0 {
      assert s[|s| - 1] == p[|p| - 1];
    }
    if |p| == 2 {
      assert s[|s| - 2] == p[0];
    }
  }

  lemma EncodeIsCanonical(b: Bytes)
    ensures Canonical(Encode(b))
  {
    var s := Encode(b);
    var body := Chars(Pack(b));
    assert s == body + Padding(|b|);
    PadCountOfPadded(body, Padding(|b|));
    assert s[..|s| - PadCount(s)] == body;
    DigitsOfChars(Pack(b), "");
    assert body + "" == body;
    assert Digits(body) == Pack(b);
    PackZeroTail(b);
    MultipleOfFour((|b| + 2) / 3);
  }

  lemma MultipleOfFour(q: nat)
    ensures (4 * q) % 4 == 0
  {
  }

  /** Re-encoding the decoding of canonical text gives the same text. */
  lemma CanonicalReencodes(s: string)
    requires Canonical(s)
    ensures Encode(Decode(s)) == s
  {
    var k := PadCount(s);
    var body := s[..|s| - k];
    var tail := s[|s| - k..];
    assert s == body + tail;
    DigitsOfAlphabet(body, tail);
    var v := Digits(body);
    PackUnpack(v);
    UnpackLength(v);
    var b := Unpack(v);
    assert Decode(s) == b;
    PaddingIsTail(s, |b|);
    assert Encode(b) == body + tail;
  }

  /** The padding the encoder would append for the decoded byte count is
      the padding canonical text ends with. */
  lemma PaddingIsTail(s: string, n: nat)
    requires |s| % 4 == 0
    requires var w := |s| - PadCount(s);
      n == 3 * (w / 4) + (if w % 4 <= 1 then 0 else w % 4 - 1)
    ensures Padding(n) == s[|s| - PadCount(s)..]
  {
    var k := PadCount(s);
    var tail := s[|s| - k..];
    PaddingOfDecoded(|s|, k);
    assert forall i :: 0 <= i < k ==> tail[i] == s[|s| - k + i] == '=';
  }

  /** Text of `n` characters, `k` of them padding, decodes to a byte count
      whose encoding needs exactly `k` padding characters. */
  lemma PaddingOfDecoded(n: nat, k: nat)
    requires n % 4 == 0 && k <= 2 && k <= n
    ensures var w := n - k;
      PadLength(3 * (w / 4) + (if w % 4 <= 1 then 0 else w % 4 - 1)) == k
  {
    var m := n / 4;
    assert n == 4 * m;
    var w := n - k;
    if k == 0 {
      assert w / 4 == m && w % 4 == 0;
    } else if k == 1 {
      assert w / 4 == m - 1 && w % 4 == 3;
      assert (3 * (m - 1) + 2) % 3 == 2;
    } else {
      assert w / 4 == m - 1 && w % 4 == 2;
      assert (3 * (m - 1) + 1) % 3 == 1;
    }
  }

  /** The encoder's image is exactly the canonical texts, and on that image
      decoding and encoding are mutually inverse. */
  lemma CanonicalIffEncoding(s: string)
    ensures Canonical(s) <==> Encode(Decode(s)) == s
    ensures Canonical(s) <==> exists b :: Encode(b) == s
  {
    if Canonical(s) {
      CanonicalReencodes(s);
    } else {
      EncodeIsCanonical(Decode(s));
      forall b | Encode(b) == s
        ensures false
      {
        EncodeIsCanonical(b);
      }
    }
  }

  /** The encoding of three or more bytes is the four digits of the first
      three followed by the encoding of the rest. */
  lemma EncodeGroups(b: Bytes)
    requires |b| >= 3
    ensures Encode(b) == Chars(Pack(b[..3])) + Encode(b[3..])
  {
    var g, rest := b[..3], b[3..];
    assert Pack(b) == Pack(g) + Pack(rest) by {
      assert b == g + rest;
      PackFirstGroup(g, rest);
      PackFirstGroup(g, []);
      assert g + [] == g;
    }
    assert Chars(Pack(b)) == Chars(Pack(g)) + Chars(Pack(rest)) by {
      CharsAppend(Pack(g), Pack(rest));
    }
    assert Padding(|b|) == Padding(|rest|);
  }

  lemma CharsAppend(x: seq<Sextet>, y: seq<Sextet>)
    ensures Chars(x + y) == Chars(x) + Chars(y)
  {
  }

  lemma EncodeFirstGroup(g: Bytes, rest: Bytes)
    requires |g| == 3
    ensures Encode(g + rest) == Chars(Quad(g[0], g[1], g[2])) + Encode(rest)
  {
    EncodeGroups(g + rest);
    assert (g + rest)[..3] == g;
    assert (g + rest)[3..] == rest;
    PackFirstGroup(g, []);
    assert g + [] == g;
  }
}
