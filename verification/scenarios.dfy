/** Concrete instances of the flow: the example link of the header comment
    of server.js, and the resolution of an activated `web+foo://test`.

    Each example is taken apart in groups of three bytes, from the back:
    `XBytesk` is the bytes from group `k` on, `XTextk` the ASCII characters
    they are and `XDigitsk` the Base64 digits they encode to. A lemma per
    group puts that group in front of the next one's result. */
module Scenarios {

  import opened Base64
  import opened Codec
  import opened Resolution

  /** One group: three bytes, the ASCII characters they are and the four
      digits they encode, put in front of bytes whose text and digits are
      known. */
  lemma Step(x: bv8, y: bv8, z: bv8, rest: Bytes, t: string, restText: string,
             digits: string, restDigits: string)
    requires AsciiText([x, y, z]) == t && AsciiText(rest) == restText
    requires Chars(Quad(x, y, z)) == digits && Encode(rest) == restDigits
    ensures AsciiText([x, y, z] + rest) == t + restText
    ensures Encode([x, y, z] + rest) == digits + restDigits
  {
    AsciiTextAppend([x, y, z], rest);
    EncodeFirstGroup([x, y, z], rest);
  }

  /** The payload `{"publishedBlockId":"my-uuid-goes-here"}` of the example
      link, and the hostname of that link. */
  const PayloadBytes0: Bytes := [123, 34, 112] + PayloadBytes1
  const PayloadText0: string := "{\"p" + PayloadText1
  const PayloadDigits0: string := "eyJw" + PayloadDigits1
  const PayloadBytes1: Bytes := [117, 98, 108] + PayloadBytes2
  const PayloadText1: string := "ubl" + PayloadText2
  const PayloadDigits1: string := "dWJs" + PayloadDigits2
  const PayloadBytes2: Bytes := [105, 115, 104] + PayloadBytes3
  const PayloadText2: string := "ish" + PayloadText3
  const PayloadDigits2: string := "aXNo" + PayloadDigits3
  const PayloadBytes3: Bytes := [101, 100, 66] + PayloadBytes4
  const PayloadText3: string := "edB" + PayloadText4
  const PayloadDigits3: string := "ZWRC" + PayloadDigits4
  const PayloadBytes4: Bytes := [108, 111, 99] + PayloadBytes5
  const PayloadText4: string := "loc" + PayloadText5
  const PayloadDigits4: string := "bG9j" + PayloadDigits5
  const PayloadBytes5: Bytes := [107, 73, 100] + PayloadBytes6
  const PayloadText5: string := "kId" + PayloadText6
  const PayloadDigits5: string := "a0lk" + PayloadDigits6
  const PayloadBytes6: Bytes := [34, 58, 34] + PayloadBytes7
  const PayloadText6: string := "\":\"" + PayloadText7
  const PayloadDigits6: string := "Ijoi" + PayloadDigits7
  const PayloadBytes7: Bytes := [109, 121, 45] + PayloadBytes8
  const PayloadText7: string := "my-" + PayloadText8
  const PayloadDigits7: string := "bXkt" + PayloadDigits8
  const PayloadBytes8: Bytes := [117, 117, 105] + PayloadBytes9
  const PayloadText8: string := "uui" + PayloadText9
  const PayloadDigits8: string := "dXVp" + PayloadDigits9
  const PayloadBytes9: Bytes := [100, 45, 103] + PayloadBytes10
  const PayloadText9: string := "d-g" + PayloadText10
  const PayloadDigits9: string := "ZC1n" + PayloadDigits10
  const PayloadBytes10: Bytes := [111, 101, 115] + PayloadBytes11
  const PayloadText10: string := "oes" + PayloadText11
  const PayloadDigits10: string := "b2Vz" + PayloadDigits11
  const PayloadBytes11: Bytes := [45, 104, 101] + PayloadBytes12
  const PayloadText11: string := "-he" + PayloadText12
  const PayloadDigits11: string := "LWhl" + PayloadDigits12
  const PayloadBytes12: Bytes := [114, 101, 34] + PayloadBytes13
  const PayloadText12: string := "re\"" + PayloadText13
  const PayloadDigits12: string := "cmUi" + PayloadDigits13
  const PayloadBytes13: Bytes := [125]
  const PayloadText13: string := "}"
  const PayloadDigits13: string := "fQ=="

  const SamplePayload: string := PayloadText0
  const SampleHost: string := PayloadDigits0

  lemma PayloadFrom13()
    ensures AsciiText(PayloadBytes13) == PayloadText13 && Encode(PayloadBytes13) == PayloadDigits13
  {
  }

  lemma PayloadFrom12()
    ensures AsciiText(PayloadBytes12) == PayloadText12 && Encode(PayloadBytes12) == PayloadDigits12
  {
    PayloadFrom13();
    Step(114, 101, 34, PayloadBytes13, "re\"", PayloadText13, "cmUi", PayloadDigits13);
  }

  lemma PayloadFrom11()
    ensures AsciiText(PayloadBytes11) == PayloadText11 && Encode(PayloadBytes11) == PayloadDigits11
  {
    PayloadFrom12();
    Step(45, 104, 101, PayloadBytes12, "-he", PayloadText12, "LWhl", PayloadDigits12);
  }

  lemma PayloadFrom10()
    ensures AsciiText(PayloadBytes10) == PayloadText10 && Encode(PayloadBytes10) == PayloadDigits10
  {
    PayloadFrom11();
    Step(111, 101, 115, PayloadBytes11, "oes", PayloadText11, "b2Vz", PayloadDigits11);
  }

  lemma PayloadFrom9()
    ensures AsciiText(PayloadBytes9) == PayloadText9 && Encode(PayloadBytes9) == PayloadDigits9
  {
    PayloadFrom10();
    Step(100, 45, 103, PayloadBytes10, "d-g", PayloadText10, "ZC1n", PayloadDigits10);
  }

  lemma PayloadFrom8()
    ensures AsciiText(PayloadBytes8) == PayloadText8 && Encode(PayloadBytes8) == PayloadDigits8
  {
    PayloadFrom9();
    Step(117, 117, 105, PayloadBytes9, "uui", PayloadText9, "dXVp", PayloadDigits9);
  }

  lemma PayloadFrom7()
    ensures AsciiText(PayloadBytes7) == PayloadText7 && Encode(PayloadBytes7) == PayloadDigits7
  {
    PayloadFrom8();
    Step(109, 121, 45, PayloadBytes8, "my-", PayloadText8, "bXkt", PayloadDigits8);
  }

  lemma PayloadFrom6()
    ensures AsciiText(PayloadBytes6) == PayloadText6 && Encode(PayloadBytes6) == PayloadDigits6
  {
    PayloadFrom7();
    Step(34, 58, 34, PayloadBytes7, "\":\"", PayloadText7, "Ijoi", PayloadDigits7);
  }

  lemma PayloadFrom5()
    ensures AsciiText(PayloadBytes5) == PayloadText5 && Encode(PayloadBytes5) == PayloadDigits5
  {
    PayloadFrom6();
    Step(107, 73, 100, PayloadBytes6, "kId", PayloadText6, "a0lk", PayloadDigits6);
  }

  lemma PayloadFrom4()
    ensures AsciiText(PayloadBytes4) == PayloadText4 && Encode(PayloadBytes4) == PayloadDigits4
  {
    PayloadFrom5();
    Step(108, 111, 99, PayloadBytes5, "loc", PayloadText5, "bG9j", PayloadDigits5);
  }

  lemma PayloadFrom3()
    ensures AsciiText(PayloadBytes3) == PayloadText3 && Encode(PayloadBytes3) == PayloadDigits3
  {
    PayloadFrom4();
    Step(101, 100, 66, PayloadBytes4, "edB", PayloadText4, "ZWRC", PayloadDigits4);
  }

  lemma PayloadFrom2()
    ensures AsciiText(PayloadBytes2) == PayloadText2 && Encode(PayloadBytes2) == PayloadDigits2
  {
    PayloadFrom3();
    Step(105, 115, 104, PayloadBytes3, "ish", PayloadText3, "aXNo", PayloadDigits3);
  }

  lemma PayloadFrom1()
    ensures AsciiText(PayloadBytes1) == PayloadText1 && Encode(PayloadBytes1) == PayloadDigits1
  {
    PayloadFrom2();
    Step(117, 98, 108, PayloadBytes2, "ubl", PayloadText2, "dWJs", PayloadDigits2);
  }

  lemma PayloadFrom0()
    ensures AsciiText(PayloadBytes0) == PayloadText0 && Encode(PayloadBytes0) == PayloadDigits0
  {
    PayloadFrom1();
    Step(123, 34, 112, PayloadBytes1, "{\"p", PayloadText1, "eyJw", PayloadDigits1);
  }

  /** The example hostname is the Base64 form of the ASCII bytes of the
      example payload, so it decodes to exactly those bytes and reads back
      as the payload. */
  /** The second half of the payload constant, spelled out. */
  lemma PayloadTailLiteral()
    ensures PayloadText7 == "my-uuid-goes-here\"}"
  {
  }

  /** The payload constant spelled out as in the header comment. */
  lemma PayloadLiteral()
    ensures SamplePayload == "{\"publishedBlockId\":\"my-uuid-goes-here\"}"
  {
    PayloadTailLiteral();
    assert PayloadText0 == "{\"publishedBlockId\":\"" + PayloadText7;
  }

  /** The second half of the hostname constant, spelled out. */
  lemma HostTailLiteral()
    ensures PayloadDigits7 == "bXktdXVpZC1nb2VzLWhlcmUifQ=="
  {
  }

  /** The hostname constant spelled out as in the example link. */
  lemma HostLiteral()
    ensures SampleHost == "eyJwdWJsaXNoZWRCbG9ja0lkIjoi" + "bXktdXVpZC1nb2VzLWhlcmUifQ=="
  {
    HostTailLiteral();
    assert PayloadDigits0 == "eyJwdWJsaXNoZWRCbG9ja0lkIjoi" + PayloadDigits7;
  }

  lemma SampleHostDecodes()
    ensures SamplePayload == "{\"publishedBlockId\":\"my-uuid-goes-here\"}"
    ensures SampleHost == "eyJwdWJsaXNoZWRCbG9ja0lkIjoi" + "bXktdXVpZC1nb2VzLWhlcmUifQ=="
    ensures Decode(SampleHost) == AsciiBytes(SamplePayload)
    ensures FromB64(Ascii, SampleHost) == SamplePayload
  {
    PayloadLiteral();
    HostLiteral();
    PayloadFrom0();
    RoundTrip(PayloadBytes0);
    AsciiBytesOfText(PayloadBytes0);
  }

  /** The activated URL `web+foo://test`. */
  const UrlBytes0: Bytes := [119, 101, 98] + UrlBytes1
  const UrlText0: string := "web" + UrlText1
  const UrlDigits0: string := "d2Vi" + UrlDigits1
  const UrlBytes1: Bytes := [43, 102, 111] + UrlBytes2
  const UrlText1: string := "+fo" + UrlText2
  const UrlDigits1: string := "K2Zv" + UrlDigits2
  const UrlBytes2: Bytes := [111, 58, 47] + UrlBytes3
  const UrlText2: string := "o:/" + UrlText3
  const UrlDigits2: string := "bzov" + UrlDigits3
  const UrlBytes3: Bytes := [47, 116, 101] + UrlBytes4
  const UrlText3: string := "/te" + UrlText4
  const UrlDigits3: string := "L3Rl" + UrlDigits4
  const UrlBytes4: Bytes := [115, 116]
  const UrlText4: string := "st"
  const UrlDigits4: string := "c3Q="

  lemma UrlFrom4()
    ensures AsciiText(UrlBytes4) == UrlText4 && Encode(UrlBytes4) == UrlDigits4
  {
  }

  lemma UrlFrom3()
    ensures AsciiText(UrlBytes3) == UrlText3 && Encode(UrlBytes3) == UrlDigits3
  {
    UrlFrom4();
    Step(47, 116, 101, UrlBytes4, "/te", UrlText4, "L3Rl", UrlDigits4);
  }

  lemma UrlFrom2()
    ensures AsciiText(UrlBytes2) == UrlText2 && Encode(UrlBytes2) == UrlDigits2
  {
    UrlFrom3();
    Step(111, 58, 47, UrlBytes3, "o:/", UrlText3, "bzov", UrlDigits3);
  }

  lemma UrlFrom1()
    ensures AsciiText(UrlBytes1) == UrlText1 && Encode(UrlBytes1) == UrlDigits1
  {
    UrlFrom2();
    Step(43, 102, 111, UrlBytes2, "+fo", UrlText2, "K2Zv", UrlDigits2);
  }

  lemma UrlFrom0()
    ensures AsciiText(UrlBytes0) == UrlText0 && Encode(UrlBytes0) == UrlDigits0
  {
    UrlFrom1();
    Step(119, 101, 98, UrlBytes1, "web", UrlText1, "d2Vi", UrlDigits1);
  }

  /** The resolve callback on `web+foo://test`: the endpoint followed by
      the Base64 form of the whole URL. */
  /** The URL constants spelled out. */
  lemma UrlLiterals()
    ensures UrlText0 == "web+foo://test"
    ensures UrlDigits0 == "d2ViK2ZvbzovL3Rlc3Q="
  {
  }

  lemma ResolveSample()
    ensures UrlText0 == "web+foo://test"
    ensures UrlDigits0 == "d2ViK2ZvbzovL3Rlc3Q="
    ensures Resolve(Ascii, UrlText0) == Endpoint + UrlDigits0
  {
    UrlLiterals();
    UrlFrom0();
    AsciiBytesOfText(UrlBytes0);
  }
}
