/** The concrete cases exercised by tests/test_utf8.c, stated against the
    model. Each lemma pins down the outcome the test expects. */
module Vectors {
  import opened Unicode
  import opened Utf8
  import opened Wide

  /** An empty range is an error: tests/test_utf8.c:25. */
  lemma EmptyRange(s: seq<Byte>, p: nat)
    requires p <= |s|
    ensures NextCode(s, p, p).None?
  {
  }

  /** One scalar of each length, tests/test_utf8.c:23-45. */
  lemma DecodeOneOfEachLength()
    ensures NextCode([0x41], 0, 1) == Some(Step(1, 0x41))
    ensures NextCode([0xD0, 0xBF], 0, 2) == Some(Step(2, 0x043F))
    ensures NextCode([0xE6, 0x97, 0xA5], 0, 3) == Some(Step(3, 0x65E5))
    ensures NextCode([0xF0, 0x90, 0x8D, 0x86], 0, 4) == Some(Step(4, 0x10346))
  {
    var b2: seq<Byte> := [0xD0, 0xBF];
    assert b2[0] == 0xD0 && b2[1] == 0xBF;
    var b3: seq<Byte> := [0xE6, 0x97, 0xA5];
    assert b3[0] == 0xE6 && b3[1] == 0x97 && b3[2] == 0xA5;
    var b4: seq<Byte> := [0xF0, 0x90, 0x8D, 0x86];
    assert b4[0] == 0xF0 && b4[1] == 0x90 && b4[2] == 0x8D && b4[3] == 0x86;
  }

  /** A lone continuation, an overlong form, an encoded surrogate and a
      truncated sequence are all refused, tests/test_utf8.c:47-65. */
  lemma DecodeRefusals()
    ensures NextCode([0x80], 0, 1).None?
    ensures NextCode([0xC0, 0x81], 0, 2).None?
    ensures NextCode([0xED, 0xA0, 0x80], 0, 3).None?
    ensures NextCode([0xE6, 0x97], 0, 2).None?
  {
    var b: seq<Byte> := [0xC0, 0x81];
    assert b[0] == 0xC0;
    var c: seq<Byte> := [0xED, 0xA0, 0x80];
    assert c[0] == 0xED && c[1] == 0xA0;
    var d: seq<Byte> := [0xE6, 0x97];
    assert d[0] == 0xE6;
  }

  /** Two ASCII scalars in a row, then the empty range at the end,
      tests/test_utf8.c:67-74. */
  lemma DecodeTwice()
    ensures NextCode([0x48, 0x69], 0, 2) == Some(Step(1, 0x48))
    ensures NextCode([0x48, 0x69], 1, 2) == Some(Step(2, 0x69))
    ensures NextCode([0x48, 0x69], 2, 2).None?
  {
    var s: seq<Byte> := [0x48, 0x69];
    assert s[0] == 0x48 && s[1] == 0x69;
  }

  /** An ASCII byte is a UTF8-char of its own. */
  lemma AsciiFirst(b: seq<Byte>)
    requires |b| > 0 && b[0] <= 0x7F
    ensures WellFormed(b) <==> WellFormed(b[1..])
  {
    assert b[..1] == [b[0]];
  }

  /** "hel" is well formed and decoding fails at the 0x80 that follows, so
      the validator stops at 3, tests/test_utf8.c:95-97. */
  lemma ValidateStopsAtBadByte()
    ensures var s: seq<Byte> := [0x68, 0x65, 0x6C, 0x80, 0x6C, 0x6F];
      WellFormed(s[0..3]) && NextCode(s, 3, 6).None? && !WellFormed(s)
  {
    var s: seq<Byte> := [0x68, 0x65, 0x6C, 0x80, 0x6C, 0x6F];
    assert s[0] == 0x68 && s[1] == 0x65 && s[2] == 0x6C && s[3] == 0x80;
    CharIsWellFormed([0x6C]);
    PrependChar([0x65], [0x6C]);
    PrependChar([0x68], [0x65] + [0x6C]);
    assert s[0..3] == [0x68] + ([0x65] + [0x6C]);
    AsciiFirst(s);
    assert s[1..][1..] == s[2..];
    AsciiFirst(s[1..]);
    assert s[2..][1..] == s[3..];
    AsciiFirst(s[2..]);
    assert s[3..][0] == 0x80;
  }

  /** `utf8_validate` on "hel", 0x80, "lo" returns 3, tests/test_utf8.c:95-97. */
  method ValidateHello() returns (r: nat)
    ensures r == 3
  {
    var s: seq<Byte> := [0x68, 0x65, 0x6C, 0x80, 0x6C, 0x6F];
    r := Validate(s, 0, 6);
    ValidateStopsAtBadByte();
    assert s[0..6] == s;
    assert s[0] == 0x68 && s[1] == 0x65 && s[2] == 0x6C && s[4] == 0x6C && s[5] == 0x6F;
    assert NextCode(s, 0, 6).Some? && NextCode(s, 1, 6).Some? && NextCode(s, 2, 6).Some?;
    assert NextCode(s, 4, 6).Some? && NextCode(s, 5, 6).Some?;
  }

  /** A lone 0x80 between two letters becomes U+FFFD and the scan goes on at
      the next byte, tests/test_utf8.c:121-129. */
  lemma SanitizeLoneContinuation()
    ensures Sanitize([0x61, 0x80, 0x62], 0, 3) == [0x61, 0xEF, 0xBF, 0xBD, 0x62]
  {
    var s: seq<Byte> := [0x61, 0x80, 0x62];
    assert s[0] == 0x61 && s[1] == 0x80 && s[2] == 0x62;
    ReplacementBytes();
    assert Sanitize(s, 2, 3) == [0x62];
    assert Sanitize(s, 1, 3) == [0xEF, 0xBF, 0xBD, 0x62];
  }

  /** The encoder's table at its boundaries, tests/test_utf8.c:215-247. */
  lemma EncodeVectors()
    ensures Encoding(0x00) == [0x00] && Encoding(0x41) == [0x41] && Encoding(0x7F) == [0x7F]
    ensures Encoding(0x043F) == [0xD0, 0xBF]
    ensures Encoding(0x65E5) == [0xE6, 0x97, 0xA5]
    ensures Encoding(0x10346) == [0xF0, 0x90, 0x8D, 0x86]
    ensures Encoding(0x10FFFF) == [0xF4, 0x8F, 0xBF, 0xBF]
    ensures BytesForCodePoint(0x110000) == 0 && BytesForCodePoint(0xFFFF_FFFF) == 0
  {
  }

  /** `utf8_bytes_for_code_point` at both sides of each threshold. */
  lemma LengthThresholds()
    ensures BytesForCodePoint(0x7F) == 1 && BytesForCodePoint(0x80) == 2
    ensures BytesForCodePoint(0x7FF) == 2 && BytesForCodePoint(0x800) == 3
    ensures BytesForCodePoint(0xFFFF) == 3 && BytesForCodePoint(0x10000) == 4
    ensures BytesForCodePoint(0x10FFFF) == 4 && BytesForCodePoint(0x110000) == 0
  {
  }

  /** "при" in wide units is six UTF-8 bytes on both widths, and does not
      fit in a buffer of 2, tests/test_utf8.c:153-166. */
  lemma CyrillicFromWide(w: Width)
    ensures WideAsUtf8(w, [0x043F, 0x0440, 0x0438], 0) ==
      Some([0xD0, 0xBF, 0xD1, 0x80, 0xD0, 0xB8])
    ensures Filled(WideAsUtf8(w, [0x043F, 0x0440, 0x0438], 0), 2) == Unknown
    ensures Filled(WideAsUtf8(w, [0x043F, 0x0440, 0x0438], 0), 64) == Ok(6)
  {
    var u: seq<U32> := [0x043F, 0x0440, 0x0438];
    assert u[0] == 0x043F && u[1] == 0x0440 && u[2] == 0x0438;
    assert WideAsUtf8(w, u, 3) == Some([]);
    assert Encoding(0x0438) + [] == [0xD0, 0xB8];
    assert WideAsUtf8(w, u, 2) == Some([0xD0, 0xB8]);
    assert Encoding(0x0440) + [0xD0, 0xB8] == [0xD1, 0x80, 0xD0, 0xB8];
    assert WideAsUtf8(w, u, 1) == Some([0xD1, 0x80, 0xD0, 0xB8]);
    assert Encoding(0x043F) + [0xD1, 0x80, 0xD0, 0xB8] == [0xD0, 0xBF, 0xD1, 0x80, 0xD0, 0xB8];
  }

  /** "при" in UTF-8 is three wide units, and a lone 0x80 is refused,
      tests/test_utf8.c:194-205. */
  lemma CyrillicToWide(w: Width)
    ensures Utf8AsWide(w, [0xD0, 0xBF, 0xD1, 0x80, 0xD0, 0xB8], 0) ==
      Some([0x043F, 0x0440, 0x0438])
    ensures Utf8AsWide(w, [0x80], 0).None?
  {
    var s: seq<Byte> := [0xD0, 0xBF, 0xD1, 0x80, 0xD0, 0xB8];
    assert s[0] == 0xD0 && s[1] == 0xBF && s[2] == 0xD1;
    assert s[3] == 0x80 && s[4] == 0xD0 && s[5] == 0xB8;
    assert NextCode(s, 4, 6) == Some(Step(6, 0x0438));
    assert WideUnits(w, 0x0438) + [] == [0x0438];
    assert Utf8AsWide(w, s, 4) == Some([0x0438]);
    assert NextCode(s, 2, 6) == Some(Step(4, 0x0440));
    assert WideUnits(w, 0x0440) + [0x0438] == [0x0440, 0x0438];
    assert Utf8AsWide(w, s, 2) == Some([0x0440, 0x0438]);
    assert WideUnits(w, 0x043F) + [0x0440, 0x0438] == [0x043F, 0x0440, 0x0438];
    assert NextCode(s, 0, 6) == Some(Step(2, 0x043F));
  }
}
