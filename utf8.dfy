/** The byte-level part of the codec in src/utf8.c: the strict one-code-point
    decoder, the scalar encoders, the validator and the sanitizer.

    Bit operations are written with `/`, `%`, `*` and `+`: every byte is
    0..255 and every `|` in the source joins disjoint bit fields, so
    `cp & 0x3F` is `cp % 0x40`, `x << 6` is `x * 0x40` and `cp >> 12` is
    `cp / 0x1000`. */
module Utf8 {
  import opened Unicode

  /** UTF8_REPLACEMENT_CHARACTER, U+FFFD. */
  const ReplacementCharacter: U32 := 0xFFFD

  /** A count or offset, or the UTF8_UNKNOWN sentinel. */
  datatype Conv = Ok(count: nat) | Unknown

  // ---------------------------------------------------------------------
  // Encoding one code point
  // ---------------------------------------------------------------------

  /** Number of UTF-8 bytes for `cp`, 0 when `cp` is beyond U+10FFFF. */
  function BytesForCodePoint(cp: U32): (n: nat)
    ensures n <= 4
    ensures n == 0 <==> cp >= 0x110000
    ensures n == 1 <==> cp < 0x80
  {
    if cp < 0x80 then 1
    else if cp < 0x800 then 2
    else if cp < 0x10000 then 3
    else if cp < 0x110000 then 4
    else 0
  }

  /** The bytes both encoders store for `cp`. Surrogate code points are not
      refused here: 0xD800 becomes ED A0 80. */
  function Encoding(cp: U32): (r: seq<Byte>)
    requires cp < 0x110000
    ensures |r| == BytesForCodePoint(cp)
  {
    if cp < 0x80 then [cp]
    else if cp < 0x800 then [0xC0 + cp / 0x40, 0x80 + cp % 0x40]
    else if cp < 0x10000 then
      [0xE0 + cp / 0x1000, 0x80 + cp / 0x40 % 0x40, 0x80 + cp % 0x40]
    else
      [0xF0 + cp / 0x40000, 0x80 + cp / 0x1000 % 0x40,
       0x80 + cp / 0x40 % 0x40, 0x80 + cp % 0x40]
  }

  /** The encoding of a scalar value is one RFC 3629 UTF8-char: in
      particular it is never overlong. */
  lemma EncodingIsChar(cp: U32)
    requires IsScalar(cp)
    ensures Utf8Char(Encoding(cp))
  {
    var e := Encoding(cp);
    if 0x800 <= cp < 0x10000 {
      if cp < 0x1000 {
        assert e[0] == 0xE0 && e[1] >= 0xA0;
      } else if 0xD000 <= cp < 0xE000 {
        assert cp < 0xD800;
        assert e[0] == 0xED && e[1] <= 0x9F;
      }
    } else if 0x10000 <= cp {
      if cp < 0x40000 {
        assert e[0] == 0xF0 && e[1] >= 0x90;
      } else if 0x100000 <= cp {
        assert e[0] == 0xF4 && e[1] <= 0x8F;
      }
    }
  }

  /** `utf8_encode_code_point`: writes the encoding of `cp` at `offset` when
      it fits in `capacity` bytes, and returns the offset after it. */
  method EncodeCodePoint(out: array<Byte>, capacity: nat, offset: nat, cp: U32)
    returns (r: Conv)
    requires capacity <= out.Length
    modifies out
    ensures var n := BytesForCodePoint(cp);
      r == if n == 0 || offset + n > capacity then Unknown else Ok(offset + n)
    ensures r.Ok? ==> (out[..offset] == old(out[..offset]) &&
      out[offset..r.count] == Encoding(cp) && out[r.count..] == old(out[r.count..]))
    ensures r.Unknown? ==> out[..] == old(out[..])
  {
    var n := BytesForCodePoint(cp);
    if n == 0 || offset + n > capacity {
      return Unknown;
    }
    if cp < 0x80 {
      out[offset] := cp;
    } else if cp < 0x800 {
      out[offset] := 0xC0 + cp / 0x40;
      out[offset + 1] := 0x80 + cp % 0x40;
    } else if cp < 0x10000 {
      out[offset] := 0xE0 + cp / 0x1000;
      out[offset + 1] := 0x80 + cp / 0x40 % 0x40;
      out[offset + 2] := 0x80 + cp % 0x40;
    } else {
      out[offset] := 0xF0 + cp / 0x40000;
      out[offset + 1] := 0x80 + cp / 0x1000 % 0x40;
      out[offset + 2] := 0x80 + cp / 0x40 % 0x40;
      out[offset + 3] := 0x80 + cp % 0x40;
    }
    r := Ok(offset + n);
  }

  /** `utf8_append_code_point`: writes the encoding of `cp` at `o` without a
      capacity check and returns the position after it. */
  method AppendCodePoint(out: array<Byte>, o: nat, cp: U32) returns (next: nat)
    requires cp < 0x110000
    requires o + BytesForCodePoint(cp) <= out.Length
    modifies out
    ensures next == o + BytesForCodePoint(cp)
    ensures out[..o] == old(out[..o]) && out[o..next] == Encoding(cp) && out[next..] == old(out[next..])
  {
    if cp < 0x80 {
      out[o] := cp;
      next := o + 1;
    } else if cp < 0x800 {
      out[o] := 0xC0 + cp / 0x40;
      out[o + 1] := 0x80 + cp % 0x40;
      next := o + 2;
    } else if cp < 0x10000 {
      out[o] := 0xE0 + cp / 0x1000;
      out[o + 1] := 0x80 + cp / 0x40 % 0x40;
      out[o + 2] := 0x80 + cp % 0x40;
      next := o + 3;
    } else {
      out[o] := 0xF0 + cp / 0x40000;
      out[o + 1] := 0x80 + cp / 0x1000 % 0x40;
      out[o + 2] := 0x80 + cp / 0x40 % 0x40;
      out[o + 3] := 0x80 + cp % 0x40;
      next := o + 4;
    }
  }

  // ---------------------------------------------------------------------
  // Decoding one code point
  // ---------------------------------------------------------------------

  /** A successful decode: the position after the sequence and its value. */
  datatype Step = Step(next: nat, code: U32)

  /** `(b & 0xC0) == 0x80`: the byte is in 0x80..0xBF. */
  predicate IsContinuation(b: Byte) {
    0x80 <= b <= 0xBF
  }

  /** The lead-byte dispatch of `utf8_next_code`, before the final surrogate
      test: the length from the lead byte's high bits, the truncation test
      before any continuation byte is read, the continuation tests, and the
      overlong and range tests of each length.

      The decoder's masks are written as the byte ranges they select:
      `(b0 & 0x80) == 0` is `b0 <= 0x7F`, `(b0 & 0xE0) == 0xC0` is
      `0xC0 <= b0 <= 0xDF`, `(b0 & 0xF0) == 0xE0` is `0xE0 <= b0 <= 0xEF`,
      `(b0 & 0xF8) == 0xF0` is `0xF0 <= b0 <= 0xF7`. Once a byte `b` has
      passed the continuation test, `b & 0x3F` is `b - 0x80`; inside its
      class the lead byte's payload `b0 & 0x1F`, `b0 & 0x0F` or `b0 & 0x07`
      is `b0 - 0xC0`, `b0 - 0xE0` or `b0 - 0xF0`. */
  function ReadSequence(s: seq<Byte>, p: nat, end: nat): (r: Option<Step>)
    requires p < end <= |s|
    ensures r.Some? ==> p < r.value.next <= end && r.value.next <= p + 4
    ensures r.Some? ==> r.value.code <= 0x10FFFF
  {
    var b0: int := s[p];
    if b0 <= 0x7F then
      Some(Step(p + 1, b0))
    else if 0xC0 <= b0 <= 0xDF then
      if b0 < 0xC2 then None
      else if p + 2 > end then None
      else
        var b1: int := s[p + 1];
        if !IsContinuation(b1) then None
        else Some(Step(p + 2, (b0 - 0xC0) * 0x40 + (b1 - 0x80)))
    else if 0xE0 <= b0 <= 0xEF then
      if p + 3 > end then None
      else
        var b1: int, b2: int := s[p + 1], s[p + 2];
        if !IsContinuation(b1) || !IsContinuation(b2) then None
        else if b0 == 0xE0 && b1 - 0x80 < 0x20 then None
        else if b0 == 0xED && b1 - 0x80 >= 0x20 then None
        else Some(Step(p + 3, (b0 - 0xE0) * 0x1000 + (b1 - 0x80) * 0x40 + (b2 - 0x80)))
    else if 0xF0 <= b0 <= 0xF7 then
      if b0 > 0xF4 then None
      else if p + 4 > end then None
      else
        var b1: int, b2: int, b3: int := s[p + 1], s[p + 2], s[p + 3];
        if !IsContinuation(b1) || !IsContinuation(b2) || !IsContinuation(b3) then None
        else if b0 == 0xF0 && b1 - 0x80 < 0x10 then None
        else if b0 == 0xF4 && b1 - 0x80 >= 0x10 then None
        else
          var code := (b0 - 0xF0) * 0x40000 + (b1 - 0x80) * 0x1000 + (b2 - 0x80) * 0x40 + (b3 - 0x80);
          if code > 0x10FFFF then None else Some(Step(p + 4, code))
    else
      None
  }

  /** `utf8_next_code`: decodes one scalar value from `s[p..end]`. An empty
      range (`p >= end`) is an error, not an end-of-input signal. */
  function NextCode(s: seq<Byte>, p: nat, end: nat): (r: Option<Step>)
    requires end <= |s|
    ensures r.Some? ==> p < r.value.next <= end && r.value.next <= p + 4
    ensures r.Some? ==> IsScalar(r.value.code)
  {
    if p >= end then None
    else
      match ReadSequence(s, p, end)
      case None => None
      case Some(st) => if IsSurrogate(st.code) then None else Some(st)
  }

  /** Shifts a decode result found in a slice back to the whole string. */
  function Offset(r: Option<Step>, p: nat): Option<Step> {
    match r
    case None => None
    case Some(st) => Some(Step(st.next + p, st.code))
  }

  /** The decoder looks only at `s[p..end]`: it never reads at or past `end`,
      so a truncated sequence is refused without reading beyond it. */
  lemma NextCodeLocal(s: seq<Byte>, p: nat, end: nat)
    requires p <= end <= |s|
    ensures NextCode(s, p, end) == Offset(NextCode(s[p..end], 0, end - p), p)
  {
    var t := s[p..end];
    if p < end {
      assert t[0] == s[p];
      if s[p] < 0x80 {
      } else if s[p] < 0xE0 {
        if p + 1 < end { assert t[1] == s[p + 1]; }
      } else if s[p] < 0xF0 {
        if p + 2 < end { assert t[1] == s[p + 1] && t[2] == s[p + 2]; }
      } else {
        if p + 3 < end { assert t[1] == s[p + 1] && t[2] == s[p + 2] && t[3] == s[p + 3]; }
      }
    }
  }

  /** Two byte strings that agree on `[p, end)` decode alike there. */
  lemma NoOverRead(s: seq<Byte>, t: seq<Byte>, p: nat, end: nat)
    requires p <= end <= |s| && end <= |t|
    requires s[p..end] == t[p..end]
    ensures NextCode(s, p, end) == NextCode(t, p, end)
  {
    NextCodeLocal(s, p, end);
    NextCodeLocal(t, p, end);
  }

  /** What the decoder accepts is one RFC 3629 UTF8-char, and the value is
      the one whose encoding those bytes are. */
  lemma NextCodeSound(s: seq<Byte>, p: nat, end: nat)
    requires end <= |s|
    requires NextCode(s, p, end).Some?
    ensures var st := NextCode(s, p, end).value;
      Utf8Char(s[p..st.next]) && Encoding(st.code) == s[p..st.next]
  {
    var n := NextCode(s, p, end).value.next - p;
    if n == 1 {
      SoundOne(s, p, end);
    } else if n == 2 {
      SoundTwo(s, p, end);
    } else if n == 3 {
      SoundThree(s, p, end);
    } else {
      SoundFour(s, p, end);
    }
  }

  lemma SoundOne(s: seq<Byte>, p: nat, end: nat)
    requires end <= |s|
    requires NextCode(s, p, end).Some? && NextCode(s, p, end).value.next == p + 1
    ensures var st := NextCode(s, p, end).value;
      Utf8Char(s[p..p + 1]) && Encoding(st.code) == s[p..p + 1]
  {
    assert s[p..p + 1][0] == s[p];
  }

  lemma SoundTwo(s: seq<Byte>, p: nat, end: nat)
    requires end <= |s|
    requires NextCode(s, p, end).Some? && NextCode(s, p, end).value.next == p + 2
    ensures var st := NextCode(s, p, end).value;
      Utf8Char(s[p..p + 2]) && Encoding(st.code) == s[p..p + 2]
  {
    var c := s[p..p + 2];
    assert c[0] == s[p] && c[1] == s[p + 1];
    var e := Encoding(NextCode(s, p, end).value.code);
    assert e[0] == c[0] && e[1] == c[1];
  }

  lemma SoundThree(s: seq<Byte>, p: nat, end: nat)
    requires end <= |s|
    requires NextCode(s, p, end).Some? && NextCode(s, p, end).value.next == p + 3
    ensures var st := NextCode(s, p, end).value;
      Utf8Char(s[p..p + 3]) && Encoding(st.code) == s[p..p + 3]
  {
    var c := s[p..p + 3];
    assert c[0] == s[p] && c[1] == s[p + 1] && c[2] == s[p + 2];
    ThreeByteDigits(s[p] - 0xE0, s[p + 1] - 0x80, s[p + 2] - 0x80);
    var e := Encoding(NextCode(s, p, end).value.code);
    assert e[0] == c[0] && e[1] == c[1] && e[2] == c[2];
  }

  lemma SoundFour(s: seq<Byte>, p: nat, end: nat)
    requires end <= |s|
    requires NextCode(s, p, end).Some? && NextCode(s, p, end).value.next == p + 4
    ensures var st := NextCode(s, p, end).value;
      Utf8Char(s[p..p + 4]) && Encoding(st.code) == s[p..p + 4]
  {
    var c := s[p..p + 4];
    assert c[0] == s[p] && c[1] == s[p + 1] && c[2] == s[p + 2] && c[3] == s[p + 3];
    FourByteDigits(s[p] - 0xF0, s[p + 1] - 0x80, s[p + 2] - 0x80, s[p + 3] - 0x80);
    var e := Encoding(NextCode(s, p, end).value.code);
    assert e[0] == c[0] && e[1] == c[1] && e[2] == c[2] && e[3] == c[3];
  }

  lemma ThreeByteDigits(a: nat, b: nat, c: nat)
    requires a < 0x10 && b < 0x40 && c < 0x40
    ensures var x := a * 0x1000 + b * 0x40 + c;
      x / 0x1000 == a && x / 0x40 % 0x40 == b && x % 0x40 == c
  {
    var x := a * 0x1000 + b * 0x40 + c;
    assert x / 0x40 == a * 0x40 + b;
  }

  lemma FourByteDigits(a: nat, b: nat, c: nat, d: nat)
    requires a < 8 && b < 0x40 && c < 0x40 && d < 0x40
    ensures var x := a * 0x40000 + b * 0x1000 + c * 0x40 + d;
      x / 0x40000 == a && x / 0x1000 % 0x40 == b && x / 0x40 % 0x40 == c && x % 0x40 == d
  {
    var x := a * 0x40000 + b * 0x1000 + c * 0x40 + d;
    assert x / 0x40 == a * 0x1000 + b * 0x40 + c;
    assert x / 0x1000 == a * 0x40 + b;
  }

  /** Every RFC 3629 UTF8-char at `p` is accepted, consuming exactly it. */
  lemma NextCodeComplete(s: seq<Byte>, p: nat, end: nat, k: nat)
    requires p + k <= end <= |s|
    requires Utf8Char(s[p..p + k])
    ensures NextCode(s, p, end).Some? && NextCode(s, p, end).value.next == p + k
  {
    var c := s[p..p + k];
    assert c[0] == s[p];
    if k >= 2 { assert c[1] == s[p + 1]; }
    if k >= 3 { assert c[2] == s[p + 2]; }
    if k == 4 { assert c[3] == s[p + 3]; }
  }

  /** Decoding the encoding of a scalar value gives it back, consuming
      exactly `BytesForCodePoint(cp)` bytes. */
  lemma DecodeEncoding(s: seq<Byte>, p: nat, end: nat, cp: U32)
    requires IsScalar(cp)
    requires p + BytesForCodePoint(cp) <= end <= |s|
    requires s[p..p + BytesForCodePoint(cp)] == Encoding(cp)
    ensures NextCode(s, p, end) == Some(Step(p + BytesForCodePoint(cp), cp))
  {
    var n := BytesForCodePoint(cp);
    EncodingIsChar(cp);
    NextCodeComplete(s, p, end, n);
    NextCodeSound(s, p, end);
    EncodingInjective(NextCode(s, p, end).value.code, cp);
  }

  lemma EncodingInjective(a: U32, b: U32)
    requires a < 0x110000 && b < 0x110000
    requires Encoding(a) == Encoding(b)
    ensures a == b
  {
    var n := BytesForCodePoint(a);
    assert n == BytesForCodePoint(b);
    if n == 3 {
      InjectiveThree(a, b);
    } else if n == 4 {
      InjectiveFour(a, b);
    }
  }

  lemma InjectiveThree(a: U32, b: U32)
    requires 0x800 <= a < 0x10000 && 0x800 <= b < 0x10000
    requires Encoding(a) == Encoding(b)
    ensures a == b
  {
    var ea, eb := Encoding(a), Encoding(b);
    assert ea[0] == eb[0] && ea[1] == eb[1] && ea[2] == eb[2];
    ThreeByteValue(a);
    ThreeByteValue(b);
  }

  lemma InjectiveFour(a: U32, b: U32)
    requires 0x10000 <= a < 0x110000 && 0x10000 <= b < 0x110000
    requires Encoding(a) == Encoding(b)
    ensures a == b
  {
    var ea, eb := Encoding(a), Encoding(b);
    assert ea[0] == eb[0] && ea[1] == eb[1] && ea[2] == eb[2] && ea[3] == eb[3];
    FourByteValue(a);
    FourByteValue(b);
  }

  lemma ThreeByteValue(a: nat)
    ensures a == a / 0x1000 * 0x1000 + a / 0x40 % 0x40 * 0x40 + a % 0x40
  {
    var q1, r1 := a / 0x40, a % 0x40;
    var q2, r2 := q1 / 0x40, q1 % 0x40;
    assert a == q2 * 0x1000 + r2 * 0x40 + r1;
    assert a / 0x1000 == q2;
  }

  lemma FourByteValue(a: nat)
    ensures a == a / 0x40000 * 0x40000 + a / 0x1000 % 0x40 * 0x1000 + a / 0x40 % 0x40 * 0x40 + a % 0x40
  {
    var q1, r1 := a / 0x40, a % 0x40;
    var q2, r2 := q1 / 0x40, q1 % 0x40;
    var q3, r3 := q2 / 0x40, q2 % 0x40;
    assert a == q3 * 0x40000 + r3 * 0x1000 + r2 * 0x40 + r1;
    assert a / 0x1000 == q2;
    assert a / 0x40000 == q3;
  }

  /** Decoding from `p` agrees with the RFC 3629 grammar: the rest of the
      range is UTF8-octets exactly when one decode succeeds and the rest
      after it is UTF8-octets again. */
  lemma WellFormedAt(s: seq<Byte>, p: nat, end: nat)
    requires p < end <= |s|
    ensures WellFormed(s[p..end]) <==>
      NextCode(s, p, end).Some? && WellFormed(s[NextCode(s, p, end).value.next..end])
  {
    var t := s[p..end];
    var k := CharLength(s[p]);
    assert t[0] == s[p];
    if WellFormed(t) {
      assert t[..k] == s[p..p + k];
      assert t[k..] == s[p + k..end];
      NextCodeComplete(s, p, end, k);
    }
    if NextCode(s, p, end).Some? {
      var next := NextCode(s, p, end).value.next;
      NextCodeSound(s, p, end);
      CharLengthOfChar(s[p..next]);
      assert s[p..next][0] == s[p];
      assert t[..k] == s[p..next];
      assert t[k..] == s[next..end];
    }
  }

  // ---------------------------------------------------------------------
  // Validation
  // ---------------------------------------------------------------------

  /** One round of the validator's loop. */
  lemma ValidateStep(s: seq<Byte>, begin: nat, p: nat, end: nat)
    requires begin <= p < end <= |s|
    requires WellFormed(s[begin..p])
    ensures NextCode(s, p, end).None? ==> !WellFormed(s[p..end])
    ensures NextCode(s, p, end).Some? ==>
      var next := NextCode(s, p, end).value.next;
      WellFormed(s[begin..next]) && (WellFormed(s[p..end]) <==> WellFormed(s[next..end]))
  {
    WellFormedAt(s, p, end);
    if NextCode(s, p, end).Some? {
      var next := NextCode(s, p, end).value.next;
      NextCodeSound(s, p, end);
      AppendChar(s[begin..p], s[p..next]);
      assert s[begin..p] + s[p..next] == s[begin..next];
    }
  }

  /** `utf8_validate`: returns `end` when `s[begin..end]` is well-formed,
      otherwise the start of the first sequence the decoder refuses. */
  method Validate(s: seq<Byte>, begin: nat, end: nat) returns (r: nat)
    requires end <= |s|
    ensures end <= begin ==> r == end
    ensures begin <= end ==> begin <= r <= end
    ensures begin <= end ==> (r == end <==> WellFormed(s[begin..end]))
    ensures begin <= end ==> WellFormed(s[begin..r])
    ensures r < end ==> NextCode(s, r, end).None?
  {
    var p := begin;
    if begin <= end {
      assert s[begin..begin] == [];
    }
    while p < end
      invariant begin <= end ==> begin <= p <= end
      invariant end < begin ==> p == begin
      invariant begin <= end ==> WellFormed(s[begin..p])
      invariant begin <= end ==> (WellFormed(s[begin..end]) <==> WellFormed(s[p..end]))
      decreases end - p
    {
      var next := NextCode(s, p, end);
      ValidateStep(s, begin, p, end);
      if next.None? {
        return p;
      }
      p := next.value.next;
    }
    assert s[end..end] == [];
    return end;
  }

  // ---------------------------------------------------------------------
  // Sanitizing
  // ---------------------------------------------------------------------

  /** What `utf8_replace_invalid` writes for `s[p..end]`: each decoded
      scalar re-encoded, and U+FFFD for each byte where decoding fails,
      the scan then moving on by that one byte. */
  function Sanitize(s: seq<Byte>, p: nat, end: nat): seq<Byte>
    requires p <= end <= |s|
    decreases end - p
  {
    if p == end then []
    else
      match NextCode(s, p, end)
      case Some(st) => Encoding(st.code) + Sanitize(s, st.next, end)
      case None => Encoding(ReplacementCharacter) + Sanitize(s, p + 1, end)
  }

  lemma ReplacementBytes()
    ensures Encoding(ReplacementCharacter) == [0xEF, 0xBF, 0xBD]
  {
  }

  /** The output is at most three bytes per input byte. */
  lemma {:induction false} SanitizeBound(s: seq<Byte>, p: nat, end: nat)
    requires p <= end <= |s|
    ensures |Sanitize(s, p, end)| <= 3 * (end - p)
    decreases end - p
  {
    if p < end {
      match NextCode(s, p, end)
      case Some(st) =>
        NextCodeSound(s, p, end);
        SanitizeBound(s, st.next, end);
      case None =>
        SanitizeBound(s, p + 1, end);
    }
  }

  /** Well-formed input is copied unchanged. */
  lemma {:induction false} SanitizeValid(s: seq<Byte>, p: nat, end: nat)
    requires p <= end <= |s|
    requires WellFormed(s[p..end])
    ensures Sanitize(s, p, end) == s[p..end]
    decreases end - p
  {
    if p < end {
      var st := WellFormedSplit(s, p, end);
      var _, _ := SanitizeStep(s, p, end);
      SanitizeValid(s, st.next, end);
    }
  }

  /** A non-empty well-formed range starts with a decodable scalar whose
      encoding is the first UTF8-char, and the rest is well formed. */
  lemma WellFormedSplit(s: seq<Byte>, p: nat, end: nat) returns (st: Step)
    requires p < end <= |s| && WellFormed(s[p..end])
    ensures NextCode(s, p, end) == Some(st)
    ensures p < st.next <= end && WellFormed(s[st.next..end])
    ensures Encoding(st.code) + s[st.next..end] == s[p..end]
  {
    WellFormedAt(s, p, end);
    st := NextCode(s, p, end).value;
    NextCodeSound(s, p, end);
    Rejoin(s, p, st.next, end);
  }

  /** The output is always well-formed UTF-8. */
  lemma {:induction false} SanitizeWellFormed(s: seq<Byte>, p: nat, end: nat)
    requires p <= end <= |s|
    ensures WellFormed(Sanitize(s, p, end))
    decreases end - p
  {
    if p < end {
      match NextCode(s, p, end)
      case Some(st) =>
        SanitizeWellFormed(s, st.next, end);
        EncodingIsChar(st.code);
        PrependChar(Encoding(st.code), Sanitize(s, st.next, end));
      case None =>
        SanitizeWellFormed(s, p + 1, end);
        EncodingIsChar(ReplacementCharacter);
        PrependChar(Encoding(ReplacementCharacter), Sanitize(s, p + 1, end));
    }
  }

  /** Sanitizing twice is the same as sanitizing once. */
  lemma SanitizeIdempotent(s: seq<Byte>, p: nat, end: nat)
    requires p <= end <= |s|
    ensures var o := Sanitize(s, p, end); Sanitize(o, 0, |o|) == o
  {
    var o := Sanitize(s, p, end);
    SanitizeWellFormed(s, p, end);
    assert o[0..|o|] == o;
    SanitizeValid(o, 0, |o|);
  }

  /** A refused byte costs exactly one U+FFFD, and the well-formed data right
      after it is kept: the scan is not thrown off by a bad lead byte. */
  lemma SanitizeResync(s: seq<Byte>, p: nat, end: nat)
    requires p < end <= |s|
    requires NextCode(s, p, end).None?
    requires WellFormed(s[p + 1..end])
    ensures Sanitize(s, p, end) == [0xEF, 0xBF, 0xBD] + s[p + 1..end]
  {
    SanitizeRefused(s, p, end);
    SanitizeValid(s, p + 1, end);
  }

  /** A byte the decoder refuses is replaced by EF BF BD alone. */
  lemma SanitizeRefused(s: seq<Byte>, p: nat, end: nat)
    requires p < end <= |s| && NextCode(s, p, end).None?
    ensures Sanitize(s, p, end) == [0xEF, 0xBF, 0xBD] + Sanitize(s, p + 1, end)
  {
    ReplacementBytes();
  }

  /** One round of the sanitizer's loop: the code point it appends and the
      position it moves to. */
  lemma SanitizeStep(s: seq<Byte>, p: nat, end: nat) returns (cp: U32, q: nat)
    requires p < end <= |s|
    ensures NextCode(s, p, end).Some? ==> cp == NextCode(s, p, end).value.code && q == NextCode(s, p, end).value.next
    ensures NextCode(s, p, end).None? ==> cp == ReplacementCharacter && q == p + 1
    ensures p < q <= end && cp < 0x110000 && BytesForCodePoint(cp) <= 3 * (q - p)
    ensures Sanitize(s, p, end) == Encoding(cp) + Sanitize(s, q, end)
  {
    match NextCode(s, p, end)
    case Some(st) =>
      NextCodeSound(s, p, end);
      cp, q := st.code, st.next;
    case None =>
      cp, q := ReplacementCharacter, p + 1;
  }

  /** The array view after an encoder wrote `e` at `[o0, o)` and kept the
      rest: the prefix up to `o` is the old prefix followed by `e`, and from
      any `k >= o` on nothing changed. */
  lemma Written(after: seq<Byte>, before: seq<Byte>, o0: nat, o: nat, e: seq<Byte>, k: nat)
    requires o0 <= o <= k <= |after| == |before|
    requires after[..o0] == before[..o0] && after[o0..o] == e && after[o..] == before[o..]
    ensures after[..o] == before[..o0] + e && after[k..] == before[k..]
  {
    assert after[..o] == after[..o0] + after[o0..o];
    assert after[k..] == after[o..][k - o..];
    assert before[k..] == before[o..][k - o..];
  }

  /** Agreeing from `i` on means agreeing from any `j >= i` on. */
  lemma SameFrom<T>(x: seq<T>, y: seq<T>, i: nat, j: nat)
    requires i <= j <= |x| == |y| && x[i..] == y[i..]
    ensures x[j..] == y[j..]
  {
    assert x[j..] == x[i..][j - i..];
    assert y[j..] == y[i..][j - i..];
  }

  lemma Prepended(done: seq<Byte>, e: seq<Byte>, now: seq<Byte>, rest: seq<Byte>, whole: seq<Byte>)
    requires done + (e + rest) == whole && now == done + e
    ensures now + rest == whole
  {
  }

  /** `utf8_replace_invalid`: sanitizes `s[begin..end]` into `out` from index
      0 and returns the index after the last byte written. */
  method ReplaceInvalid(s: seq<Byte>, begin: nat, end: nat, out: array<Byte>) returns (o: nat)
    requires begin <= end <= |s|
    requires 3 * (end - begin) <= out.Length
    modifies out
    ensures o <= 3 * (end - begin)
    ensures out[..o] == Sanitize(s, begin, end)
    ensures out[o..] == old(out[o..])
  {
    var p := begin;
    o := 0;
    while p != end
      invariant begin <= p <= end
      invariant o <= 3 * (p - begin)
      invariant out[..o] + Sanitize(s, p, end) == Sanitize(s, begin, end)
      invariant out[o..] == old(out[o..])
      decreases end - p
    {
      var next := NextCode(s, p, end);
      var cp: U32, q := ReplacementCharacter, p + 1;
      if next.Some? {
        cp, q := next.value.code, next.value.next;
      }
      ghost var cp', q' := SanitizeStep(s, p, end);
      assert cp' == cp && q' == q;
      ghost var before, o0 := out[..], o;
      o := AppendCodePoint(out, o, cp);
      p := q;
      Written(out[..], before, o0, o, Encoding(cp), o);
      SameFrom(before, old(out[..]), o0, o);
      Prepended(before[..o0], Encoding(cp), out[..o], Sanitize(s, p, end), Sanitize(s, begin, end));
    }
  }
}
