/** The bulk converters of src/utf8.c, `utf8_from_wchar` and `utf8_to_wchar`,
    between UTF-8 and the platform's wide units. The build-time choice
    UTF8_WCHAR_UTF16 (a 16-bit `wchar_t`) becomes an explicit `Width`:
    `Utf16` pairs surrogates as in sections 2.1 and 2.2 of RFC 2781,
    `Utf32` keeps one unit per code point and does no surrogate handling. */
module Wide {
  import opened Unicode
  import opened Utf8

  datatype Width = Utf16 | Utf32

  /** One code point read from wide input and the number of units used. */
  datatype Read = Read(cp: U32, len: nat)

  // ---------------------------------------------------------------------
  // Reference behaviour
  // ---------------------------------------------------------------------

  /** The unit decode at the top of both loops of `utf8_from_wchar`: a
      high surrogate must be followed by a low one, and a lone low
      surrogate is refused; on `Utf32` every unit is taken as it is. */
  function NextWide(w: Width, u: seq<U32>, i: nat): (r: Option<Read>)
    requires i < |u|
    ensures r.Some? ==> 1 <= r.value.len <= 2 && i + r.value.len <= |u|
  {
    match w
    case Utf32 => Some(Read(u[i], 1))
    case Utf16 =>
      var wc := u[i];
      if IsHighSurrogate(wc) then
        if i + 1 >= |u| then None
        else
          var low := u[i + 1];
          if !IsLowSurrogate(low) then None
          else Some(Read(0x10000 + (wc - 0xD800) * 0x400 + (low - 0xDC00), 2))
      else if IsLowSurrogate(wc) then None
      else Some(Read(wc, 1))
  }

  /** `acc` followed by the output of a conversion that may fail. */
  function Prepend<T>(acc: seq<T>, r: Option<seq<T>>): Option<seq<T>> {
    match r
    case None => None
    case Some(v) => Some(acc + v)
  }

  /** The UTF-8 that `utf8_from_wchar` produces for `u[i..]`, or None where
      some code unit is refused or some code point is beyond U+10FFFF. */
  function WideAsUtf8(w: Width, u: seq<U32>, i: nat): Option<seq<Byte>>
    requires i <= |u|
    decreases |u| - i
  {
    if i == |u| then Some([])
    else
      match NextWide(w, u, i)
      case None => None
      case Some(rd) =>
        if BytesForCodePoint(rd.cp) == 0 then None
        else
          Prepend(Encoding(rd.cp), WideAsUtf8(w, u, i + rd.len))
  }

  /** The units `utf8_to_wchar` stores for one scalar value. */
  function WideUnits(w: Width, cp: U32): seq<U32>
    requires cp <= 0x10FFFF
  {
    if w == Utf16 && cp > 0xFFFF then
      [0xD800 + (cp - 0x10000) / 0x400, 0xDC00 + (cp - 0x10000) % 0x400]
    else
      [cp]
  }

  /** The wide units `utf8_to_wchar` produces for `s[p..]`, or None where the
      decoder refuses a sequence. */
  function Utf8AsWide(w: Width, s: seq<Byte>, p: nat): Option<seq<U32>>
    requires p <= |s|
    decreases |s| - p
  {
    if p == |s| then Some([])
    else
      match NextCode(s, p, |s|)
      case None => None
      case Some(st) =>
        Prepend(WideUnits(w, st.code), Utf8AsWide(w, s, st.next))
  }

  /** Size-only mode: the content length, or UTF8_UNKNOWN on invalid input. */
  function SizeOnly<T>(r: Option<seq<T>>): Conv {
    match r
    case None => Unknown
    case Some(v) => Ok(|v|)
  }

  /** Fill mode: the content length when the content and the terminating 0
      fit in `capacity` units. A successful fill returns what a size query
      returns, and succeeds exactly when that count is below the capacity. */
  function Filled<T>(r: Option<seq<T>>, capacity: nat): (c: Conv)
    ensures c.Ok? <==> SizeOnly(r).Ok? && SizeOnly(r).count < capacity
    ensures c.Ok? ==> c == SizeOnly(r)
  {
    match r
    case None => Unknown
    case Some(v) => if |v| < capacity then Ok(|v|) else Unknown
  }

  lemma PrependNothing<T>(r: Option<seq<T>>)
    ensures Prepend([], r) == r
  {
    if r.Some? {
      assert [] + r.value == r.value;
    }
  }

  lemma PrependAll<T>(acc: seq<T>)
    ensures Prepend(acc, Some([])) == Some(acc)
  {
    assert acc + [] == acc;
  }

  lemma PrependPrepend<T>(acc: seq<T>, e: seq<T>, r: Option<seq<T>>)
    ensures Prepend(acc, Prepend(e, r)) == Prepend(acc + e, r)
  {
    if r.Some? {
      Associative(acc, e, r.value);
    }
  }

  // ---------------------------------------------------------------------
  // Properties of the reference behaviour
  // ---------------------------------------------------------------------

  /** Section 2.1 of RFC 2781: a scalar value above U+FFFF becomes a high
      surrogate followed by a low surrogate that recombine to it. */
  lemma SurrogatePair(cp: U32)
    requires 0x10000 <= cp <= 0x10FFFF
    ensures var u := WideUnits(Utf16, cp);
      |u| == 2 && IsHighSurrogate(u[0]) && IsLowSurrogate(u[1]) &&
      0x10000 + (u[0] - 0xD800) * 0x400 + (u[1] - 0xDC00) == cp
  {
  }

  /** Section 2.2 of RFC 2781: a surrogate pair decodes to a supplementary
      scalar value whose own encoding is that pair. */
  lemma PairValue(hi: U32, lo: U32)
    requires IsHighSurrogate(hi) && IsLowSurrogate(lo)
    ensures var cp := 0x10000 + (hi - 0xD800) * 0x400 + (lo - 0xDC00);
      0x10000 <= cp <= 0x10FFFF && IsScalar(cp) && WideUnits(Utf16, cp) == [hi, lo]
  {
    var cp := 0x10000 + (hi - 0xD800) * 0x400 + (lo - 0xDC00);
    assert (cp - 0x10000) / 0x400 == hi - 0xD800;
    assert (cp - 0x10000) % 0x400 == lo - 0xDC00;
  }

  /** Reading back the units stored for a scalar value gives it again. */
  lemma ReadWideUnits(w: Width, u: seq<U32>, k: nat, cp: U32)
    requires IsScalar(cp)
    requires k + |WideUnits(w, cp)| <= |u| && u[k..k + |WideUnits(w, cp)|] == WideUnits(w, cp)
    ensures NextWide(w, u, k) == Some(Read(cp, |WideUnits(w, cp)|))
  {
    var units := WideUnits(w, cp);
    assert u[k] == units[0];
    if w == Utf16 && cp > 0xFFFF {
      assert u[k + 1] == units[1];
      SurrogatePair(cp);
    }
  }

  /** One step of `WideAsUtf8`. */
  lemma WideAsUtf8Step(w: Width, u: seq<U32>, i: nat, cp: U32, n: nat, rest: seq<Byte>)
    requires i < |u| && NextWide(w, u, i) == Some(Read(cp, n)) && cp < 0x110000
    requires WideAsUtf8(w, u, i + n) == Some(rest)
    ensures WideAsUtf8(w, u, i) == Some(Encoding(cp) + rest)
  {
  }

  /** One step of `Utf8AsWide`. */
  lemma Utf8AsWideStep(w: Width, s: seq<Byte>, p: nat, st: Step, rest: seq<U32>)
    requires p < |s| && NextCode(s, p, |s|) == Some(st)
    requires Utf8AsWide(w, s, st.next) == Some(rest)
    ensures Utf8AsWide(w, s, p) == Some(WideUnits(w, st.code) + rest)
  {
  }

  /** A successful `WideAsUtf8` from `i < |u|` starts with the encoding of
      the code point read at `i`. */
  lemma WideAsUtf8Split(w: Width, u: seq<U32>, i: nat) returns (rd: Read, rest: seq<Byte>)
    requires i < |u| && WideAsUtf8(w, u, i).Some?
    ensures NextWide(w, u, i) == Some(rd) && rd.cp < 0x110000
    ensures WideAsUtf8(w, u, i + rd.len) == Some(rest)
    ensures WideAsUtf8(w, u, i).value == Encoding(rd.cp) + rest
  {
    rd := NextWide(w, u, i).value;
    rest := WideAsUtf8(w, u, i + rd.len).value;
  }

  /** Units stored for a scalar value at `k`, read back, give its encoding
      in front of whatever the units after them give. */
  lemma UnitsAsUtf8(w: Width, u: seq<U32>, k: nat, cp: U32, s: seq<Byte>, p: nat, next: nat)
    requires IsScalar(cp) && p <= next <= |s| && Encoding(cp) + s[next..|s|] == s[p..|s|]
    requires k + |WideUnits(w, cp)| <= |u| && u[k..k + |WideUnits(w, cp)|] == WideUnits(w, cp)
    ensures WideAsUtf8(w, u, k + |WideUnits(w, cp)|) == Some(s[next..|s|]) ==>
      WideAsUtf8(w, u, k) == Some(s[p..|s|])
  {
    if WideAsUtf8(w, u, k + |WideUnits(w, cp)|) == Some(s[next..|s|]) {
      ReadWideUnits(w, u, k, cp);
      WideAsUtf8Step(w, u, k, cp, |WideUnits(w, cp)|, s[next..|s|]);
    }
  }

  /** Where the bytes run out, so do the units. */
  lemma Utf8RoundTripEnd(w: Width, s: seq<Byte>, u: seq<U32>, k: nat)
    requires k <= |u| && Utf8AsWide(w, s, |s|).Some? && u[k..] == Utf8AsWide(w, s, |s|).value
    ensures WideAsUtf8(w, u, k) == Some(s[|s|..|s|])
  {
    assert Utf8AsWide(w, s, |s|) == Some([]);
    assert k == |u|;
    assert s[|s|..|s|] == [];
  }

  /** A successful `Utf8AsWide` from `p < |s|` starts with the units of
      the scalar decoded at `p`. */
  lemma Utf8AsWideSplit(w: Width, s: seq<Byte>, p: nat) returns (st: Step, rest: seq<U32>)
    requires p < |s| && Utf8AsWide(w, s, p).Some?
    ensures NextCode(s, p, |s|) == Some(st)
    ensures Utf8AsWide(w, s, st.next) == Some(rest)
    ensures Utf8AsWide(w, s, p).value == WideUnits(w, st.code) + rest
  {
    st := NextCode(s, p, |s|).value;
    rest := Utf8AsWide(w, s, st.next).value;
  }

  /** Every well-formed UTF-8 input converts to wide units. */
  lemma {:induction false} Utf8AsWideTotal(w: Width, s: seq<Byte>, p: nat)
    requires p <= |s| && WellFormed(s[p..|s|])
    ensures Utf8AsWide(w, s, p).Some?
    decreases |s| - p
  {
    if p < |s| {
      var st := WellFormedSplit(s, p, |s|);
      Utf8AsWideTotal(w, s, st.next);
    }
  }

  /** One scalar of the utf8 -> wide -> utf8 round trip: the scalar value
      decoded at `p`, the bytes that encode it and the units that hold it,
      which the rest of the bytes and units follow. */
  lemma Utf8RoundTripStep(w: Width, s: seq<Byte>, p: nat, u: seq<U32>, k: nat) returns (cp: U32, next: nat)
    requires p < |s| && WellFormed(s[p..|s|])
    requires Utf8AsWide(w, s, p).Some?
    requires k <= |u| && u[k..] == Utf8AsWide(w, s, p).value
    ensures p < next <= |s| && WellFormed(s[next..|s|]) && IsScalar(cp)
    ensures Encoding(cp) + s[next..|s|] == s[p..|s|]
    ensures k + |WideUnits(w, cp)| <= |u| && u[k..k + |WideUnits(w, cp)|] == WideUnits(w, cp)
    ensures Utf8AsWide(w, s, next).Some? && u[k + |WideUnits(w, cp)|..] == Utf8AsWide(w, s, next).value
  {
    var st := WellFormedSplit(s, p, |s|);
    var _, rest := Utf8AsWideSplit(w, s, p);
    SplitSuffix(u, k, WideUnits(w, st.code), rest);
    cp, next := st.code, st.next;
  }

  /** utf8 -> wide -> utf8 reproduces any well-formed input, on both widths.
      The units may sit at any offset `k` of a larger buffer. */
  lemma {:induction false} Utf8RoundTripFrom(w: Width, s: seq<Byte>, p: nat, u: seq<U32>, k: nat)
    requires p <= |s| && WellFormed(s[p..|s|])
    requires Utf8AsWide(w, s, p).Some?
    requires k <= |u| && u[k..] == Utf8AsWide(w, s, p).value
    ensures WideAsUtf8(w, u, k) == Some(s[p..|s|])
    decreases |s| - p
  {
    if p < |s| {
      var cp, next := Utf8RoundTripStep(w, s, p, u, k);
      Utf8RoundTripFrom(w, s, next, u, k + |WideUnits(w, cp)|);
      UnitsAsUtf8(w, u, k, cp, s, p, next);
    } else {
      Utf8RoundTripEnd(w, s, u, k);
    }
  }

  lemma Utf8RoundTrip(w: Width, s: seq<Byte>)
    requires WellFormed(s)
    ensures Utf8AsWide(w, s, 0).Some?
    ensures WideAsUtf8(w, Utf8AsWide(w, s, 0).value, 0) == Some(s)
  {
    assert s[0..|s|] == s;
    Utf8AsWideTotal(w, s, 0);
    var u := Utf8AsWide(w, s, 0).value;
    assert u[0..] == u;
    Utf8RoundTripFrom(w, s, 0, u, 0);
  }

  /** The units a `wchar_t` of the given width can hold and that come back
      unchanged from UTF-8: on `Utf16` every unit is 16 bits; on `Utf32` no
      unit is a surrogate code point, since the 32-bit branch encodes those
      as ill-formed UTF-8 without complaint. */
  ghost predicate Representable(w: Width, u: seq<U32>, i: nat) {
    match w
    case Utf16 => forall k :: i <= k < |u| ==> u[k] <= 0xFFFF
    case Utf32 => forall k :: i <= k < |u| ==> !IsSurrogate(u[k])
  }

  lemma RepresentableTail(w: Width, u: seq<U32>, i: nat, i2: nat)
    requires i <= i2 && Representable(w, u, i)
    ensures Representable(w, u, i2)
  {
  }

  /** The code point read at `i` and the units that encode it again. */
  lemma ReadIsScalar(w: Width, u: seq<U32>, i: nat)
    requires i < |u| && Representable(w, u, i) && NextWide(w, u, i).Some?
    requires NextWide(w, u, i).value.cp < 0x110000
    ensures var rd := NextWide(w, u, i).value;
      IsScalar(rd.cp) && WideUnits(w, rd.cp) == u[i..i + rd.len]
  {
    var rd := NextWide(w, u, i).value;
    if w == Utf16 && rd.len == 2 {
      PairValue(u[i], u[i + 1]);
    }
  }

  /** The encoding of a scalar value at `k`, decoded back, gives its units
      in front of whatever the bytes after it decode to. */
  lemma EncodingAsUnits(w: Width, b: seq<Byte>, k: nat, cp: U32, u: seq<U32>, i: nat, i2: nat)
    requires IsScalar(cp) && i <= i2 <= |u| && u[i..i2] == WideUnits(w, cp)
    requires k + |Encoding(cp)| <= |b| && b[k..k + |Encoding(cp)|] == Encoding(cp)
    ensures Utf8AsWide(w, b, k + |Encoding(cp)|) == Some(u[i2..]) ==>
      Utf8AsWide(w, b, k) == Some(u[i..])
  {
    if Utf8AsWide(w, b, k + |Encoding(cp)|) == Some(u[i2..]) {
      DecodeEncoding(b, k, |b|, cp);
      Utf8AsWideStep(w, b, k, Step(k + |Encoding(cp)|, cp), u[i2..]);
      RejoinTail(u, i, i2);
    }
  }

  /** Where the units run out, so do the bytes. */
  lemma WideRoundTripEnd(w: Width, u: seq<U32>, b: seq<Byte>, k: nat)
    requires k <= |b| && WideAsUtf8(w, u, |u|).Some? && b[k..] == WideAsUtf8(w, u, |u|).value
    ensures Utf8AsWide(w, b, k) == Some(u[|u|..])
  {
    assert WideAsUtf8(w, u, |u|) == Some([]);
    assert k == |b|;
    assert u[|u|..] == [];
  }

  /** One code point of the wide -> utf8 -> wide round trip: the scalar
      value read at `i`, the units that hold it and the bytes that encode
      it, which the rest of the units and bytes follow. */
  lemma WideRoundTripStep(w: Width, u: seq<U32>, i: nat, b: seq<Byte>, k: nat) returns (cp: U32, i2: nat)
    requires i < |u| && Representable(w, u, i)
    requires WideAsUtf8(w, u, i).Some?
    requires k <= |b| && b[k..] == WideAsUtf8(w, u, i).value
    ensures i < i2 <= |u| && Representable(w, u, i2) && IsScalar(cp)
    ensures u[i..i2] == WideUnits(w, cp)
    ensures k + |Encoding(cp)| <= |b| && b[k..k + |Encoding(cp)|] == Encoding(cp)
    ensures WideAsUtf8(w, u, i2).Some? && b[k + |Encoding(cp)|..] == WideAsUtf8(w, u, i2).value
  {
    var rd, rest := WideAsUtf8Split(w, u, i);
    ReadIsScalar(w, u, i);
    cp, i2 := rd.cp, i + rd.len;
    RepresentableTail(w, u, i, i2);
    SplitSuffix(b, k, Encoding(cp), rest);
  }

  /** wide -> utf8 -> wide reproduces every input `utf8_from_wchar` accepts
      on which `Representable` holds (on `Utf16`, every well-formed UTF-16
      string). The bytes may sit at any offset `k` of a larger buffer. */
  lemma {:induction false} WideRoundTripFrom(w: Width, u: seq<U32>, i: nat, b: seq<Byte>, k: nat)
    requires i <= |u| && Representable(w, u, i)
    requires WideAsUtf8(w, u, i).Some?
    requires k <= |b| && b[k..] == WideAsUtf8(w, u, i).value
    ensures Utf8AsWide(w, b, k) == Some(u[i..])
    decreases |u| - i
  {
    if i < |u| {
      var cp, i2 := WideRoundTripStep(w, u, i, b, k);
      WideRoundTripFrom(w, u, i2, b, k + |Encoding(cp)|);
      EncodingAsUnits(w, b, k, cp, u, i, i2);
    } else {
      WideRoundTripEnd(w, u, b, k);
    }
  }

  lemma WideRoundTrip(w: Width, u: seq<U32>)
    requires Representable(w, u, 0)
    requires WideAsUtf8(w, u, 0).Some?
    ensures Utf8AsWide(w, WideAsUtf8(w, u, 0).value, 0) == Some(u)
  {
    var b := WideAsUtf8(w, u, 0).value;
    assert b[0..] == b;
    WideRoundTripFrom(w, u, 0, b, 0);
  }

  /** A UTF-8 input never needs more wide units than it has bytes, so a
      buffer of `|s| + 1` units always holds the conversion and its 0. */
  lemma {:induction false} Utf8AsWideLength(w: Width, s: seq<Byte>, p: nat)
    requires p <= |s|
    requires Utf8AsWide(w, s, p).Some?
    ensures |Utf8AsWide(w, s, p).value| <= |s| - p
    decreases |s| - p
  {
    if p < |s| {
      var st := NextCode(s, p, |s|).value;
      Utf8AsWideLength(w, s, st.next);
      if st.code > 0xFFFF {
        NextCodeSound(s, p, |s|);
      }
    }
  }

  /** The 32-bit branch passes a surrogate unit through as ED A0 80, which
      the decoder then refuses. */
  lemma Utf32Surrogate()
    ensures WideAsUtf8(Utf32, [0xD800], 0) == Some([0xED, 0xA0, 0x80])
    ensures Utf8AsWide(Utf32, [0xED, 0xA0, 0x80], 0).None?
  {
    assert WideAsUtf8(Utf32, [0xD800], 1) == Some([]);
    assert Encoding(0xD800) + [] == [0xED, 0xA0, 0x80];
    var b: seq<Byte> := [0xED, 0xA0, 0x80];
    assert b[0] == 0xED && b[1] == 0xA0;
    assert NextCode(b, 0, 3).None?;
  }

  /** The 16-bit branch refuses a high surrogate that ends the input or
      precedes a non-surrogate, and a lone low surrogate; a pair becomes
      one four-byte sequence. */
  lemma Utf16Surrogates()
    ensures WideAsUtf8(Utf16, [0xD800], 0).None?
    ensures WideAsUtf8(Utf16, [0xD800, 0x41], 0).None?
    ensures WideAsUtf8(Utf16, [0xDC00], 0).None?
    ensures WideAsUtf8(Utf16, [0xD800, 0xDC00], 0) == Some([0xF0, 0x90, 0x80, 0x80])
  {
    assert NextWide(Utf16, [0xD800, 0xDC00], 0) == Some(Read(0x10000, 2));
    assert WideAsUtf8(Utf16, [0xD800, 0xDC00], 2) == Some([]);
    assert Encoding(0x10000) + [] == [0xF0, 0x90, 0x80, 0x80];
  }

  // ---------------------------------------------------------------------
  // The converters
  // ---------------------------------------------------------------------

  /** `utf8_from_wchar` with an explicit input length: with `out == null` it
      returns the UTF-8 size, otherwise it fills `out[..capacity]` and adds
      a 0 byte; UTF8_UNKNOWN on invalid input or when that does not fit. */
  method FromWide(w: Width, units: seq<U32>, out: array?<Byte>, capacity: nat) returns (r: Conv)
    requires out != null ==> capacity <= out.Length
    modifies out
    ensures out == null ==> r == SizeOnly(WideAsUtf8(w, units, 0))
    ensures out != null ==> r == Filled(WideAsUtf8(w, units, 0), capacity)
    ensures out != null && r.Ok? ==>
      out[..r.count] == WideAsUtf8(w, units, 0).value && out[r.count] == 0
    ensures out != null && r.Ok? ==> out[r.count + 1..] == old(out[r.count + 1..])
    ensures out != null ==> out[capacity..] == old(out[capacity..])
  {
    if out == null {
      r := FromWideSize(w, units);
      return;
    }
    var utf8Size: nat := 0;
    var i: nat := 0;
    PrependNothing(WideAsUtf8(w, units, 0));
    while i != |units|
      invariant i <= |units|
      invariant utf8Size <= capacity
      invariant WideAsUtf8(w, units, 0) == Prepend(out[..utf8Size], WideAsUtf8(w, units, i))
      invariant out[utf8Size..] == old(out[utf8Size..])
      invariant out[capacity..] == old(out[capacity..])
      decreases |units| - i
    {
      var rd := NextWide(w, units, i);
      if rd.None? {
        return Unknown;
      }
      ghost var before := out[..];
      var nextSize := EncodeCodePoint(out, capacity, utf8Size, rd.value.cp);
      if nextSize.Unknown? {
        TooLong(w, units, i, out[..utf8Size], capacity);
        return Unknown;
      }
      ghost var e := Encoding(rd.value.cp);
      Written(out[..], before, utf8Size, nextSize.count, e, capacity);
      SameFrom(before, old(out[..]), utf8Size, nextSize.count);
      AdvanceWide(w, units, i, before[..utf8Size]);
      utf8Size := nextSize.count;
      i := i + rd.value.len;
    }

    PrependAll(out[..utf8Size]);
    if utf8Size >= capacity {
      return Unknown;
    }
    ghost var filled := out[..];
    Terminate(out, utf8Size, capacity, 0);
    SameFrom(filled, old(out[..]), utf8Size, utf8Size + 1);
    return Ok(utf8Size);
  }

  /** The size-only mode of `utf8_from_wchar` (no output buffer): the
      number of bytes the conversion needs, without its terminator. */
  method FromWideSize(w: Width, units: seq<U32>) returns (r: Conv)
    ensures r == SizeOnly(WideAsUtf8(w, units, 0))
  {
    var utf8Size: nat := 0;
    var i: nat := 0;
    PrependNothing(WideAsUtf8(w, units, 0));
    ghost var acc: seq<Byte> := [];
    while i != |units|
      invariant i <= |units|
      invariant utf8Size == |acc|
      invariant WideAsUtf8(w, units, 0) == Prepend(acc, WideAsUtf8(w, units, i))
      decreases |units| - i
    {
      var rd := NextWide(w, units, i);
      if rd.None? {
        return Unknown;
      }
      var n := BytesForCodePoint(rd.value.cp);
      if n == 0 {
        return Unknown;
      }
      AdvanceWide(w, units, i, acc);
      utf8Size := utf8Size + n;
      acc := acc + Encoding(rd.value.cp);
      i := i + rd.value.len;
    }
    PrependAll(acc);
    return Ok(utf8Size);
  }

  /** One round of `utf8_from_wchar`'s loops, against the reference. */
  lemma AdvanceWide(w: Width, units: seq<U32>, i: nat, acc: seq<Byte>)
    requires i < |units| && NextWide(w, units, i).Some?
    requires BytesForCodePoint(NextWide(w, units, i).value.cp) != 0
    ensures var rd := NextWide(w, units, i).value;
      Prepend(acc, WideAsUtf8(w, units, i)) ==
      Prepend(acc + Encoding(rd.cp), WideAsUtf8(w, units, i + rd.len))
  {
    var rd := NextWide(w, units, i).value;
    PrependPrepend(acc, Encoding(rd.cp), WideAsUtf8(w, units, i + rd.len));
  }

  /** When the next encoding does not fit, the whole conversion does not. */
  lemma TooLong(w: Width, units: seq<U32>, i: nat, acc: seq<Byte>, capacity: nat)
    requires i < |units| && NextWide(w, units, i).Some?
    requires var cp := NextWide(w, units, i).value.cp;
      BytesForCodePoint(cp) == 0 || |acc| + BytesForCodePoint(cp) > capacity
    ensures Filled(Prepend(acc, WideAsUtf8(w, units, i)), capacity) == Unknown
  {
  }

  /** Stores the terminating 0 after the content, inside the capacity. */
  method Terminate<T>(out: array<T>, size: nat, capacity: nat, zero: T)
    requires size < capacity <= out.Length
    modifies out
    ensures out[..size] == old(out[..size]) && out[size] == zero
    ensures out[size + 1..] == old(out[size + 1..])
    ensures out[capacity..] == old(out[capacity..])
  {
    out[size] := zero;
  }

  /** `utf8_to_wchar` with an explicit input length: with `out == null` it
      returns the number of wide units, otherwise it fills
      `out[..capacity]` and adds a 0 unit; UTF8_UNKNOWN on invalid UTF-8 or
      when that does not fit. */
  method ToWide(w: Width, s: seq<Byte>, out: array?<U32>, capacity: nat) returns (r: Conv)
    requires out != null ==> capacity <= out.Length
    modifies out
    ensures out == null ==> r == SizeOnly(Utf8AsWide(w, s, 0))
    ensures out != null ==> r == Filled(Utf8AsWide(w, s, 0), capacity)
    ensures out != null && r.Ok? ==>
      out[..r.count] == Utf8AsWide(w, s, 0).value && out[r.count] == 0
    ensures out != null && r.Ok? ==> out[r.count + 1..] == old(out[r.count + 1..])
    ensures out != null ==> out[capacity..] == old(out[capacity..])
  {
    if out == null {
      r := ToWideSize(w, s);
      return;
    }
    var unicodeSize: nat := 0;
    var p: nat := 0;
    PrependNothing(Utf8AsWide(w, s, 0));
    while p < |s|
      invariant p <= |s|
      invariant unicodeSize <= capacity
      invariant Utf8AsWide(w, s, 0) == Prepend(out[..unicodeSize], Utf8AsWide(w, s, p))
      invariant out[unicodeSize..] == old(out[unicodeSize..])
      invariant out[capacity..] == old(out[capacity..])
      decreases |s| - p
    {
      var next := NextCode(s, p, |s|);
      if next.None? {
        return Unknown;
      }
      var cp := next.value.code;
      ghost var p0, before, units := p, out[..unicodeSize], WideUnits(w, cp);
      ghost var pre := out[..];
      AdvanceUtf8(w, s, p, before);
      p := next.value.next;
      if w == Utf16 && cp > 0xFFFF {
        if unicodeSize + 2 > capacity {
          TooManyUnits(w, s, p0, before, capacity);
          return Unknown;
        }
        var c := cp - 0x10000;
        var pair: seq<U32> := [0xD800 + c / 0x400, 0xDC00 + c % 0x400];
        assert pair == units;
        Store(out, unicodeSize, capacity, pair);
        unicodeSize := unicodeSize + 2;
      } else {
        if unicodeSize + 1 > capacity {
          TooManyUnits(w, s, p0, before, capacity);
          return Unknown;
        }
        assert [cp] == units;
        Store(out, unicodeSize, capacity, [cp]);
        unicodeSize := unicodeSize + 1;
      }
      assert out[..unicodeSize] == before + units;
      SameFrom(pre, old(out[..]), |before|, unicodeSize);
    }

    PrependAll(out[..unicodeSize]);
    if unicodeSize >= capacity {
      return Unknown;
    }
    ghost var filled := out[..];
    Terminate(out, unicodeSize, capacity, 0);
    SameFrom(filled, old(out[..]), unicodeSize, unicodeSize + 1);
    return Ok(unicodeSize);
  }

  /** The size-only mode of `utf8_to_wchar` (no output buffer): the number
      of wide units the conversion needs, without its terminator. */
  method ToWideSize(w: Width, s: seq<Byte>) returns (r: Conv)
    ensures r == SizeOnly(Utf8AsWide(w, s, 0))
  {
    var unicodeSize: nat := 0;
    var p: nat := 0;
    PrependNothing(Utf8AsWide(w, s, 0));
    ghost var acc: seq<U32> := [];
    while p < |s|
      invariant p <= |s|
      invariant unicodeSize == |acc|
      invariant Utf8AsWide(w, s, 0) == Prepend(acc, Utf8AsWide(w, s, p))
      decreases |s| - p
    {
      var next := NextCode(s, p, |s|);
      if next.None? {
        return Unknown;
      }
      var cp := next.value.code;
      AdvanceUtf8(w, s, p, acc);
      acc := acc + WideUnits(w, cp);
      p := next.value.next;
      if w == Utf16 {
        unicodeSize := unicodeSize + if cp > 0xFFFF then 2 else 1;
      } else {
        unicodeSize := unicodeSize + 1;
      }
    }
    PrependAll(acc);
    return Ok(unicodeSize);
  }

  /** Stores `e` at `out[size..]`, inside the capacity. */
  method Store<T>(out: array<T>, size: nat, capacity: nat, e: seq<T>)
    requires size + |e| <= capacity <= out.Length
    modifies out
    ensures out[..size + |e|] == old(out[..size]) + e
    ensures out[size + |e|..] == old(out[size + |e|..])
    ensures out[capacity..] == old(out[capacity..])
  {
    var k := 0;
    while k < |e|
      invariant k <= |e|
      invariant out[..size + k] == old(out[..size]) + e[..k]
      invariant out[size + |e|..] == old(out[size + |e|..])
    {
      out[size + k] := e[k];
      k := k + 1;
    }
  }

  /** One round of `utf8_to_wchar`'s loops, against the reference. */
  lemma AdvanceUtf8(w: Width, s: seq<Byte>, p: nat, acc: seq<U32>)
    requires p < |s| && NextCode(s, p, |s|).Some?
    ensures var st := NextCode(s, p, |s|).value;
      Prepend(acc, Utf8AsWide(w, s, p)) ==
      Prepend(acc + WideUnits(w, st.code), Utf8AsWide(w, s, st.next))
  {
    var st := NextCode(s, p, |s|).value;
    PrependPrepend(acc, WideUnits(w, st.code), Utf8AsWide(w, s, st.next));
  }

  /** When the next units do not fit, the whole conversion does not. */
  lemma TooManyUnits(w: Width, s: seq<Byte>, p: nat, acc: seq<U32>, capacity: nat)
    requires p < |s| && NextCode(s, p, |s|).Some?
    requires |acc| + |WideUnits(w, NextCode(s, p, |s|).value.code)| > capacity
    ensures Filled(Prepend(acc, Utf8AsWide(w, s, p)), capacity) == Unknown
  {
  }
}
