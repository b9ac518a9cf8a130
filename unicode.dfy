/** Reference definitions the codec is measured against: Unicode scalar
    values, the UTF-8 syntax of section 4 of RFC 3629 (the same table as
    Table 3-7 in section 3.9 of the Unicode Standard), and the UTF-16
    surrogate ranges of section 2 of RFC 2781. Nothing here looks at how
    the codec computes; the lemmas are about the grammar alone. */
module Unicode {

  /** An octet, as the codec reads it through `const uint8_t *`. */
  type Byte = b: int | 0 <= b < 0x100

  /** A `uint32_t`: code points and wide units after `(uint32_t)` casts. */
  type U32 = x: int | 0 <= x < 0x1_0000_0000

  datatype Option<T> = None | Some(value: T)

  predicate IsSurrogate(c: int) {
    0xD800 <= c <= 0xDFFF
  }

  predicate IsHighSurrogate(c: int) {
    0xD800 <= c <= 0xDBFF
  }

  predicate IsLowSurrogate(c: int) {
    0xDC00 <= c <= 0xDFFF
  }

  /** A Unicode scalar value: a code point that is not a surrogate. */
  predicate IsScalar(c: int) {
    0 <= c <= 0x10FFFF && !IsSurrogate(c)
  }

  /** UTF8-tail = %x80-BF */
  predicate IsTail(b: Byte) {
    0x80 <= b <= 0xBF
  }

  /** UTF8-char of RFC 3629: exactly one well-formed 1 to 4 octet sequence. */
  ghost predicate Utf8Char(c: seq<Byte>) {
    // UTF8-1 = %x00-7F
    (|c| == 1 && c[0] <= 0x7F) ||
    // UTF8-2 = %xC2-DF UTF8-tail
    (|c| == 2 && 0xC2 <= c[0] <= 0xDF && IsTail(c[1])) ||
    // UTF8-3 = %xE0 %xA0-BF UTF8-tail / %xE1-EC 2( UTF8-tail ) /
    //          %xED %x80-9F UTF8-tail / %xEE-EF 2( UTF8-tail )
    (|c| == 3 && IsTail(c[2]) &&
      ((c[0] == 0xE0 && 0xA0 <= c[1] <= 0xBF) ||
       (0xE1 <= c[0] <= 0xEC && IsTail(c[1])) ||
       (c[0] == 0xED && 0x80 <= c[1] <= 0x9F) ||
       (0xEE <= c[0] <= 0xEF && IsTail(c[1])))) ||
    // UTF8-4 = %xF0 %x90-BF 2( UTF8-tail ) / %xF1-F3 3( UTF8-tail ) /
    //          %xF4 %x80-8F 2( UTF8-tail )
    (|c| == 4 && IsTail(c[2]) && IsTail(c[3]) &&
      ((c[0] == 0xF0 && 0x90 <= c[1] <= 0xBF) ||
       (0xF1 <= c[0] <= 0xF3 && IsTail(c[1])) ||
       (c[0] == 0xF4 && 0x80 <= c[1] <= 0x8F)))
  }

  /** The length of the UTF8-char that starts with `b0`, read off the first
      column of the RFC 3629 table; 0 when no UTF8-char starts with it. */
  function CharLength(b0: Byte): (n: nat)
    ensures n <= 4
  {
    if b0 <= 0x7F then 1
    else if 0xC2 <= b0 <= 0xDF then 2
    else if 0xE0 <= b0 <= 0xEF then 3
    else if 0xF0 <= b0 <= 0xF4 then 4
    else 0
  }

  /** UTF8-octets = *( UTF8-char ): the byte string splits into UTF8-chars,
      each as long as its lead byte says. */
  ghost predicate WellFormed(b: seq<Byte>)
    decreases |b|
  {
    b == [] ||
    var k := CharLength(b[0]);
    0 < k <= |b| && Utf8Char(b[..k]) && WellFormed(b[k..])
  }

  /** The lead byte alone fixes the length of a UTF8-char, so no UTF8-char
      is a proper prefix of another. */
  lemma CharLengthOfChar(c: seq<Byte>)
    requires Utf8Char(c)
    ensures CharLength(c[0]) == |c|
  {
  }

  lemma CharIsWellFormed(c: seq<Byte>)
    requires Utf8Char(c)
    ensures WellFormed(c)
  {
    CharLengthOfChar(c);
    assert c[..|c|] == c;
    assert c[|c|..] == [];
  }

  /** A UTF8-char followed by UTF8-octets is UTF8-octets. */
  lemma PrependChar(c: seq<Byte>, b: seq<Byte>)
    requires Utf8Char(c) && WellFormed(b)
    ensures WellFormed(c + b)
  {
    CharLengthOfChar(c);
    var cb := c + b;
    assert cb[0] == c[0];
    assert cb[..|c|] == c;
    assert cb[|c|..] == b;
  }

  lemma Associative<T>(x: seq<T>, y: seq<T>, z: seq<T>)
    ensures x + (y + z) == (x + y) + z
  {
  }

  /** A suffix that is a concatenation splits into its two parts. */
  lemma SplitSuffix<T>(x: seq<T>, k: nat, y: seq<T>, z: seq<T>)
    requires k <= |x| && x[k..] == y + z
    ensures x[k..k + |y|] == y && x[k + |y|..] == z
  {
    assert x[k..k + |y|] == x[k..][..|y|];
    assert x[k + |y|..] == x[k..][|y|..];
  }

  /** Adjacent slices join up. */
  lemma Rejoin<T>(x: seq<T>, i: nat, j: nat, k: nat)
    requires i <= j <= k <= |x|
    ensures x[i..j] + x[j..k] == x[i..k]
  {
  }

  lemma RejoinTail<T>(x: seq<T>, i: nat, j: nat)
    requires i <= j <= |x|
    ensures x[i..j] + x[j..] == x[i..]
  {
  }

  /** UTF8-octets followed by a UTF8-char is UTF8-octets. */
  lemma {:induction false} AppendChar(b: seq<Byte>, c: seq<Byte>)
    requires WellFormed(b) && Utf8Char(c)
    ensures WellFormed(b + c)
    decreases |b|
  {
    if b == [] {
      assert b + c == c;
      CharIsWellFormed(c);
    } else {
      var k := CharLength(b[0]);
      AppendChar(b[k..], c);
      var bc := b + c;
      assert bc[0] == b[0];
      assert bc[..k] == b[..k];
      assert bc[k..] == b[k..] + c;
    }
  }
}
