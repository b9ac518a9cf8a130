# A verified model of the irov/utf8 codec

The irov/utf8 library (`src/utf8.c`) is a small sequential UTF-8 codec. It has:

- a strict one-code-point decoder, `utf8_next_code`;
- a validator, `utf8_validate`, which loops that decoder;
- a sanitizer, `utf8_replace_invalid`, which copies valid sequences and puts U+FFFD in place of every byte that does not start one;
- three scalar encoders: `utf8_bytes_for_code_point`, `utf8_encode_code_point` (checks capacity) and `utf8_append_code_point` (does not);
- two bulk converters between UTF-8 and `wchar_t`: `utf8_from_wchar` and `utf8_to_wchar`.

This project models each of these in Dafny and proves what the header comments and the tests promise about them.

Modules:

- `Unicode` (`unicode.dfy`) holds the reference definitions. These are the scalar values, the UTF8-char grammar of section 4 of RFC 3629, and the surrogate ranges of RFC 2781. It also has lemmas about that grammar alone.
- `Utf8` (`utf8.dfy`) holds the byte-level codec.
  - The decoder is the function `NextCode`.
  - The encoders and the sanitizer are methods that write into arrays. The validator is a method over a byte sequence.
  - Each method is proved against a specification function: `Encoding` for the encoders, `WellFormed` for the validator and `Sanitize` for the sanitizer.
- `Wide` (`wide.dfy`) holds the bulk converters.
  - The build-time switch `UTF8_WCHAR_UTF16` becomes an explicit `Width` parameter (`Utf16` or `Utf32`), so both branches of the source are modelled.
  - A null output pointer is `out == null`, which is size-only mode.
  - The sentinel `UTF8_UNKNOWN` is the `Unknown` variant of the result type `Conv`; a count is `Ok(count)`.
  - Each converter is proved against a reference function: `WideAsUtf8` or `Utf8AsWide`.
- `Vectors` (`vectors.dfy`) restates the concrete cases of `tests/test_utf8.c` against the model.

The decoder's bit masks are written as the byte ranges they select, and its shifts as multiplication and division. The comment on `Utf8.ReadSequence` gives the correspondence.

## Model

| member | source | states |
|---|---|---|
| Utf8.BytesForCodePoint | src/utf8.c:12-23 | The length is at most 4. It is 0 exactly for code points at or above 0x110000, and 1 exactly below 0x80. |
| Vectors.LengthThresholds | src/utf8.c:12-23 | The length changes from 1 to 2 at 0x80, from 2 to 3 at 0x800, from 3 to 4 at 0x10000, and from 4 to 0 at 0x110000. |
| Utf8.Encoding | src/utf8.c:31-52 | The bytes written for a code point below 0x110000 are exactly `utf8_bytes_for_code_point` bytes long. |
| Utf8.EncodingIsChar | src/utf8.c:31-52 | The encoding of every scalar value is one well-formed RFC 3629 UTF8-char, so it is never overlong. |
| Utf8.EncodingInjective | src/utf8.c:31-52 | Two code points below 0x110000 with the same encoding are equal. |
| Utf8.EncodeCodePoint | src/utf8.c:25-54 | When the length is 0 or `offset + n` exceeds the capacity, the result is the sentinel and nothing in the buffer changes. Otherwise the result is `offset + n`, the encoding fills `[offset, offset + n)`, and every other byte is unchanged. |
| Utf8.AppendCodePoint | src/utf8.c:371-397 | It returns the position just past the encoding, writes the encoding at the old position, and changes no other byte. |
| Utf8.ReadSequence | src/utf8.c:236-339 | The lead-byte dispatch consumes 1 to 4 bytes, all before `end`, and yields a value of at most 0x10FFFF. |
| Utf8.NextCode | src/utf8.c:223-352 | On success the new position is after `p` and at most `min(end, p + 4)`, and the value is a scalar value: at most 0x10FFFF and not a surrogate. |
| Utf8.NextCodeLocal | src/utf8.c:236-339 | The result depends only on `s[p..end]`: decoding that slice on its own gives the same step, shifted by `p`. |
| Utf8.NoOverRead | src/utf8.c:251-310 | Two buffers that agree on `[p, end)` decode the same, so no byte at or after `end` is ever read. This covers truncated sequences. |
| Utf8.NextCodeSound | src/utf8.c:236-351 | Whatever is accepted is one RFC 3629 UTF8-char, and it is exactly the encoding of the returned value. |
| Utf8.NextCodeComplete | src/utf8.c:236-351 | Every UTF8-char that starts at `p` and ends by `end` is accepted, and exactly that char is consumed. |
| Utf8.DecodeEncoding | src/utf8.c:25-54 | Decoding the encoding of any scalar value gives that value back and consumes exactly `utf8_bytes_for_code_point` bytes. |
| Utf8.WellFormedAt | src/utf8.c:356-366 | A non-empty range is well formed exactly when one decode succeeds and the range left after it is well formed. |
| Utf8.ValidateStep | src/utf8.c:356-366 | One round of the validator: a refused position starts an ill-formed range; otherwise the checked prefix grows by one char and well-formedness of the rest is unchanged. |
| Utf8.Validate | src/utf8.c:354-369 | For a non-empty range the result lies in `[begin, end]`. It equals `end` exactly when `s[begin..end]` is well formed. Otherwise it is the start of the first refused unit: the prefix before it is well formed and the decoder refuses there. For `end <= begin` it returns `end`. |
| Utf8.ReplacementBytes | src/utf8.c:9 | U+FFFD encodes as EF BF BD. |
| Utf8.SanitizeStep | src/utf8.c:401-418 | One round of the sanitizer: a decoded scalar is re-encoded and the scan moves past it; a refused byte becomes U+FFFD and the scan moves by one byte. Each round emits at most 3 bytes per input byte consumed. |
| Utf8.SanitizeRefused | src/utf8.c:403-417 | A byte where decoding fails becomes EF BF BD, and the scan goes on at the very next byte. |
| Utf8.SanitizeResync | src/utf8.c:403-417 | A refused byte followed by well-formed input gives EF BF BD followed by that input unchanged. |
| Utf8.SanitizeBound | src/utf8.c:399-421 | The output is at most three times as long as the input. |
| Utf8.SanitizeValid | src/utf8.c:399-421 | Well-formed input is copied unchanged. |
| Utf8.SanitizeWellFormed | src/utf8.c:399-421 | The output is always well formed. |
| Utf8.SanitizeIdempotent | src/utf8.c:399-421 | Sanitizing the output again changes nothing. |
| Utf8.Sanitize | src/utf8.c:401-418 | No contract of its own. It defines the bytes the sanitizer loop writes: each decoded scalar value re-encoded, and EF BF BD for each refused byte, after which the scan moves on by one byte. |
| Utf8.ReplaceInvalid | src/utf8.c:399-421 | It returns the output length, which is at most `3 * (end - begin)`. The output prefix is the sanitized input, and nothing after the returned length is written. |
| Wide.WideAsUtf8 | src/utf8.c:67-141 | No contract of its own. It defines the bytes `utf8_from_wchar` produces for the wide input, or None where a unit is refused or a code point has no encoding. |
| Wide.WideUnits | src/utf8.c:189-209 | No contract of its own. It defines the units `utf8_to_wchar` stores for one scalar value: a high/low surrogate pair above U+FFFF on `Utf16`, one unit otherwise. |
| Wide.Utf8AsWide | src/utf8.c:166-211 | No contract of its own. It defines the units `utf8_to_wchar` produces for the UTF-8 input, or None where the decoder refuses a sequence. |
| Wide.SizeOnly | src/utf8.c:166-180 | No contract of its own. It defines the size-only result: the conversion's length, or the sentinel where the conversion refuses. The same return ends the size loop of `utf8_from_wchar` at `src/utf8.c:104`. |
| Wide.NextWide | src/utf8.c:73-97 | The unit decode reads 1 or 2 units, all inside the input. |
| Wide.Filled | src/utf8.c:143-150 | Fill mode succeeds exactly when the conversion succeeds and its length is below the capacity, which leaves room for the 0. It then returns the same count as size-only mode. |
| Wide.SurrogatePair | src/utf8.c:189-197 | A scalar value above U+FFFF is stored as a high surrogate and then a low surrogate that recombine to it, as section 2.1 of RFC 2781 specifies. |
| Wide.PairValue | src/utf8.c:75-84 | A high surrogate followed by a low surrogate decodes to a scalar value in [0x10000, 0x10FFFF] whose own UTF-16 form is that pair, as section 2.2 of RFC 2781 specifies. |
| Wide.ReadWideUnits | src/utf8.c:73-97 | Reading back the units stored for a scalar value gives that value and consumes exactly those units. |
| Wide.ReadIsScalar | src/utf8.c:73-97 | On input where the 16-bit branch sees no unit above 0xFFFF and the 32-bit branch no surrogate, whatever is read below 0x110000 is a scalar value, and storing it again gives exactly the units read. |
| Wide.Utf16Surrogates | src/utf8.c:73-93 | On the inputs `[D800]` (a high surrogate at the end), `[D800 0041]` (a high surrogate followed by a non-surrogate) and `[DC00]` (a lone low surrogate), the 16-bit branch refuses. On `[D800 DC00]` it produces F0 90 80 80. |
| Wide.Utf32Surrogate | src/utf8.c:95-101 | The 32-bit branch passes the unit 0xD800 through as ED A0 80, and `utf8_to_wchar` refuses those bytes. |
| Wide.Utf8AsWideTotal | src/utf8.c:168-179 | Every well-formed UTF-8 input converts to wide units. |
| Wide.Utf8AsWideLength | src/utf8.c:168-179 | A conversion never needs more wide units than the input has bytes. |
| Wide.Utf8RoundTrip | src/utf8.c:56-221 | On either width, converting well-formed UTF-8 to wide units and back reproduces it. |
| Wide.WideRoundTrip | src/utf8.c:56-221 | On either width, wide input that converts to UTF-8 converts back to itself. The condition on the input is that the 16-bit branch sees no unit above 0xFFFF and the 32-bit branch no surrogate. |
| Wide.AdvanceWide | src/utf8.c:107-141 | One round of `utf8_from_wchar`'s loops appends the next code point's encoding to what is done and moves past the units read. |
| Wide.TooLong | src/utf8.c:99-101 | An unencodable code point, or an encoding that would pass the capacity, makes the whole fill fail. |
| Wide.FromWideSize | src/utf8.c:67-105 | Size-only mode returns the length of the UTF-8 conversion, or the sentinel on invalid input. |
| Wide.FromWide | src/utf8.c:56-151 | Size-only mode is as in `FromWideSize`. Fill mode returns `Filled` of the conversion; on success the output holds the conversion followed by a 0, and nothing after the 0 changes. Nothing at or beyond the capacity is ever written. |
| Wide.Terminate | src/utf8.c:143-150 | The terminating 0 is stored right after the content, inside the capacity. The content and everything after the 0 are kept. |
| Wide.AdvanceUtf8 | src/utf8.c:182-211 | One round of `utf8_to_wchar`'s loops appends the units of the next scalar value and moves past its bytes. |
| Wide.TooManyUnits | src/utf8.c:189-207 | When the next scalar value's units would pass the capacity, the whole fill fails. |
| Wide.Store | src/utf8.c:189-209 | The units are stored right after the content, which is kept, and nothing after the stored units changes, so nothing at or beyond the capacity is written. |
| Wide.ToWideSize | src/utf8.c:166-180 | Size-only mode returns the number of wide units of the conversion (2 per scalar value above U+FFFF on `Utf16`), or the sentinel on invalid UTF-8. |
| Wide.ToWide | src/utf8.c:153-221 | Size-only mode is as in `ToWideSize`. Fill mode returns `Filled` of the conversion; on success the output holds the units followed by a 0, and nothing after the 0 changes. Nothing at or beyond the capacity is ever written. |
| Vectors.EmptyRange | tests/test_utf8.c:25 | An empty range is an error. |
| Vectors.DecodeOneOfEachLength | tests/test_utf8.c:23-45 | U+0041, U+043F, U+65E5 and U+10346 decode from 1, 2, 3 and 4 bytes. |
| Vectors.DecodeRefusals | tests/test_utf8.c:47-65 | A lone continuation byte, the overlong C0 81, the encoded surrogate ED A0 80 and the truncated E6 97 are refused. |
| Vectors.DecodeTwice | tests/test_utf8.c:67-74 | Two successive decodes of "Hi" advance a byte each, and the end of the range is an error. |
| Vectors.ValidateStopsAtBadByte | tests/test_utf8.c:95-97 | In "hel", 0x80, "lo", the prefix before index 3 is well formed, the decoder refuses at index 3, and the whole input is not well formed. |
| Vectors.ValidateHello | tests/test_utf8.c:95-97 | `Validate` on "hel", 0x80, "lo" returns 3. |
| Vectors.SanitizeLoneContinuation | tests/test_utf8.c:121-129 | 61 80 62 sanitizes to 61 EF BF BD 62. |
| Vectors.EncodeVectors | tests/test_utf8.c:215-247 | The encoder's outputs at the table boundaries and the known characters, and length 0 beyond U+10FFFF. |
| Vectors.CyrillicFromWide | tests/test_utf8.c:153-166 | "при" as wide units becomes six UTF-8 bytes on both widths. It does not fit in a buffer of 2 and fits in one of 64. |
| Vectors.CyrillicToWide | tests/test_utf8.c:194-205 | "при" in UTF-8 becomes three wide units on both widths, and a lone 0x80 is refused. |

## Left out

- Null-pointer checks on the input (`src/utf8.c:62`, `:161`, `:225`) are not modelled. Inputs are Dafny sequences, which always exist. A null output pointer in the converters is kept, as size-only mode.
- The length mode that calls `wcslen` or `strlen` (`src/utf8.c:58`, `:155`) is not modelled. These are libc calls. The converters take the input with its explicit length.
- The `WCHAR_MAX` test behind `UTF8_WCHAR_UTF16` (`src/utf8.c:10`) is a platform trait. It is replaced by the explicit `Width` parameter.
- `size_t` overflow is not modelled; counts are unbounded naturals. Neither is the sentinel `(size_t)-1` being indistinguishable from a real count of that size.
- Wide.FromWide, Wide.ToWide: on failure in fill mode the source leaves a partial conversion in the buffer. The model promises only that nothing at or beyond the capacity changed, not what the partial prefix holds. On success the whole buffer is specified.
- Utf8.AppendCodePoint: requires a code point below 0x110000. For larger values the C code still writes four bytes, but the bit fields overlap. For some values the output is ill-formed (F4 90 80 80 for 0x110000). For others it is the valid encoding of another character (F0 90 80 80, which is U+10000, for 0x410000). Above 0x3FFFFFF the `(char)` cast also drops high bits of the lead byte. Its only caller, `utf8_replace_invalid`, always passes a scalar value or U+FFFD.
- Utf8.ReplaceInvalid: requires `begin <= end`. For `begin > end` the source never terminates. The decoder refuses at once without reading (`src/utf8.c:225`), `p += 1` moves `p` further from `end`, and every round appends EF BF BD, so the output overruns any buffer.
- The 32-bit branch of `utf8_from_wchar` does not refuse surrogate units, and the model follows the code. The library's own tests expect a lone surrogate unit to be refused (`tests/test_utf8.c:168-172`), which holds only on the 16-bit branch. `Wide.Utf32Surrogate` states the consequence.
- The names that `tests/test_utf8.c` calls but `src/utf8.c` does not define are not modelled: `utf8_from_unicodez`, `utf8_from_unicodez_size`, `utf8_to_unicodez` and `utf8_from_unicode32_symbol`. The same goes for a standalone scalar encoder that refuses surrogates: no such function exists in `src/utf8.c`. The file `tests/test_utf8.c` is used only as evidence for the `Vectors` lemmas; its `main` and its output are not modelled.
- Utf8.ReplaceInvalid: the output pointer is unbounded in the source. It is modelled as an array with at least `3 * (end - begin)` cells, the bound the header promises. The header (`include/utf8/utf8.h:66`) mentions a NULL result on error, but the code never returns one, so neither does the model.
- The `(char)` and `(wchar_t)` casts on stores are not modelled. Every stored value is in range (bytes below 0x100; wide units below 0x110000, or below 0x10000 on `Utf16`), so the casts never truncate.
- Concurrency and memory aliasing between the input and the output are not modelled. The input is an immutable sequence, so the output cannot overlap it.
