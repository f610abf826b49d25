# Bencode value decoder

This project models `bencode_decode` from `src/bencoding.rs` and proves properties about it. The function is the bencode decoder of a small BitTorrent client. Bencode is the encoding of BitTorrent metainfo, described in the bencoding section of BEP 3, "The BitTorrent Protocol Specification". The decoder handles two of bencode's forms:

- an integer `i<decimal>e`, which decodes to `Integer(i64)`;
- a byte string `<length>:<bytes>`, which decodes to `String`.

It returns one value and no remainder. It has no lists and no dictionaries. It panics whenever neither form matches.

The project has three files:

- `parse.dfy` (module `IntParse`) models Rust's `str::parse::<i64>()` and `str::parse::<usize>()`, which the decoder uses. They follow the rules of core's `from_str_radix`:
  - an empty text is rejected;
  - a lone sign is rejected;
  - a `+` is skipped;
  - a `-` is skipped only for a signed type;
  - every remaining byte must be an ASCII digit;
  - the value is built from the left with checked multiply and add (subtract for a negative number), so any overflow is an error.

  This parser is proved equal to a separate grammar (optional sign, then one or more digits) plus a range check. It is also proved to invert `Decimal` and `Digits`, which print a number as canonical decimal text.
- `bencoding.dfy` (module `Bencoding`) has the value type and `Decode`. `Decode` is built from models of `strip_prefix`, `split_once` and `&s[..end]`. `Decode` is characterised against `IntegerForm` and `StringForm`, which describe what the decoder accepts without reference to its code. Each helper has its own complete contract. The module also has round-trip lemmas and the failure cases.
- `vectors.dfy` (module `BencodingVectors`) has the three unit tests of the source and further concrete inputs, each stated as a lemma.

Modelling decisions:

- **Input.** The input `&str` is modelled as its UTF-8 bytes, `seq<byte>`. The sigils `i`, `e` and `:` are ASCII bytes, and an ASCII byte never occurs inside a multi-byte UTF-8 sequence. So searching bytes finds the same positions that Rust's character-level `strip_prefix` and `split_once` find.
- **Slicing.** The slice `rest[..len]` is taken by byte position, as in Rust. It is modelled with Rust's `is_char_boundary` rule, so both of its panics are failures: a `len` past the end of the text, and a `len` that falls inside a multi-byte character.
- **Failures.** Every panic becomes the single failure outcome `None` of `Option<Value>`. These are the final `panic!` and the slice panics.
- **Integers.** `i64` is a newtype over `[-2^63, 2^63-1]`, so every `Integer` result lies in range by its type.
- **`usize`.** It is taken as 64 bits wide, with bound `2^64-1`.

The model follows the code wherever it departs from the bencode format in general:

- A full bencode decoder also handles lists and dictionaries, returns the undecoded remainder and reports kinds of error. This code does none of that.
- BEP 3 writes a length as plain digits, and an integer with `-` as its only sign. Rust's `parse` also accepts a leading `+` in both places, so the model accepts it too. `PlusLength` shows this.

## Model

| member | source | states |
|---|---|---|
| `IntParse.Accumulate` | src/bencoding.rs:10-16 | the checked digit loop of `parse` never yields a value outside the target type's range |
| `IntParse.ParseInteger` | src/bencoding.rs:10-16 | the sign handling of `parse` in front of the digit loop, shared by the `i64` parse and the `usize` parse, keeps the result within the target range |
| `IntParse.ParseIntegerCorrect` | src/bencoding.rs:10-16 | the sign handling and digit loop together accept exactly the decimal texts of the target's grammar (an optional `+`/`-` when signed, an optional `+` when unsigned) whose value lies in the target range, and return that value |
| `IntParse.ParseI64` | src/bencoding.rs:10 | `num.parse::<i64>()`: a result is always the value of a signed decimal text, and every signed decimal text with a value in the i64 range yields that value (stated again as the if-and-only-if `ParseI64Correct`) |
| `IntParse.ParseUsize` | src/bencoding.rs:16 | `len.parse::<usize>()`: a result is always at most `2^64-1` and the value of an optional-`+` decimal text, and every such text with a value in range yields that value (stated again as the if-and-only-if `ParseUsizeCorrect`) |
| `IntParse.AccumulateCorrect` | src/bencoding.rs:10 | the checked digit loop yields exactly the signed value of the digits when that value is in range and every byte is a digit, and fails otherwise, so an overflow at any step is the same as an out-of-range total |
| `IntParse.ParseI64Correct` | src/bencoding.rs:10 | `parse::<i64>` returns `n` if and only if the text is an optional `+`/`-` followed by one or more digits denoting `n`, and `n` is within the i64 range |
| `IntParse.ParseUsizeCorrect` | src/bencoding.rs:16 | `parse::<usize>` returns `n` if and only if the text is an optional `+` followed by one or more digits denoting `n`, and `n <= 2^64-1`; a `-` is never accepted |
| `IntParse.ParseUsizeLeadingByte` | src/bencoding.rs:16 | any text that `parse::<usize>` accepts is non-empty and starts with `+` or a digit |
| `IntParse.ParseI64Decimal` | src/bencoding.rs:10 | round trip: parsing the decimal text of any i64 gives that i64 back |
| `IntParse.ParseUsizeDigits` | src/bencoding.rs:16 | round trip: parsing the digits of any `usize` gives it back |
| `IntParse.ParseI64LeadingZeros` | src/bencoding.rs:10 | leading zeros after an optional `-` are accepted as they are, with no normalisation error, and `-0` parses as 0 |
| `Bencoding.StripPrefix` | src/bencoding.rs:8 | succeeds exactly when the text starts with the byte, and then the text is that byte followed by the result |
| `Bencoding.IndexOf` | src/bencoding.rs:15 | the result is a position holding the byte with no earlier occurrence, or there is no occurrence at all |
| `Bencoding.SplitOnce` | src/bencoding.rs:9-15 | fails exactly when the separator is absent; otherwise the text is `before + sep + after` and `before` has no separator |
| `Bencoding.IsCharBoundary` | src/bencoding.rs:17 | Rust's `str::is_char_boundary`, which decides whether `rest[..len]` panics: a boundary never lies past the end, and a position holding an ASCII byte is always a boundary |
| `Bencoding.SlicePrefix` | src/bencoding.rs:17 | `&s[..end]` succeeds exactly at a character boundary (so never past the end), with a result of length `end` that is a prefix of `s` |
| `Bencoding.IntegerBranch` | src/bencoding.rs:8-13 | the integer branch yields a value only when the input starts with `i` and has an `e` after it |
| `Bencoding.IntegerBranchIff` | src/bencoding.rs:8-13 | the integer branch returns `n` if and only if the input is `i`, then a signed decimal text for an in-range `n` that holds no `e`, then `e`, then anything |
| `Bencoding.Decode` | src/bencoding.rs:7-21 | an `Integer` comes only from input starting with `i`; a `String` comes only from input not starting with `i`, and it is shorter than the input |
| `Bencoding.StringFormNotInteger` | src/bencoding.rs:15-16 | an input of the string form never starts with `i` |
| `Bencoding.DecodeIntegerIff` | src/bencoding.rs:8-14 | the result is `Integer(n)` if and only if the input is `i`, then a signed decimal text for an in-range `n` that holds no `e`, then `e`, then anything; this branch takes priority over the string branch |
| `Bencoding.DecodeStringIff` | src/bencoding.rs:15-19 | the result is `String(p)` if and only if the input is an unsigned decimal `L` in the `usize` range with no `:`, then `:`, then at least `L` bytes whose first `L` are `p`, with a character boundary after them |
| `Bencoding.DecodeFailsIff` | src/bencoding.rs:7-21 | decoding fails (panics) if and only if the input is of neither the integer form nor the string form |
| `Bencoding.StartsWithINeverString` | src/bencoding.rs:8-16 | an input starting with `i` decodes to an `Integer` or fails, never to a `String` |
| `Bencoding.DecodeIntegerParsed` | src/bencoding.rs:8-11 | `i`, then any text without `e` that parses as `n`, then `e`, then anything, decodes to `Integer(n)` |
| `Bencoding.DecodeIntegerText` | src/bencoding.rs:8-11 | for every i64 `n` and every trailing text `t`, `"i" + decimal(n) + "e" + t` decodes to `Integer(n)`; everything after the first `e` is ignored |
| `Bencoding.DecodeIntegerOverflow` | src/bencoding.rs:8-20 | `"i" + decimal(n) + "e" + t` fails for any `n` outside the i64 range, whatever `t` is |
| `Bencoding.DecodeIntegerLeadingZeros` | src/bencoding.rs:10 | `i`, an optional `-`, any number of zeros, the digits of `n`, `e`, then anything, decodes to the signed value of `n` |
| `Bencoding.DecodeStringText` | src/bencoding.rs:15-17 | `decimal(L) + ":" + s` with `L` at most the length of `s` and a boundary at `L` decodes to `String(s[..L])`: exactly `L` bytes, which may contain `:`, with the rest ignored |
| `Bencoding.AsciiIsCharBoundary` | src/bencoding.rs:17 | in an ASCII payload every cut is on a character boundary, so there the slice panics only past the end |
| `Bencoding.DecodeStringTooShort` | src/bencoding.rs:17 | a declared length beyond the bytes after `:` fails, as the slice panics |
| `BencodingVectors.StringValue` | src/bencoding.rs:28-33 | `"4:spam"` decodes to `String("spam")` |
| `BencodingVectors.EmptyString` | src/bencoding.rs:36-38 | `"0:"` decodes to `String("")` |
| `BencodingVectors.PositiveInteger` | src/bencoding.rs:41-43 | `"i15e"` decodes to `Integer(15)` |
| `BencodingVectors.ColonInPayload` | src/bencoding.rs:15-17 | `"3:a:b"` decodes to `String("a:b")` |
| `BencodingVectors.PayloadBeyondLength` | src/bencoding.rs:17 | `"2:abcd"` decodes to `String("ab")` |
| `BencodingVectors.PlusLength` | src/bencoding.rs:16 | `"+3:abc"` decodes to `String("abc")` |
| `BencodingVectors.NegativeLength` | src/bencoding.rs:16 | `"-1:a"` fails |
| `BencodingVectors.LengthPastEnd` | src/bencoding.rs:17 | `"5:ab"` fails |
| `BencodingVectors.LengthInsideCharacter` | src/bencoding.rs:17 | `"1:é"` fails, because the cut falls inside the two-byte character |
| `BencodingVectors.NegativeInteger` | src/bencoding.rs:10 | `"i-4e"` decodes to `Integer(-4)` |
| `BencodingVectors.NegativeZero` | src/bencoding.rs:10 | `"i-0e"` decodes to `Integer(0)` |
| `BencodingVectors.LeadingZeros` | src/bencoding.rs:10 | `"i007e"` decodes to `Integer(7)` |
| `BencodingVectors.TrailingIgnored` | src/bencoding.rs:9 | `"i1e5:extra"` decodes to `Integer(1)` |
| `BencodingVectors.EmptyInteger` | src/bencoding.rs:10-20 | `"ie"` fails |
| `BencodingVectors.UnrecognisedInput` | src/bencoding.rs:20 | `"x"` fails |
| `BencodingVectors.SmallestInteger` | src/bencoding.rs:10 | `i`, the text built by `Decimal(-2^63)`, then `e` decodes to the smallest i64, which `parse` reaches by subtracting digits |
| `BencodingVectors.IntegerOverflow` | src/bencoding.rs:10-20 | `i`, the text built by `Decimal(2^63)` (one past the largest i64), then `e` fails |

## Left out

- `src/main.rs` is not part of this model. It is a demo entry point that decodes `"0:"` once and prints the result, which is I/O only.
- The panic message (`Unhandled encoded value: …`) and the unwinding itself are left out. Every panic is the single outcome `None`.
- `BencodingValue`'s derived `Debug`, `PartialEq` and `Eq` are left out. Equality of Dafny datatypes stands in for `PartialEq`.
- The copy made by `to_string()` is left out. The payload is a value.
- The input is not required to be valid UTF-8, because Rust's `&str` already guarantees that. On valid UTF-8 input the byte model and Rust agree. On other bytes the model still gives an answer, but no Rust input could produce those bytes.
- The width of `usize` is fixed at 64 bits. On a 32-bit target, lengths between `2^32` and `2^64-1` would fail to parse rather than fail at the slice. Either way the decoder fails.
- Lists, dictionaries, a remainder output, typed error kinds, byte offsets and a depth limit are not modelled, because the decoder has none of them.
