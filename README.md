# Cadence account addresses

A Dafny model of the account address type in the Cadence runtime's `common`
package (`runtime/common/address.go`). An address is a fixed array of eight
bytes, most significant byte first. The package:

- builds an address from a byte string of any length, cropping long input
  from the left and zero-filling short input on the left;
- trims leading zero bytes off an address;
- prints an address as sixteen lower-case hexadecimal digits, or in the short
  form "0x" followed by the digits with their leading '0's removed;
- parses hexadecimal text, with or without "0x" and of odd or even length,
  back into an address.

Layout:

- `wrappers.dfy`: `Option` and `Result`.
- `bytes.dfy`: the byte type, zero runs, stripping leading zeros, and the
  big-endian value of a byte string.
- `strings.dfy`: the two functions of Go's `strings` package that the code
  calls, `TrimPrefix` and `TrimLeft`.
- `hexencoding.dfy`: the parts of Go's `encoding/hex` and `fmt` that are used:
  the `%x` encoder, `hex.DecodeString` with its two error kinds, and the number
  a hexadecimal text denotes.
- `address.dfy`, module `Common`: the address operations themselves.
  - `Address` is a sequence of exactly eight bytes.
  - The pointer-receiver `SetBytes` works on an `array<byte>` of length eight,
    which it updates in place.
  - The loop of `bytesWithoutLeadingZeros` is a method with a `for` loop.

The main results are these round trips and value laws:

- parsing the printed form gives back the address, for both the long form and
  the short form;
- building an address from its trimmed bytes gives back the address;
- decoding undoes encoding;
- the parsed address holds the number the text denotes, modulo 2^64;
- the short form is "0x" exactly for the zero address, and account 1 prints
  as "0x1".

The doc comment of `SetBytes` says it panics when the input is longer than
the address. The code crops the input to its last eight bytes instead. The
model follows the code.

## Model

| member | source | states |
|---|---|---|
| Common.BytesToAddress | runtime/common/address.go:31-38 | Input longer than eight bytes is cropped to its last eight bytes. Shorter input is right-aligned behind zero bytes. Byte i of the result is 0 or byte i+len(b)-8 of the input. |
| Common.ValueOfBytesToAddress | runtime/common/address.go:31-38 | The address "with value b" holds the big-endian value of b modulo 2^64. Cropping from the left keeps exactly the low-order bytes. |
| Common.SetBytes | runtime/common/address.go:49-58 | Over-long input is cropped to its last eight bytes. The input is copied into the tail of the address. The bytes before the tail are unchanged. The tail holds the bytes of BytesToAddress(b). |
| Common.BytesToAddressBySetBytes | runtime/common/address.go:34-37 | Calling SetBytes on a zeroed address yields exactly BytesToAddress(b). |
| Common.Hex | runtime/common/address.go:40-43 | Sixteen lower-case hexadecimal digits, two per byte, high nibble first, bytes in order. |
| HexEncoding.EncodeToString | runtime/common/address.go:42 | `%x` on a byte slice gives two characters per byte, all lower-case hexadecimal. |
| HexEncoding.EncodeAt | runtime/common/address.go:42 | Byte i is printed at positions 2i and 2i+1, as its high and then its low nibble. |
| Common.String | runtime/common/address.go:45-47 | String is Hex: the same sixteen digits. |
| Common.BytesWithoutLeadingZeros | runtime/common/address.go:60-69 | On the fast path, a nonzero first byte returns the whole address. In all cases the result is the address with its leading zero bytes removed. |
| Common.BytesWithoutLeadingZerosLoop | runtime/common/address.go:71-83 | The result is a suffix of the address. Every byte dropped is zero. The first byte kept is nonzero. The result equals StripLeadingZeros(a). |
| Bytes.StripLeadingZeros | runtime/common/address.go:71-83 | Reference definition of trimming: a suffix whose dropped prefix is all zero and whose first byte, if any, is nonzero. |
| Bytes.StripLeadingZerosUnique | runtime/common/address.go:74-82 | Any cut point with only zeros before it and a nonzero byte (or the end) at it is the trimming result. This is what makes the loop's count correct. |
| Common.BytesToAddressOfStripped | runtime/common/address.go:60-83 | Building an address from the trimmed bytes gives back the original address, so trimming loses nothing. |
| Strings.TrimLeft | runtime/common/address.go:87 | strings.TrimLeft drops the longest prefix made of cutset characters. What is left does not start with one. |
| Common.ShortHexWithPrefix | runtime/common/address.go:85-88 | "0x" followed by a suffix of Hex(a). Every digit dropped is '0'. The first digit after "0x", if any, is not '0'. |
| Common.ShortHexIsPrefixOnly | runtime/common/address.go:85-88 | The short form is just "0x" if and only if the address is the zero address. |
| Common.ShortHexOfZero | runtime/common/address.go:85-88 | The zero address prints as "0x". |
| Common.ShortHexOfDigit | runtime/common/address.go:85-88 | An address whose value is one nonzero hexadecimal digit prints as "0x" followed by that digit. |
| Common.ShortHexOfAccountOne | runtime/interpreter/errors_test.go:32-38 | The address built from the byte 0x1 prints as "0x1", as the error message of the test expects. |
| Strings.TrimPrefix | runtime/common/address.go:92 | strings.TrimPrefix removes the prefix exactly when the text starts with it. Otherwise it returns the text unchanged. |
| Common.PadToEvenLength | runtime/common/address.go:93-95 | Odd-length text gets a '0' in front. The result has even length. It is all hex exactly when the input is. |
| HexEncoding.DecodeString | runtime/common/address.go:96 | hex.DecodeString succeeds if and only if the text has even length and only hexadecimal digits of either case. On even-length text every failure is an invalid-byte error. On success there are half as many bytes as characters. |
| HexEncoding.DecodeEncode | runtime/common/address.go:96 | Decoding the `%x` form of any byte string gives back those bytes. |
| HexEncoding.EncodeDecode | runtime/common/address.go:96 | Encoding what a text decodes to gives the text in lower case. |
| HexEncoding.DecodeValue | runtime/common/address.go:96 | Decoded bytes have the big-endian value of the hexadecimal number the text denotes. |
| Common.HexToAddress | runtime/common/address.go:90-101 | An error comes with the zero address and is always an invalid-byte error, because the padding rules out odd length. There is no error if and only if the text after an optional "0x" is all hexadecimal. |
| Common.HexToAddressValue | runtime/common/address.go:90-101 | All-hex text after an optional "0x" parses without error, and the parsed address holds the number the text denotes, modulo 2^64. A '0' padded on the front and digits beyond the last sixteen do not count. |
| Common.HexRoundTrip | runtime/common/address.go:40-101 | Parsing Hex(a) gives a, without error. |
| Common.ShortHexRoundTrip | runtime/common/address.go:85-101 | Parsing ShortHexWithPrefix(a) gives a, without error. This includes the zero address ("0x"), whose digits are all trimmed away. |

## Left out

- `runtime/tests/interpreter/uuid_test.go` is interpreter test machinery and is not part of this model. Of `runtime/interpreter/errors_test.go`, only the rendering of account 0x1 is modelled; the error type and message formatting are not.
- Go error values are reduced to their kind: `InvalidByte` or `OddLength`. The offending byte that Go's `InvalidByteError` carries is not kept.
- Go's `len` on a string counts UTF-8 bytes, while the model counts characters. The two differ only on non-ASCII text. That text contains a non-hexadecimal character, so both give the zero address with an invalid-byte error.
- Common.BytesWithoutLeadingZeros: returns a value. It does not model that the Go slice shares storage with the address.
- Common.SetBytes: Go's `copy` is modelled as one simultaneous assignment of the tail of the array, not as an element-by-element copy.
- `fmt.Sprintf`, `strings` and `encoding/hex` are modelled only as far as the address code uses them: `%x` on bytes, the "0x%s" concatenation, `TrimPrefix`, `TrimLeft` with the cutset "0", and `DecodeString`.
