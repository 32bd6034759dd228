/** The account address of the runtime's `common` package: a fixed-size
    8-byte value, most significant byte first, built from byte strings and
    written as and read from hexadecimal text. */
module Common {
  import opened Bytes
  import opened Wrappers
  import opened HexEncoding
  import opened Strings

  const AddressLength: nat := 8

  /** `Address [AddressLength]byte`: a Go array, so a value. */
  type Address = s: seq<byte> | |s| == AddressLength witness [0, 0, 0, 0, 0, 0, 0, 0]

  /** `Address{}`. */
  const ZeroAddress: Address := Zeros(AddressLength)

  /** The part of `b` that an address keeps: all of it, or its last
      AddressLength bytes when it is longer. */
  function Cropped(b: seq<byte>): (c: seq<byte>)
    ensures |c| == if |b| > AddressLength then AddressLength else |b|
    ensures c == b[|b| - |c|..]
  {
    if |b| > AddressLength then b[|b| - AddressLength..] else b
  }

  /** `BytesToAddress`: the address with value `b`, cropped from the left
      when `b` is too long and zero-filled on the left when it is short. */
  function BytesToAddress(b: seq<byte>): (a: Address)
    ensures |b| > AddressLength ==> a == b[|b| - AddressLength..]
    ensures |b| <= AddressLength ==> a == Zeros(AddressLength - |b|) + b
    ensures forall i :: 0 <= i < AddressLength ==>
      a[i] == if i + |b| < AddressLength then 0 else b[i + |b| - AddressLength]
  {
    var c := Cropped(b);
    Zeros(AddressLength - |c|) + c
  }

  /** `(*Address).SetBytes`: writes the (cropped) input into the tail of
      the address and leaves the bytes before it as they were. */
  method SetBytes(a: array<byte>, b: seq<byte>)
    requires a.Length == AddressLength
    modifies a
    ensures a[..] == old(a[..])[..AddressLength - |Cropped(b)|] + Cropped(b)
    ensures forall i :: 0 <= i < AddressLength - |Cropped(b)| ==> a[i] == old(a[i])
    ensures forall i :: AddressLength - |Cropped(b)| <= i < AddressLength ==> a[i] == BytesToAddress(b)[i]
  {
    var c := b;
    if |c| > a.Length {
      c := c[|c| - AddressLength..];
    }
    forall i | 0 <= i < |c| {
      a[AddressLength - |c| + i] := c[i];
    }
    assert a[..] == old(a[..])[..AddressLength - |c|] + c;
  }

  /** The body of `BytesToAddress`: SetBytes on a zero address. */
  method BytesToAddressBySetBytes(b: seq<byte>) returns (a: Address)
    ensures a == BytesToAddress(b)
  {
    var arr := new byte[AddressLength](_ => 0);
    SetBytes(arr, b);
    a := arr[..];
  }

  /** `BytesWithoutLeadingZeros`: the whole address when its first byte is
      nonzero, otherwise the loop below. */
  method BytesWithoutLeadingZeros(a: Address) returns (r: seq<byte>)
    ensures a[0] != 0 ==> r == a
    ensures r == StripLeadingZeros(a)
  {
    if a[0] != 0 {
      StripLeadingZerosUnique(a, 0);
      return a;
    }
    r := BytesWithoutLeadingZerosLoop(a);
  }

  /** `bytesWithoutLeadingZeros`: counts the zero bytes before the first
      nonzero one and returns what follows them. */
  method BytesWithoutLeadingZerosLoop(a: Address) returns (r: seq<byte>)
    ensures |r| <= AddressLength && r == a[AddressLength - |r|..]
    ensures AllZero(a[..AddressLength - |r|])
    ensures r != [] ==> r[0] != 0
    ensures r == StripLeadingZeros(a)
  {
    var leadingZeros := 0;
    for i := 0 to AddressLength
      invariant leadingZeros == i
      invariant AllZero(a[..i])
    {
      if a[i] != 0 {
        break;
      }
      leadingZeros := leadingZeros + 1;
    }
    r := a[leadingZeros..];
    StripLeadingZerosUnique(a, leadingZeros);
  }

  /** `Hex`: sixteen lower-case hexadecimal digits, two per byte, most
      significant byte first. */
  function Hex(a: Address): (s: string)
    ensures |s| == 2 * AddressLength
    ensures forall i :: 0 <= i < |s| ==> IsLowerHexChar(s[i])
    ensures forall i :: 0 <= i < AddressLength ==>
      s[2 * i] == HexDigit(a[i] as int / 16) && s[2 * i + 1] == HexDigit(a[i] as int % 16)
  {
    EncodeEvery(a);
    EncodeToString(a)
  }

  /** `String` is `Hex`. */
  function String(a: Address): (s: string)
    ensures |s| == 2 * AddressLength && s == Hex(a)
  {
    Hex(a)
  }

  /** `ShortHexWithPrefix`: "0x" and then the hexadecimal form without its
      leading '0' digits. */
  function ShortHexWithPrefix(a: Address): (s: string)
    ensures |s| >= 2 && s[..2] == "0x"
    ensures |s| <= 2 + 2 * AddressLength && s[2..] == Hex(a)[2 * AddressLength - (|s| - 2)..]
    ensures forall i :: 0 <= i < 2 * AddressLength - (|s| - 2) ==> Hex(a)[i] == '0'
    ensures |s| > 2 ==> s[2] != '0'
  {
    var t := TrimLeft(Hex(a), "0");
    assert ("0x" + t)[2..] == t;
    "0x" + t
  }

  /** `t`, with a '0' put in front when its length is odd. */
  function PadToEvenLength(t: string): (p: string)
    ensures |p| % 2 == 0
    ensures AllHex(p) <==> AllHex(t)
  {
    if |t| % 2 == 1 then
      var p := "0" + t;
      assert p[0] == '0';
      assert forall i :: 0 < i < |p| ==> p[i] == t[i - 1];
      assert forall i :: 0 <= i < |t| ==> t[i] == p[i + 1];
      p
    else
      t
  }

  /** The result of `HexToAddress`: an address and, as Go's second result,
      an error or none. */
  datatype ParseResult = ParseResult(address: Address, err: Option<DecodeError>)

  /** `HexToAddress`: drops one leading "0x", puts a '0' in front of a text
      of odd length, decodes it and builds the address from the bytes; a
      text that does not decode gives the zero address and the error. */
  function HexToAddress(h: string): (r: ParseResult)
    ensures r.err.Some? ==> r.address == ZeroAddress && r.err == Some(InvalidByte)
    ensures r.err.None? <==> AllHex(TrimPrefix(h, "0x"))
  {
    var trimmed := TrimPrefix(h, "0x");
    var padded := PadToEvenLength(trimmed);
    match DecodeString(padded)
    case Failure(e) => ParseResult(ZeroAddress, Some(e))
    case Success(b) => ParseResult(BytesToAddress(b), None)
  }

  // ----- Properties -----

  /** The address built from `b` holds the number `b` denotes, reduced
      modulo 2^64: only the low AddressLength bytes survive. */
  lemma {:induction false} ValueOfBytesToAddress(b: seq<byte>)
    ensures Value(BytesToAddress(b)) == Value(b) % Pow256(AddressLength)
  {
    if |b| <= AddressLength {
      ValueOfShortBytesToAddress(b);
    } else {
      ValueOfLongBytesToAddress(b);
    }
  }

  /** Up to AddressLength bytes: the value is kept whole. */
  lemma {:induction false} ValueOfShortBytesToAddress(b: seq<byte>)
    requires |b| <= AddressLength
    ensures Value(BytesToAddress(b)) == Value(b) % Pow256(AddressLength)
  {
    var p := Pow256(AddressLength);
    ValueOfZerosPrefix(AddressLength - |b|, b);
    ValueBound(b);
    Pow256Monotone(|b|, AddressLength);
    ModOfShifted(0, p, Value(b));
    assert 0 * p + Value(b) == Value(b);
  }

  /** More than AddressLength bytes: the high bytes are cut off. */
  lemma {:induction false} ValueOfLongBytesToAddress(b: seq<byte>)
    requires |b| > AddressLength
    ensures Value(BytesToAddress(b)) == Value(b) % Pow256(AddressLength)
  {
    var p := Pow256(AddressLength);
    var k := |b| - AddressLength;
    var hi, lo := b[..k], b[k..];
    assert b == hi + lo;
    assert BytesToAddress(b) == lo;
    ValueConcat(hi, lo);
    ValueBound(lo);
    ModOfShifted(Value(hi), p, Value(lo));
  }

  /** Trimming leading zeros loses nothing: the address built from the
      trimmed bytes is the address itself. */
  lemma {:induction false} BytesToAddressOfStripped(a: Address)
    ensures BytesToAddress(StripLeadingZeros(a)) == a
  {
    var r := StripLeadingZeros(a);
    var k := AddressLength - |r|;
    assert a == a[..k] + r;
    assert a[..k] == Zeros(k);
  }

  /** Bytes printed as "00" are zero. */
  lemma {:induction false} ZeroDigitsAreZeroBytes(a: Address, k: nat)
    requires k <= AddressLength
    requires forall i :: 0 <= i < 2 * k ==> Hex(a)[i] == '0'
    ensures AllZero(a[..k])
  {
    forall j | 0 <= j < k
      ensures a[..k][j] == 0
    {
      var n := a[j] as int;
      assert Hex(a)[2 * j] == '0' && Hex(a)[2 * j + 1] == '0';
      assert HexCharValue(HexDigit(n / 16)) == 0 && HexCharValue(HexDigit(n % 16)) == 0;
    }
  }

  /** Leaving out leading zero bytes does not change the address built. */
  lemma {:induction false} BytesToAddressOfSuffix(a: Address, k: nat)
    requires k <= AddressLength && AllZero(a[..k])
    ensures BytesToAddress(a[k..]) == a
  {
    ZeroPrefixSplit(a, k);
  }

  /** If the hexadecimal form of `a` starts with 2k '0' digits, then the
      rest of the text decodes to the rest of `a`, from which BytesToAddress
      rebuilds `a`. */
  lemma {:induction false} HexSuffixDecodes(a: Address, k: nat)
    requires k <= AddressLength
    requires forall i :: 0 <= i < 2 * k ==> Hex(a)[i] == '0'
    ensures DecodeString(Hex(a)[2 * k..]) == Success(a[k..])
    ensures BytesToAddress(a[k..]) == a
  {
    EncodeSuffix(a, k);
    DecodeEncode(a[k..]);
    ZeroDigitsAreZeroBytes(a, k);
    BytesToAddressOfSuffix(a, k);
  }

  /** Parsing the full hexadecimal form gives the address back, without
      error. */
  lemma {:induction false} HexRoundTrip(a: Address)
    ensures HexToAddress(Hex(a)) == ParseResult(a, None)
  {
    var s := Hex(a);
    assert !HasPrefix(s, "0x") by {
      assert IsLowerHexChar(s[1]);
    }
    HexSuffixDecodes(a, 0);
    assert s[0..] == s;
  }

  /** Trimming the leading '0' digits of an even-length text and padding
      what is left back to even length drops an even number of '0'
      digits. */
  lemma {:induction false} PaddedTrimIsEvenSuffix(s: string) returns (k: nat)
    requires |s| % 2 == 0
    ensures 2 * k <= |s| && s[2 * k..] == PadToEvenLength(TrimLeft(s, "0"))
    ensures forall i :: 0 <= i < 2 * k ==> s[i] == '0'
  {
    if |TrimLeft(s, "0")| % 2 == 1 {
      k := PaddedOddTrim(s);
    } else {
      k := PaddedEvenTrim(s);
    }
  }

  /** An even number of digits is left after trimming: no padding. */
  lemma {:induction false} PaddedEvenTrim(s: string) returns (k: nat)
    requires |s| % 2 == 0 && |TrimLeft(s, "0")| % 2 == 0
    ensures 2 * k <= |s| && s[2 * k..] == PadToEvenLength(TrimLeft(s, "0"))
    ensures forall i :: 0 <= i < 2 * k ==> s[i] == '0'
  {
    var t := TrimLeft(s, "0");
    k := (|s| - |t|) / 2;
    assert 2 * k == |s| - |t|;
    assert s[2 * k..] == t;
    forall i | 0 <= i < 2 * k
      ensures s[i] == '0'
    {
      assert s[i] in "0";
    }
  }

  /** An odd number of digits is left after trimming an even-length text:
      the padding puts back the last '0' that was trimmed. */
  lemma {:induction false} PaddedOddTrim(s: string) returns (k: nat)
    requires |s| % 2 == 0 && |TrimLeft(s, "0")| % 2 == 1
    ensures 2 * k <= |s| && s[2 * k..] == PadToEvenLength(TrimLeft(s, "0"))
    ensures forall i :: 0 <= i < 2 * k ==> s[i] == '0'
  {
    var t := TrimLeft(s, "0");
    k := (|s| - |t| - 1) / 2;
    var j := 2 * k;
    assert j + 1 == |s| - |t|;
    assert s[j] in "0";
    var c := s[j];
    assert [c] == "0";
    assert s[j + 1..] == t;
    assert s[j..] == [c] + s[j + 1..];
  }

  /** Parsing the short form gives the address back, without error. */
  lemma {:induction false} ShortHexRoundTrip(a: Address)
    ensures HexToAddress(ShortHexWithPrefix(a)) == ParseResult(a, None)
  {
    var s := Hex(a);
    var t := TrimLeft(s, "0");
    assert ShortHexWithPrefix(a) == "0x" + t;
    TrimPrefixOfPrefixed("0x", t);
    var k := PaddedTrimIsEvenSuffix(s);
    HexSuffixDecodes(a, k);
  }

  /** Zero bytes print as '0' digits. */
  lemma {:induction false} HexOfZeroBytes(a: Address, k: nat)
    requires k <= AddressLength && AllZero(a[..k])
    ensures forall i :: 0 <= i < 2 * k ==> Hex(a)[i] == '0'
  {
    var s := Hex(a);
    forall i | 0 <= i < 2 * k
      ensures s[i] == '0'
    {
      var j := i / 2;
      assert a[..k][j] == 0;
      assert i == 2 * j || i == 2 * j + 1;
    }
  }

  /** Every digit of the zero address is '0'. */
  lemma {:induction false} HexOfZero()
    ensures forall i :: 0 <= i < 2 * AddressLength ==> Hex(ZeroAddress)[i] == '0'
  {
    assert ZeroAddress[..AddressLength] == ZeroAddress;
    HexOfZeroBytes(ZeroAddress, AddressLength);
  }

  /** The zero address prints as "0x". */
  lemma {:induction false} ShortHexOfZero()
    ensures ShortHexWithPrefix(ZeroAddress) == "0x"
  {
    HexOfZero();
    TrimLeftUnique(Hex(ZeroAddress), "0", 2 * AddressLength);
  }

  /** The short form is "0x" exactly for the zero address. */
  lemma {:induction false} ShortHexIsPrefixOnly(a: Address)
    ensures ShortHexWithPrefix(a) == "0x" <==> a == ZeroAddress
  {
    if ShortHexWithPrefix(a) == "0x" {
      HexSuffixDecodes(a, AddressLength);
      assert a[AddressLength..] == [];
    }
    if a == ZeroAddress {
      ShortHexOfZero();
    }
  }

  /** The hexadecimal form of a one-digit account: fifteen '0' digits and
      then the digit. */
  lemma {:induction false} HexOfDigit(b: seq<byte>)
    requires |b| == 1 && 0 < b[0] < 16
    ensures forall i :: 0 <= i < 2 * AddressLength - 1 ==> Hex(BytesToAddress(b))[i] == '0'
    ensures Hex(BytesToAddress(b))[2 * AddressLength - 1] == HexDigit(b[0] as int)
  {
    var a := BytesToAddress(b);
    var k := AddressLength - 1;
    assert a == Zeros(k) + b;
    assert a[..k] == Zeros(k);
    HexOfZeroBytes(a, k);
    assert a[k] == b[0];
    assert Hex(a)[2 * k] == HexDigit(0);
    assert Hex(a)[2 * k + 1] == HexDigit(b[0] as int);
  }

  /** An account whose value is a single hexadecimal digit prints as "0x"
      and that digit. */
  lemma {:induction false} ShortHexOfDigit(b: seq<byte>)
    requires |b| == 1 && 0 < b[0] < 16
    ensures ShortHexWithPrefix(BytesToAddress(b)) == "0x" + [HexDigit(b[0] as int)]
  {
    var s := Hex(BytesToAddress(b));
    HexOfDigit(b);
    TrimLeftUnique(s, "0", 2 * AddressLength - 1);
    assert s[2 * AddressLength - 1..] == [HexDigit(b[0] as int)];
  }

  /** The bytes of account 0x1. */
  const AccountOneBytes: seq<byte> := [1]

  /** Account 0x1 prints as "0x1", as the runtime's error messages show
      it. */
  lemma {:induction false} ShortHexOfAccountOne()
    ensures ShortHexWithPrefix(BytesToAddress(AccountOneBytes)) == "0x1"
  {
    ShortHexOfDigit(AccountOneBytes);
    assert HexDigit(AccountOneBytes[0] as int) == '1';
  }

  /** A text that parses gives the address holding the number it denotes,
      modulo 2^64: longer texts keep only their last sixteen digits. */
  lemma {:induction false} HexToAddressValue(h: string)
    requires AllHex(TrimPrefix(h, "0x"))
    ensures HexToAddress(h).err.None?
    ensures Value(HexToAddress(h).address) == HexNumber(TrimPrefix(h, "0x")) % Pow256(AddressLength)
  {
    var trimmed := TrimPrefix(h, "0x");
    var padded := PadToEvenLength(trimmed);
    DecodeValue(padded);
    var b := DecodeString(padded).value;
    assert HexToAddress(h).address == BytesToAddress(b);
    ValueOfBytesToAddress(b);
    if |trimmed| % 2 == 1 {
      HexNumberOfZeroPadded(trimmed);
    }
  }
}
