/** Hexadecimal text for byte strings, as Go produces it with the `%x` verb
    and reads it back with `encoding/hex.DecodeString`. */
module HexEncoding {
  import opened Bytes
  import opened Wrappers

  /** Why decoding failed: a character that is not a hexadecimal digit, or
      a well-formed text of odd length. */
  datatype DecodeError = InvalidByte | OddLength

  predicate IsLowerHexChar(c: char)
  {
    '0' <= c <= '9' || 'a' <= c <= 'f'
  }

  /** The characters the decoder accepts: digits and both cases of a-f. */
  predicate IsHexChar(c: char)
  {
    IsLowerHexChar(c) || 'A' <= c <= 'F'
  }

  predicate AllHex(s: string)
  {
    forall i :: 0 <= i < |s| ==> IsHexChar(s[i])
  }

  function HexCharValue(c: char): (n: nat)
    requires IsHexChar(c)
    ensures n < 16
  {
    if '0' <= c <= '9' then c as int - '0' as int
    else if 'a' <= c <= 'f' then c as int - 'a' as int + 10
    else c as int - 'A' as int + 10
  }

  /** The lower-case digit for a nibble; decoding it gives the nibble back. */
  function HexDigit(n: nat): (c: char)
    requires n < 16
    ensures IsLowerHexChar(c) && HexCharValue(c) == n
  {
    if n < 10 then ('0' as int + n) as char else ('a' as int + n - 10) as char
  }

  function LowerChar(c: char): char
  {
    if 'A' <= c <= 'Z' then (c as int - 'A' as int + 'a' as int) as char else c
  }

  function ToLower(s: string): (r: string)
    ensures |r| == |s| && forall i :: 0 <= i < |s| ==> r[i] == LowerChar(s[i])
  {
    seq(|s|, i requires 0 <= i < |s| => LowerChar(s[i]))
  }

  /** `fmt.Sprintf("%x", b)`: two lower-case digits per byte, high nibble
      first, bytes in order (see EncodeAt). */
  function EncodeToString(b: seq<byte>): (s: string)
    ensures |s| == 2 * |b|
    ensures forall i :: 0 <= i < |s| ==> IsLowerHexChar(s[i])
  {
    if b == [] then
      []
    else
      [HexDigit(b[0] as int / 16), HexDigit(b[0] as int % 16)] + EncodeToString(b[1..])
  }

  /** Byte `i` is printed at positions 2i (high nibble) and 2i+1 (low
      nibble). */
  lemma {:induction false} EncodeAt(b: seq<byte>, i: nat)
    requires i < |b|
    ensures EncodeToString(b)[2 * i] == HexDigit(b[i] as int / 16)
    ensures EncodeToString(b)[2 * i + 1] == HexDigit(b[i] as int % 16)
  {
    if i > 0 {
      EncodeAt(b[1..], i - 1);
      assert b[1..][i - 1] == b[i];
    }
  }

  /** EncodeAt for every byte at once. */
  lemma {:induction false} EncodeEvery(b: seq<byte>)
    ensures forall i :: 0 <= i < |b| ==>
      EncodeToString(b)[2 * i] == HexDigit(b[i] as int / 16) &&
      EncodeToString(b)[2 * i + 1] == HexDigit(b[i] as int % 16)
  {
    forall i | 0 <= i < |b|
      ensures EncodeToString(b)[2 * i] == HexDigit(b[i] as int / 16)
      ensures EncodeToString(b)[2 * i + 1] == HexDigit(b[i] as int % 16)
    {
      EncodeAt(b, i);
    }
  }

  /** `hex.DecodeString`: reads the text two digits at a time from the
      left, reporting the first invalid character it meets, and a text of
      odd length whose digits are all valid as OddLength. */
  function DecodeString(s: string): (r: Result<seq<byte>, DecodeError>)
    ensures r.Success? <==> |s| % 2 == 0 && AllHex(s)
    ensures r.Failure? && |s| % 2 == 0 ==> r.error == InvalidByte
    ensures r.Success? ==> |r.value| == |s| / 2
  {
    if |s| == 0 then
      Success([])
    else if |s| == 1 then
      Failure(if IsHexChar(s[0]) then OddLength else InvalidByte)
    else if !IsHexChar(s[0]) || !IsHexChar(s[1]) then
      Failure(InvalidByte)
    else
      AllHexAfterPair(s);
      assert |s[2..]| % 2 == |s| % 2;
      match DecodeString(s[2..])
      case Failure(e) => Failure(e)
      case Success(rest) =>
        Success([PairValue(s[0], s[1])] + rest)
  }

  /** The byte two hex digits denote, high nibble first. */
  function PairValue(c0: char, c1: char): (n: byte)
    requires IsHexChar(c0) && IsHexChar(c1)
    ensures n as int == HexCharValue(c0) * 16 + HexCharValue(c1)
  {
    (HexCharValue(c0) * 16 + HexCharValue(c1)) as byte
  }

  /** A text of two or more characters is all hex exactly when its first
      two characters are and the rest is. */
  lemma {:induction false} AllHexAfterPair(s: string)
    requires |s| >= 2
    ensures AllHex(s) <==> IsHexChar(s[0]) && IsHexChar(s[1]) && AllHex(s[2..])
  {
    assert forall i :: 2 <= i < |s| ==> s[i] == s[2..][i - 2];
  }

  /** Decoding a text that starts with two valid digits. */
  lemma {:induction false} DecodePair(c0: char, c1: char, t: string)
    requires IsHexChar(c0) && IsHexChar(c1)
    ensures DecodeString(t).Success? ==>
      DecodeString([c0, c1] + t) == Success([PairValue(c0, c1)] + DecodeString(t).value)
    ensures DecodeString(t).Failure? ==> DecodeString([c0, c1] + t) == DecodeString(t)
  {
    var s := [c0, c1] + t;
    assert s[0] == c0 && s[1] == c1 && s[2..] == t;
  }

  /** Decoding undoes encoding. */
  lemma {:induction false} DecodeEncode(b: seq<byte>)
    ensures DecodeString(EncodeToString(b)) == Success(b)
  {
    if b != [] {
      var n := b[0] as int;
      var c0, c1 := HexDigit(n / 16), HexDigit(n % 16);
      assert EncodeToString(b) == [c0, c1] + EncodeToString(b[1..]);
      DecodeEncode(b[1..]);
      DecodePair(c0, c1, EncodeToString(b[1..]));
      assert PairValue(c0, c1) == b[0];
      assert b == [b[0]] + b[1..];
    }
  }

  /** Encoding a successful decoding gives the text back in lower case. */
  lemma {:induction false} EncodeDecode(s: string)
    requires DecodeString(s).Success?
    ensures EncodeToString(DecodeString(s).value) == ToLower(s)
  {
    if s != [] {
      var v := DecodeString(s).value;
      var rest := DecodeString(s[2..]).value;
      assert v == [PairValue(s[0], s[1])] + rest;
      assert v[1..] == rest;
      EncodeDecode(s[2..]);
      PairRoundTrip(s[0], s[1]);
      assert EncodeToString(v) == [LowerChar(s[0]), LowerChar(s[1])] + ToLower(s[2..]);
      assert ToLower(s) == [LowerChar(s[0]), LowerChar(s[1])] + ToLower(s[2..]);
    }
  }

  /** The byte two digits denote prints as the same two digits in lower
      case. */
  lemma {:induction false} PairRoundTrip(c0: char, c1: char)
    requires IsHexChar(c0) && IsHexChar(c1)
    ensures var n := PairValue(c0, c1) as int;
      HexDigit(n / 16) == LowerChar(c0) && HexDigit(n % 16) == LowerChar(c1)
  {
    var n := PairValue(c0, c1) as int;
    assert n / 16 == HexCharValue(c0) && n % 16 == HexCharValue(c1);
  }

  /** Encoding a suffix of the bytes gives the matching suffix of the text. */
  lemma {:induction false} EncodeSuffix(b: seq<byte>, k: nat)
    requires k <= |b|
    ensures EncodeToString(b)[2 * k..] == EncodeToString(b[k..])
  {
    if k > 0 {
      var s := EncodeToString(b);
      assert s[2..] == EncodeToString(b[1..]);
      EncodeSuffix(b[1..], k - 1);
      assert b[1..][k - 1..] == b[k..];
      assert s[2 * k..] == s[2..][2 * (k - 1)..];
    }
  }

  function Pow16(n: nat): (p: nat)
    ensures p >= 1
  {
    if n == 0 then 1 else 16 * Pow16(n - 1)
  }

  lemma {:induction false} Pow16Even(n: nat)
    ensures Pow16(2 * n) == Pow256(n)
  {
    if n > 0 {
      Pow16Even(n - 1);
      assert Pow16(2 * n) == 16 * (16 * Pow16(2 * (n - 1)));
    }
  }

  /** The number a hexadecimal text denotes, most significant digit first. */
  function HexNumber(s: string): nat
    requires AllHex(s)
  {
    if s == [] then 0 else HexNumber(s[..|s| - 1]) * 16 + HexCharValue(s[|s| - 1])
  }

  lemma {:induction false} HexNumberConcat(x: string, y: string)
    requires AllHex(x) && AllHex(y)
    ensures AllHex(x + y)
    ensures HexNumber(x + y) == HexNumber(x) * Pow16(|y|) + HexNumber(y)
  {
    assert forall i :: 0 <= i < |x + y| ==> (x + y)[i] == if i < |x| then x[i] else y[i - |x|];
    if y == [] {
      assert x + y == x;
    } else {
      var y' := y[..|y| - 1];
      assert (x + y)[..|x + y| - 1] == x + y';
      HexNumberConcat(x, y');
      ShiftOneDigit(HexNumber(x), Pow16(|y'|), HexNumber(y'), 16, HexCharValue(y[|y| - 1]));
    }
  }

  /** A leading '0' digit does not change the number. */
  lemma {:induction false} HexNumberOfZeroPadded(t: string)
    requires AllHex(t)
    ensures AllHex("0" + t) && HexNumber("0" + t) == HexNumber(t)
  {
    var z := "0";
    assert AllHex(z);
    assert z[..0] == [];
    assert HexNumber(z) == 0;
    HexNumberConcat(z, t);
  }

  /** The number two digits denote. */
  lemma {:induction false} HexNumberOfTwo(c0: char, c1: char)
    requires IsHexChar(c0) && IsHexChar(c1)
    ensures AllHex([c0, c1]) && HexNumber([c0, c1]) == HexCharValue(c0) * 16 + HexCharValue(c1)
  {
    var one, two := [c0], [c0, c1];
    assert AllHex(one) && AllHex(two);
    assert one[..0] == [];
    assert HexNumber(one) == HexCharValue(c0);
    assert two[..1] == one;
    assert HexNumber(two) == HexNumber(one) * 16 + HexCharValue(c1);
  }

  /** A text split after its first two digits. */
  lemma {:induction false} HexNumberOfPair(s: string)
    requires |s| >= 2 && AllHex(s)
    ensures AllHex(s[2..])
    ensures HexNumber(s) == (HexCharValue(s[0]) * 16 + HexCharValue(s[1])) * Pow16(|s| - 2) + HexNumber(s[2..])
  {
    var p, q := s[..2], s[2..];
    assert p == [s[0], s[1]];
    HexNumberOfTwo(s[0], s[1]);
    assert s == p + q;
    HexNumberConcat(p, q);
  }

  /** The value of one byte followed by more bytes. */
  lemma {:induction false} ValueOfCons(b: byte, rest: seq<byte>)
    ensures Value([b] + rest) == b as int * Pow256(|rest|) + Value(rest)
  {
    ValueConcat([b], rest);
    assert [b][..0] == [];
  }

  /** The decoded bytes, read as a big-endian number, are the number the
      text denotes. */
  lemma {:induction false} DecodeValue(s: string)
    requires DecodeString(s).Success?
    ensures AllHex(s) && Value(DecodeString(s).value) == HexNumber(s)
  {
    if |s| > 0 {
      var rest := DecodeString(s[2..]).value;
      var n := HexCharValue(s[0]) * 16 + HexCharValue(s[1]);
      var v := DecodeString(s).value;
      assert v == [n as byte] + rest;
      assert |s| - 2 == 2 * |rest|;
      DecodeValue(s[2..]);
      ValueOfCons(n as byte, rest);
      HexNumberOfPair(s);
      Pow16Even(|rest|);
      var p := Pow256(|rest|);
      assert Pow16(|s| - 2) == p;
      assert Value(v) == n * p + Value(rest);
      assert HexNumber(s) == n * p + HexNumber(s[2..]);
    }
  }
}
