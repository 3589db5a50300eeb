/** Base-128 unsigned integers as encoding/binary reads them and varbin writes them. */
module Uvarint {
  import opened Common

  datatype Error = EOF | UnexpectedEOF | Overflow | UnknownVersion | NotExists | SeekError | AllocationPanic

  /** A parse of a byte sequence: the value and what is left, or the error that stopped it. */
  datatype Parsed<+T> = Ok(value: T, rest: seq<Byte>) | Err(error: Error)

  const TWO63: nat := 0x8000_0000_0000_0000
  const TWO64: nat := 0x1_0000_0000_0000_0000

  function Encode(n: nat): (bytes: seq<Byte>)
    ensures |bytes| >= 1
  {
    if n < 128 then [n] else [n % 128 + 128] + Encode(n / 128)
  }

  /** The number that base-128 digits stand for, least significant first. */
  function Weight(bytes: seq<Byte>): nat {
    if bytes == [] then 0 else bytes[0] % 128 + 128 * Weight(bytes[1..])
  }

  /** What an encoding is: the digits of n, least significant first, all but the last marked by the high bit, and no
      more of them than needed. */
  lemma {:induction false} EncodeIsBase128(n: nat)
    ensures Weight(Encode(n)) == n
    ensures forall i :: 0 <= i < |Encode(n)| ==> (Encode(n)[i] >= 128 <==> i < |Encode(n)| - 1)
    ensures |Encode(n)| > 1 ==> Encode(n)[|Encode(n)| - 1] != 0
    decreases n
  {
    if n < 128 {
      assert Encode(n)[1..] == [];
    } else {
      var rest := Encode(n / 128);
      EncodeIsBase128(n / 128);
      assert Encode(n)[1..] == rest;
      assert forall i :: 1 <= i < |Encode(n)| ==> Encode(n)[i] == rest[i - 1];
    }
  }

  /** binary.ReadUvarint after `i` bytes, with `x` accumulated and `unit` the weight of the next digit: at most
      ten bytes, the tenth at most 1. */
  function DecodeFrom(bytes: seq<Byte>, i: nat, x: nat, unit: nat): Parsed<nat>
    requires i <= 10
    decreases 10 - i
  {
    if i == 10 then Err(Overflow)
    else if bytes == [] then Err(if i > 0 then UnexpectedEOF else EOF)
    else if bytes[0] < 128 then
      if i == 9 && bytes[0] > 1 then Err(Overflow) else Ok(x + bytes[0] * unit, bytes[1..])
    else DecodeFrom(bytes[1..], i + 1, x + (bytes[0] - 128) * unit, unit * 128)
  }

  function Decode(bytes: seq<Byte>): Parsed<nat> {
    DecodeFrom(bytes, 0, 0, 1)
  }

  /** What still fits in 64 bits after `i` seven-bit digits. */
  function Room(i: nat): nat
    requires i <= 9
    decreases 9 - i
  {
    if i == 9 then 2 else 128 * Room(i + 1)
  }

  lemma RoomIsWhole()
    ensures Room(0) == TWO64
  {
    assert Room(8) == 128 * 2;
    assert Room(7) == 128 * Room(8);
    assert Room(6) == 128 * Room(7);
    assert Room(5) == 128 * Room(6);
    assert Room(4) == 128 * Room(5);
    assert Room(3) == 128 * Room(4);
    assert Room(2) == 128 * Room(3);
    assert Room(1) == 128 * Room(2);
  }

  lemma DigitSplit(n: nat, unit: nat)
    ensures n % 128 * unit + n / 128 * (unit * 128) == n * unit
  {
    assert n == n % 128 + n / 128 * 128;
    calc {
      n * unit;
      (n % 128 + n / 128 * 128) * unit;
      n % 128 * unit + n / 128 * 128 * unit;
    }
  }

  lemma {:induction false} DecodeFromEncode(n: nat, suffix: seq<Byte>, i: nat, x: nat, unit: nat)
    requires i <= 9 && n < Room(i)
    ensures DecodeFrom(Encode(n) + suffix, i, x, unit) == Ok(x + n * unit, suffix)
    decreases n
  {
    var bytes := Encode(n) + suffix;
    if n < 128 {
      assert bytes[1..] == suffix;
    } else {
      assert bytes[0] == n % 128 + 128;
      assert bytes[1..] == Encode(n / 128) + suffix;
      assert i < 9;
      DecodeFromEncode(n / 128, suffix, i + 1, x + n % 128 * unit, unit * 128);
      DigitSplit(n, unit);
    }
  }

  /** Round trip in front of any suffix, for every 64-bit value. */
  lemma DecodeEncode(n: nat, suffix: seq<Byte>)
    requires n < TWO64
    ensures Decode(Encode(n) + suffix) == Ok(n, suffix)
  {
    RoomIsWhole();
    DecodeFromEncode(n, suffix, 0, 0, 1);
  }

  lemma DigitBound(x: nat, digit: nat, cap: nat, unit: nat)
    requires x < unit && digit <= cap
    ensures x + digit * unit < (cap + 1) * unit
  {
    assert digit * unit <= cap * unit;
  }

  lemma UnitShrinks(i: nat, unit: nat)
    requires i < 9 && unit * Room(i) == TWO64
    ensures unit * 128 * Room(i + 1) == TWO64 && unit * 128 <= TWO64
  {
    assert unit * Room(i) == unit * (128 * Room(i + 1)) == unit * 128 * Room(i + 1);
    assert Room(i + 1) >= 1;
  }

  /** A successful parse never exceeds 64 bits, so reading with unbounded integers loses nothing. */
  lemma {:induction false} DecodeFromFits(bytes: seq<Byte>, i: nat, x: nat, unit: nat)
    requires i <= 9 && x < unit && unit * Room(i) == TWO64
    ensures var r := DecodeFrom(bytes, i, x, unit); r.Ok? ==> r.value < TWO64
    decreases 10 - i
  {
    if bytes != [] {
      if bytes[0] < 128 {
        if i == 9 {
          if bytes[0] <= 1 { DigitBound(x, bytes[0], 1, unit); }
        } else {
          DigitBound(x, bytes[0], 127, unit);
          UnitShrinks(i, unit);
        }
      } else if i < 9 {
        DigitBound(x, bytes[0] - 128, 127, unit);
        UnitShrinks(i, unit);
        DecodeFromFits(bytes[1..], i + 1, x + (bytes[0] - 128) * unit, unit * 128);
      }
    }
  }

  lemma DecodeFits(bytes: seq<Byte>)
    ensures Decode(bytes).Ok? ==> Decode(bytes).value < TWO64
  {
    RoomIsWhole();
    DecodeFromFits(bytes, 0, 0, 1);
  }
}
