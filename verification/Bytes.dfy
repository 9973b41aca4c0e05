/** Unsigned integers as little-endian bytes. */
module Bytes {
  type Byte = bv8

  /** The byte with these bits, lowest first. */
  function Pack(b0: bool, b1: bool, b2: bool, b3: bool, b4: bool, b5: bool, b6: bool, b7: bool): Byte {
    (if b0 then 0x01 else 0) | (if b1 then 0x02 else 0) | (if b2 then 0x04 else 0) | (if b3 then 0x08 else 0)
    | (if b4 then 0x10 else 0) | (if b5 then 0x20 else 0) | (if b6 then 0x40 else 0) | (if b7 then 0x80 else 0)
  }

  predicate Has(b: Byte, bit: Byte) { b & bit != 0 }

  predicate IsOdd(k: nat) { k % 2 == 1 }

  function Half(k: nat): nat { k / 2 }

  /** A number from its lowest bit and the rest. */
  function Joined(bit: bool, rest: nat): nat { (if bit then 1 else 0) + 2 * rest }

  lemma Split(k: nat)
    ensures Joined(IsOdd(k), Half(k)) == k
  {
  }

  lemma JoinedSplits(bit: bool, rest: nat)
    ensures IsOdd(Joined(bit, rest)) == bit && Half(Joined(bit, rest)) == rest
  {
  }

  /** Narrowing to a byte, bit by bit. */
  function ToByte(k: nat): Byte
    requires k < 256
  {
    var k1 := Half(k);
    var k2 := Half(k1);
    var k3 := Half(k2);
    var k4 := Half(k3);
    var k5 := Half(k4);
    var k6 := Half(k5);
    Pack(IsOdd(k), IsOdd(k1), IsOdd(k2), IsOdd(k3), IsOdd(k4), IsOdd(k5), IsOdd(k6), IsOdd(Half(k6)))
  }

  /** Widening a byte, bit by bit. */
  function FromByte(b: Byte): (k: nat)
    ensures k < 256
  {
    Joined(Has(b, 0x01), Joined(Has(b, 0x02), Joined(Has(b, 0x04), Joined(Has(b, 0x08),
      Joined(Has(b, 0x10), Joined(Has(b, 0x20), Joined(Has(b, 0x40), Joined(Has(b, 0x80), 0))))))))
  }

  lemma PackHas(b0: bool, b1: bool, b2: bool, b3: bool, b4: bool, b5: bool, b6: bool, b7: bool)
    ensures var b := Pack(b0, b1, b2, b3, b4, b5, b6, b7);
      && Has(b, 0x01) == b0 && Has(b, 0x02) == b1 && Has(b, 0x04) == b2 && Has(b, 0x08) == b3
      && Has(b, 0x10) == b4 && Has(b, 0x20) == b5 && Has(b, 0x40) == b6 && Has(b, 0x80) == b7
  {
  }

  lemma HasPack(b: Byte)
    ensures b == Pack(Has(b, 0x01), Has(b, 0x02), Has(b, 0x04), Has(b, 0x08),
                      Has(b, 0x10), Has(b, 0x20), Has(b, 0x40), Has(b, 0x80))
  {
  }

  lemma SevenHalves(k: nat)
    requires k < 256
    ensures Half(Half(Half(Half(Half(Half(Half(k))))))) <= 1
  {
  }

  lemma FromTo(k: nat)
    requires k < 256
    ensures FromByte(ToByte(k)) == k
  {
    SevenHalves(k);
    hide Pack, Has, IsOdd, Half, Joined;
    var k1 := Half(k);
    var k2 := Half(k1);
    var k3 := Half(k2);
    var k4 := Half(k3);
    var k5 := Half(k4);
    var k6 := Half(k5);
    var k7 := Half(k6);
    PackHas(IsOdd(k), IsOdd(k1), IsOdd(k2), IsOdd(k3), IsOdd(k4), IsOdd(k5), IsOdd(k6), IsOdd(k7));
    Split(k);
    Split(k1);
    Split(k2);
    Split(k3);
    Split(k4);
    Split(k5);
    Split(k6);
    LastBit(k7);
  }

  lemma LastBit(k: nat)
    requires k <= 1
    ensures Joined(IsOdd(k), 0) == k
  {
  }

  lemma ToFrom(b: Byte)
    ensures ToByte(FromByte(b)) == b
  {
    HasPack(b);
    hide Pack, Has, IsOdd, Half, Joined;
    var k7 := Joined(Has(b, 0x80), 0);
    var k6 := Joined(Has(b, 0x40), k7);
    var k5 := Joined(Has(b, 0x20), k6);
    var k4 := Joined(Has(b, 0x10), k5);
    var k3 := Joined(Has(b, 0x08), k4);
    var k2 := Joined(Has(b, 0x04), k3);
    var k1 := Joined(Has(b, 0x02), k2);
    JoinedSplits(Has(b, 0x80), 0);
    JoinedSplits(Has(b, 0x40), k7);
    JoinedSplits(Has(b, 0x20), k6);
    JoinedSplits(Has(b, 0x10), k5);
    JoinedSplits(Has(b, 0x08), k4);
    JoinedSplits(Has(b, 0x04), k3);
    JoinedSplits(Has(b, 0x02), k2);
    JoinedSplits(Has(b, 0x01), k1);
  }

  function Pow256(n: nat): (p: nat)
    ensures p > 0
  {
    if n == 0 then 1 else 256 * Pow256(n - 1)
  }

  /** The low `n` bytes of `v`, least significant first; higher bits are dropped. */
  function PutLE(v: nat, n: nat): (bytes: seq<Byte>)
    ensures |bytes| == n
    decreases n
  {
    if n == 0 then [] else [ToByte(v % 256)] + PutLE(v / 256, n - 1)
  }

  function GetLE(bytes: seq<Byte>): nat {
    if bytes == [] then 0 else FromByte(bytes[0]) + 256 * GetLE(bytes[1..])
  }

  lemma {:induction false} GetPut(v: nat, n: nat)
    requires v < Pow256(n)
    ensures GetLE(PutLE(v, n)) == v
    decreases n
  {
    hide ToByte, FromByte;
    if n > 0 {
      FromTo(v % 256);
      GetPut(v / 256, n - 1);
      assert PutLE(v, n)[1..] == PutLE(v / 256, n - 1);
    }
  }

  lemma {:induction false} PutGet(bytes: seq<Byte>)
    ensures GetLE(bytes) < Pow256(|bytes|) && PutLE(GetLE(bytes), |bytes|) == bytes
  {
    hide ToByte, FromByte;
    if bytes != [] {
      PutGet(bytes[1..]);
      ToFrom(bytes[0]);
      var low, high := FromByte(bytes[0]), GetLE(bytes[1..]);
      assert (low + 256 * high) % 256 == low && (low + 256 * high) / 256 == high;
      assert bytes == [bytes[0]] + bytes[1..];
    }
  }
}
