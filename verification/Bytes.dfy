/** Big-endian integers, byte buffers and exclusive or, as the STUN code uses them. */
module Bytes {
  import opened Basics

  function Put16(x: U16): (b: seq<Byte>)
    ensures |b| == 2
  {
    [x / 0x100, x % 0x100]
  }

  function Get16(b: seq<Byte>): U16
    requires |b| >= 2
  {
    b[0] as int * 0x100 + b[1] as int
  }

  function Put32(x: U32): (b: seq<Byte>)
    ensures |b| == 4
  {
    Put16(x / 0x1_0000) + Put16(x % 0x1_0000)
  }

  function Get32(b: seq<Byte>): U32
    requires |b| >= 4
  {
    Get16(b) as int * 0x1_0000 + Get16(b[2..]) as int
  }

  function Put64(x: U64): (b: seq<Byte>)
    ensures |b| == 8
  {
    Put32(x / 0x1_0000_0000) + Put32(x % 0x1_0000_0000)
  }

  lemma GetPut16(x: U16, rest: seq<Byte>)
    ensures Get16(Put16(x) + rest) == x
  {
  }

  lemma GetPut32(x: U32, rest: seq<Byte>)
    ensures Get32(Put32(x) + rest) == x
  {
    var hi, lo := Put16(x / 0x1_0000), Put16(x % 0x1_0000);
    assert Put32(x) + rest == hi + (lo + rest);
    assert (hi + (lo + rest))[2..] == lo + rest;
    GetPut16(x / 0x1_0000, lo + rest);
    GetPut16(x % 0x1_0000, rest);
  }

  // ---------- Exclusive or ----------

  function Pow2(n: nat): nat {
    if n == 0 then 1 else 2 * Pow2(n - 1)
  }

  // The exclusive or of the n low bits.
  function Xor(a: nat, b: nat, n: nat): (r: nat)
    ensures r < Pow2(n)
  {
    if n == 0 then 0 else (a % 2 + b % 2) % 2 + 2 * Xor(a / 2, b / 2, n - 1)
  }

  lemma {:induction false} XorTwice(a: nat, b: nat, n: nat)
    requires a < Pow2(n)
    ensures Xor(Xor(a, b, n), b, n) == a
  {
    if n > 0 {
      var bit, high := (a % 2 + b % 2) % 2, Xor(a / 2, b / 2, n - 1);
      var r := Xor(a, b, n);
      assert r == bit + 2 * high;
      assert r % 2 == bit && r / 2 == high;
      assert (bit + b % 2) % 2 == a % 2;
      XorTwice(a / 2, b / 2, n - 1);
    }
  }

  lemma PowersOf2()
    ensures Pow2(8) == 0x100 && Pow2(16) == 0x1_0000 && Pow2(32) == 0x1_0000_0000
  {
    assert Pow2(8) == 0x100;
    assert Pow2(12) == 0x1000;
    assert Pow2(16) == 0x1_0000;
    assert Pow2(20) == 0x10_0000;
    assert Pow2(24) == 0x100_0000;
    assert Pow2(28) == 0x1000_0000;
  }

  function Xor8(a: Byte, b: Byte): Byte {
    PowersOf2(); Xor(a, b, 8)
  }

  function Xor16(a: U16, b: U16): U16 {
    PowersOf2(); Xor(a, b, 16)
  }

  function Xor32(a: U32, b: U32): U32 {
    PowersOf2(); Xor(a, b, 32)
  }

  /** Exclusive or with the same value twice gives the first value back. */
  lemma XorInverse(a: U32, b: U32)
    ensures Xor32(Xor32(a, b), b) == a
    ensures a < 0x1_0000 && b < 0x1_0000 ==> Xor16(Xor16(a, b), b) == a
    ensures a < 0x100 && b < 0x100 ==> Xor8(Xor8(a, b), b) == a
  {
    PowersOf2();
    XorTwice(a, b, 32);
    if a < 0x1_0000 && b < 0x1_0000 {
      XorTwice(a, b, 16);
    }
    if a < 0x100 && b < 0x100 {
      XorTwice(a, b, 8);
    }
  }

  // ---------- Buffers ----------

  /** rtc::ByteBufferWriter. */
  class ByteBufferWriter {
    var bytes: seq<Byte>

    constructor ()
      ensures bytes == []
    {
      bytes := [];
    }

    method WriteUInt8(x: Byte)
      modifies this
      ensures bytes == old(bytes) + [x]
    {
      bytes := bytes + [x];
    }

    method WriteUInt16(x: U16)
      modifies this
      ensures bytes == old(bytes) + Put16(x)
    {
      bytes := bytes + Put16(x);
    }

    method WriteUInt32(x: U32)
      modifies this
      ensures bytes == old(bytes) + Put32(x)
    {
      bytes := bytes + Put32(x);
    }

    method WriteUInt64(x: U64)
      modifies this
      ensures bytes == old(bytes) + Put64(x)
    {
      bytes := bytes + Put64(x);
    }

    method WriteBytes(b: seq<Byte>)
      modifies this
      ensures bytes == old(bytes) + b
    {
      bytes := bytes + b;
    }
  }

  /** rtc::ByteBufferReader: a cursor that does not move when too little is left. */
  class ByteBufferReader {
    const bytes: seq<Byte>
    var start: nat

    ghost predicate Valid()
      reads this
    {
      start <= |bytes|
    }

    function Rest(): seq<Byte>
      requires Valid()
      reads this
    {
      bytes[start..]
    }

    constructor (bytes: seq<Byte>)
      ensures Valid() && this.bytes == bytes && Rest() == bytes
    {
      this.bytes := bytes;
      start := 0;
    }

    method ReadBytes(len: nat) returns (ok: bool, b: seq<Byte>)
      requires Valid()
      modifies this
      ensures Valid() && ok == (len <= |old(Rest())|)
      ensures if ok then b == old(Rest())[..len] && Rest() == old(Rest())[len..] else Rest() == old(Rest())
    {
      ok, b := len <= |Rest()|, [];
      if ok {
        b := bytes[start..start + len];
        start := start + len;
      }
    }

    method Consume(len: nat) returns (ok: bool)
      requires Valid()
      modifies this
      ensures Valid() && ok == (len <= |old(Rest())|)
      ensures Rest() == if ok then old(Rest())[len..] else old(Rest())
    {
      ok := len <= |Rest()|;
      if ok {
        start := start + len;
      }
    }

    method ReadUInt16() returns (ok: bool, x: U16)
      requires Valid()
      modifies this
      ensures Valid() && ok == (2 <= |old(Rest())|)
      ensures if ok then x == Get16(old(Rest())) && Rest() == old(Rest())[2..] else Rest() == old(Rest())
    {
      var b;
      ok, b := ReadBytes(2);
      x := if ok then Get16(b) else 0;
    }

    method ReadUInt32() returns (ok: bool, x: U32)
      requires Valid()
      modifies this
      ensures Valid() && ok == (4 <= |old(Rest())|)
      ensures if ok then x == Get32(old(Rest())) && Rest() == old(Rest())[4..] else Rest() == old(Rest())
    {
      var b;
      ok, b := ReadBytes(4);
      x := if ok then Get32(b) else 0;
    }
  }
}
