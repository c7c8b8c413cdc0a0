/** Byte sequences and the fixed-width integer layouts the pool writes on the wire. */
module Bytes {

  newtype byte = x: int | 0 <= x < 256
  type Bytes = seq<byte>
  type Digest = d: Bytes | |d| == 32 witness seq(32, _ => 0)
  type uint32 = x: int | 0 <= x < 0x1_0000_0000

  function Zeros(n: nat): (z: Bytes)
    ensures |z| == n
    ensures forall i :: 0 <= i < n ==> z[i] == 0
  {
    seq(n, i requires 0 <= i < n => 0)
  }

  function Reverse<T>(s: seq<T>): (r: seq<T>)
    ensures |r| == |s|
    ensures forall i :: 0 <= i < |s| ==> r[i] == s[|s| - 1 - i]
  {
    seq(|s|, i requires 0 <= i < |s| => s[|s| - 1 - i])
  }

  function Pow256(n: nat): (p: nat)
    ensures p >= 1
  {
    if n == 0 then 1 else 256 * Pow256(n - 1)
  }

  /** The low `n` bytes of `v`, least significant first. */
  function LittleEndian(v: nat, n: nat): (b: Bytes)
    ensures |b| == n
  {
    if n == 0 then [] else [(v % 256) as byte] + LittleEndian(v / 256, n - 1)
  }

  function FromLittleEndian(b: Bytes): nat {
    if b == [] then 0 else b[0] as nat + 256 * FromLittleEndian(b[1..])
  }

  function FromBigEndian(b: Bytes): nat {
    if b == [] then 0 else 256 * FromBigEndian(b[..|b| - 1]) + b[|b| - 1] as nat
  }

  lemma {:induction false} LittleEndianRoundTrip(v: nat, n: nat)
    requires v < Pow256(n)
    ensures FromLittleEndian(LittleEndian(v, n)) == v
  {
    if n > 0 {
      LittleEndianRoundTrip(v / 256, n - 1);
      assert LittleEndian(v, n)[1..] == LittleEndian(v / 256, n - 1);
    }
  }

  // internal/stratum/server.go reverseBytes
  method ReverseBytes(b: Bytes) returns (out: Bytes)
    ensures out == Reverse(b)
  {
    var a := new byte[|b|];
    for i := 0 to |b|
      invariant forall k :: 0 <= k < i ==> a[|b| - 1 - k] == b[k]
    {
      a[|b| - 1 - i] := b[i];
    }
    out := a[..];
    assert forall k :: 0 <= k < |b| ==> out[k] == a[|b| - 1 - (|b| - 1 - k)];
  }

  /** Bitcoin's compact-size integer. */
  function VarInt(n: nat): (b: Bytes)
    requires n < 0x1_0000_0000_0000_0000
  {
    if n < 0xfd then [n as byte]
    else if n <= 0xffff then [0xfd] + LittleEndian(n, 2)
    else if n <= 0xffff_ffff then [0xfe] + LittleEndian(n, 4)
    else [0xff] + LittleEndian(n, 8)
  }

  datatype Read = Short | Read(value: nat, rest: Bytes)

  function ReadLittleEndian(b: Bytes, n: nat): Read {
    if |b| < n then Short else Read(FromLittleEndian(b[..n]), b[n..])
  }

  /** A reader of compact-size integers, independent of the writer above. */
  function ReadVarInt(b: Bytes): Read {
    if b == [] then Short
    else if b[0] < 0xfd then Read(b[0] as nat, b[1..])
    else if b[0] == 0xfd then ReadLittleEndian(b[1..], 2)
    else if b[0] == 0xfe then ReadLittleEndian(b[1..], 4)
    else ReadLittleEndian(b[1..], 8)
  }

  lemma Pow256Values()
    ensures Pow256(2) == 0x1_0000
    ensures Pow256(4) == 0x1_0000_0000
    ensures Pow256(8) == 0x1_0000_0000_0000_0000
  {
    assert Pow256(2) == 256 * Pow256(1);
    assert Pow256(4) == 256 * (256 * Pow256(2));
    assert Pow256(6) == 256 * (256 * Pow256(4));
    assert Pow256(8) == 256 * (256 * Pow256(6));
  }

  lemma {:induction false} ReadBack(v: nat, n: nat, rest: Bytes)
    requires v < Pow256(n)
    ensures ReadLittleEndian(LittleEndian(v, n) + rest, n) == Read(v, rest)
  {
    LittleEndianRoundTrip(v, n);
    assert (LittleEndian(v, n) + rest)[..n] == LittleEndian(v, n);
  }

  lemma TaggedReadBack(tag: byte, v: nat, n: nat, rest: Bytes)
    requires v < Pow256(n)
    ensures var b := [tag] + LittleEndian(v, n) + rest;
      b != [] && b[0] == tag && ReadLittleEndian(b[1..], n) == Read(v, rest)
  {
    ReadBack(v, n, rest);
    assert ([tag] + LittleEndian(v, n) + rest)[1..] == LittleEndian(v, n) + rest;
  }

  /** Whatever follows it, a written compact-size integer reads back to the value written. */
  lemma VarIntRoundTrip(n: nat, rest: Bytes)
    requires n < 0x1_0000_0000_0000_0000
    ensures ReadVarInt(VarInt(n) + rest) == Read(n, rest)
  {
    Pow256Values();
    if n < 0xfd {
      assert ([n as byte] + rest)[1..] == rest;
    } else if n <= 0xffff {
      TaggedReadBack(0xfd, n, 2, rest);
    } else if n <= 0xffff_ffff {
      TaggedReadBack(0xfe, n, 4, rest);
    } else {
      TaggedReadBack(0xff, n, 8, rest);
    }
  }
}
