/**
 The two address checksums of the pool. Both run a shift register over 5-bit symbols; they differ in
 the width of the register and in the feedback constants.
 (internal/rpc/bech32.go and internal/rpc/cashaddr.go)
 */
module Checksum {
  import opened Bitwise
  import opened Bytes

  datatype Code = Bech32 | CashAddr

  // ----- The shift register -----

  /** How many whole symbols the register holds. */
  function Window(code: Code): nat {
    match code
    case Bech32 => 6
    case CashAddr => 8
  }

  /** The bits that stay when the top symbol is shifted out. */
  function Kept(code: Code): nat {
    match code
    case Bech32 => 25
    case CashAddr => 35
  }

  function Generators(code: Code): (g: seq<nat>)
    ensures |g| == 5
  {
    match code
    case Bech32 => [0x3b6a57b2, 0x26508e6d, 0x1ea119fa, 0x3d4233dd, 0x2a1462b3]
    case CashAddr => [0x98f2bc8e61, 0x79b76d99e2, 0xf33e5fb3c4, 0xae2eabe2a8, 0x1e4f43e470]
  }

  /** One round per bit of the symbol shifted out: a set bit mixes in its generator. */
  function Mix(c: nat, top: nat, gens: seq<nat>): nat
    decreases |gens|
  {
    if gens == [] then c
    else Mix(if top % 2 == 1 then Xor(c, gens[0]) else c, top / 2, gens[1..])
  }

  function Step(code: Code, c: nat, v: nat): nat {
    Mix(Xor(32 * Low(c, Kept(code)), v), Shr(c, Kept(code)), Generators(code))
  }

  function Run(code: Code, c: nat, values: Bytes): nat
    decreases |values|
  {
    if values == [] then c else Run(code, Step(code, c, values[0] as nat), values[1..])
  }

  // ----- The two loops of the source -----

  method Bech32Polymod(values: Bytes) returns (chk: uint32)
    ensures chk == Run(Bech32, 1, values)
  {
    chk := 1;
    for k := 0 to |values|
      invariant Run(Bech32, chk, values[k..]) == Run(Bech32, 1, values)
    {
      StepFits(Bech32, chk, values[k]);
      ghost var next := Step(Bech32, chk, values[k] as nat);
      var b := Shr(chk, 25);
      var gens := Generators(Bech32);
      var c := Xor(32 * Low(chk, 25), values[k] as nat);
      for i := 0 to 5
        invariant Mix(c, Shr(b, i), gens[i..]) == next
      {
        MixRound(c, b, gens, i);
        if Bit(b, i) {
          c := Xor(c, gens[i]);
        }
      }
      assert values[k..][1..] == values[k + 1..];
      chk := c;
    }
  }

  /** The register never needs more than 30, or 40, bits: the 32-bit variable of the source loses nothing. */
  lemma StepFits(code: Code, c: nat, v: byte)
    ensures Step(code, c, v as nat) < Pow2(Kept(code) + 5)
    ensures code == Bech32 ==> Step(code, c, v as nat) < 0x4000_0000
  {
    var k := Kept(code) + 5;
    Pow2Values();
    LowBound(c, Kept(code));
    assert Pow2(Kept(code) + 5) == 32 * Pow2(Kept(code)) by { Pow2Plus5(Kept(code)); }
    XorBound(32 * Low(c, Kept(code)), v as nat, k);
    MixBound(Xor(32 * Low(c, Kept(code)), v as nat), Shr(c, Kept(code)), Generators(code), k);
  }

  lemma Pow2Plus5(k: nat)
    ensures Pow2(k + 5) == 32 * Pow2(k)
  {
    assert Pow2(k + 5) == 2 * Pow2(k + 4);
    assert Pow2(k + 3) == 2 * Pow2(k + 2);
    assert Pow2(k + 1) == 2 * Pow2(k);
  }

  lemma Pow2Values()
    ensures Pow2(5) == 32 && Pow2(10) == 0x400 && Pow2(25) == 0x200_0000 && Pow2(30) == 0x4000_0000
    ensures Pow2(35) == 0x8_0000_0000 && Pow2(40) == 0x100_0000_0000
  {
    Pow2Plus5(0);
    Pow2Plus5(5);
    Pow2Plus5(10);
    Pow2Plus5(15);
    Pow2Plus5(20);
    Pow2Plus5(25);
    Pow2Plus5(30);
    Pow2Plus5(35);
  }

  lemma {:induction false} MixBound(c: nat, top: nat, gens: seq<nat>, k: nat)
    requires c < Pow2(k) && forall i :: 0 <= i < |gens| ==> gens[i] < Pow2(k)
    ensures Mix(c, top, gens) < Pow2(k)
    decreases |gens|
  {
    if gens != [] {
      XorBound(c, gens[0], k);
      MixBound(if top % 2 == 1 then Xor(c, gens[0]) else c, top / 2, gens[1..], k);
    }
  }

  lemma {:induction false} ShrNext(x: nat, i: nat)
    ensures Shr(x, i + 1) == Shr(x, i) / 2
    decreases i
  {
    if i > 0 {
      ShrNext(x / 2, i - 1);
    }
  }

  method CashAddrPolymod(values: Bytes) returns (r: nat)
    ensures r == Xor(Run(CashAddr, 1, values), 1)
  {
    var c := 1;
    var gens := Generators(CashAddr);
    for k := 0 to |values|
      invariant Run(CashAddr, c, values[k..]) == Run(CashAddr, 1, values)
    {
      var c0 := Shr(c, 35);
      ghost var before := c;
      c := Xor(32 * Low(c, 35), values[k] as nat);
      SelectedIsMix(c, c0, gens);
      if Bit(c0, 0) { c := Xor(c, gens[0]); }
      if Bit(c0, 1) { c := Xor(c, gens[1]); }
      if Bit(c0, 2) { c := Xor(c, gens[2]); }
      if Bit(c0, 3) { c := Xor(c, gens[3]); }
      if Bit(c0, 4) { c := Xor(c, gens[4]); }
      assert values[k..][1..] == values[k + 1..];
    }
    r := Xor(c, 1);
  }

  /** The five tests written out one after the other. */
  function Selected(c: nat, top: nat, g: seq<nat>): nat
    requires |g| == 5
  {
    var c1 := if Bit(top, 0) then Xor(c, g[0]) else c;
    var c2 := if Bit(top, 1) then Xor(c1, g[1]) else c1;
    var c3 := if Bit(top, 2) then Xor(c2, g[2]) else c2;
    var c4 := if Bit(top, 3) then Xor(c3, g[3]) else c3;
    if Bit(top, 4) then Xor(c4, g[4]) else c4
  }

  lemma SelectedIsMix(c: nat, top: nat, g: seq<nat>)
    requires |g| == 5
    ensures Selected(c, top, g) == Mix(c, top, g)
  {
    var c1 := if Bit(top, 0) then Xor(c, g[0]) else c;
    var c2 := if Bit(top, 1) then Xor(c1, g[1]) else c1;
    var c3 := if Bit(top, 2) then Xor(c2, g[2]) else c2;
    var c4 := if Bit(top, 3) then Xor(c3, g[3]) else c3;
    assert g[0..] == g;
    MixRound(c, top, g, 0);
    MixRound(c1, top, g, 1);
    MixRound(c2, top, g, 2);
    MixRound(c3, top, g, 3);
    MixRound(c4, top, g, 4);
  }

  lemma MixRound(c: nat, top: nat, g: seq<nat>, i: nat)
    requires i < |g|
    ensures Mix(c, Shr(top, i), g[i..]) == Mix(if Bit(top, i) then Xor(c, g[i]) else c, Shr(top, i + 1), g[i + 1..])
  {
    ShrNext(top, i);
    assert g[i..][1..] == g[i + 1..];
  }

  // ----- Verification -----

  function HighBits(hrp: Bytes): (r: Bytes)
    ensures |r| == |hrp|
    ensures forall i :: 0 <= i < |r| ==> r[i] == hrp[i] / 32
  {
    seq(|hrp|, i requires 0 <= i < |hrp| => hrp[i] / 32)
  }

  function LowBits(hrp: Bytes): (r: Bytes)
    ensures |r| == |hrp|
    ensures forall i :: 0 <= i < |r| ==> r[i] == hrp[i] % 32
  {
    seq(|hrp|, i requires 0 <= i < |hrp| => hrp[i] % 32)
  }

  /** The human-readable part as symbols. */
  function Prefix(code: Code, hrp: Bytes): Bytes {
    match code
    case Bech32 => HighBits(hrp) + [0] + LowBits(hrp)
    case CashAddr => LowBits(hrp) + [0]
  }

  predicate Valid(code: Code, hrp: Bytes, data: Bytes) {
    Run(code, 1, Prefix(code, hrp) + data) == 1
  }

  method Bech32VerifyChecksum(hrp: Bytes, data: Bytes) returns (ok: bool)
    ensures ok <==> Run(Bech32, 1, HighBits(hrp) + [0] + LowBits(hrp) + data) == 1
  {
    var n := |hrp|;
    var ret := new byte[2 * n + 1];
    for i := 0 to n
      invariant forall k :: 0 <= k < i ==> ret[k] == hrp[k] / 32
      invariant forall k :: n + 1 <= k < n + 1 + i ==> ret[k] == hrp[k - n - 1] % 32
    {
      ret[i] := hrp[i] / 32;
      ret[i + n + 1] := hrp[i] % 32;
    }
    ret[n] := 0;
    assert ret[..] == Prefix(Bech32, hrp);
    var chk := Bech32Polymod(ret[..] + data);
    ok := chk == 1;
  }

  method CashAddrVerifyChecksum(hrp: Bytes, data: Bytes) returns (ok: bool)
    ensures ok <==> Run(CashAddr, 1, LowBits(hrp) + [0] + data) == 1
  {
    var payload: Bytes := [];
    for i := 0 to |hrp|
      invariant payload == LowBits(hrp)[..i]
    {
      payload := payload + [hrp[i] % 32];
    }
    payload := payload + [0];
    payload := payload + data;
    assert payload == Prefix(CashAddr, hrp) + data;
    var r := CashAddrPolymod(payload);
    XorZeroIff(Run(CashAddr, 1, payload), 1);
    ok := r == 0;
  }

  // ----- Algebra of one step -----

  lemma {:induction false} MixIsLinear(c: nat, d: nat, s: nat, t: nat, gens: seq<nat>)
    ensures Mix(Xor(c, d), Xor(s, t), gens) == Xor(Mix(c, s, gens), Mix(d, t, gens))
    decreases |gens|
  {
    if gens != [] {
      var g := gens[0];
      XorHalves(s, t);
      var c' := if s % 2 == 1 then Xor(c, g) else c;
      var d' := if t % 2 == 1 then Xor(d, g) else d;
      assert Xor(c', d') == if s % 2 != t % 2 then Xor(Xor(c, d), g) else Xor(c, d) by {
        MixOne(c, d, g);
      }
      MixIsLinear(c', d', s / 2, t / 2, gens[1..]);
    }
  }

  lemma MixOne(c: nat, d: nat, g: nat)
    ensures Xor(Xor(c, g), d) == Xor(Xor(c, d), g)
    ensures Xor(c, Xor(d, g)) == Xor(Xor(c, d), g)
    ensures Xor(Xor(c, g), Xor(d, g)) == Xor(c, d)
  {
    XorAssoc(c, g, d);
    XorComm(g, d);
    XorAssoc(c, d, g);
    XorPairs(c, g, d, g);
    XorZeroIff(g, g);
    XorZero(Xor(c, d));
  }

  lemma StepIsLinear(code: Code, a: nat, b: nat, u: nat, v: nat)
    ensures Step(code, Xor(a, b), Xor(u, v)) == Xor(Step(code, a, u), Step(code, b, v))
  {
    var k := Kept(code);
    XorShr(a, b, k);
    XorLow(a, b, k);
    XorTimes32(Low(a, k), Low(b, k));
    XorPairs(32 * Low(a, k), 32 * Low(b, k), u, v);
    MixIsLinear(Xor(32 * Low(a, k), u), Xor(32 * Low(b, k), v), Shr(a, k), Shr(b, k), Generators(code));
  }

  lemma {:induction false} MixNothing(c: nat, gens: seq<nat>)
    ensures Mix(c, 0, gens) == c
    decreases |gens|
  {
    if gens != [] {
      MixNothing(c, gens[1..]);
    }
  }

  /** While the top symbol is empty, a step only appends: nothing is lost. */
  lemma StepPacks(code: Code, c: nat, v: nat)
    requires c < Pow2(Kept(code)) && v < 32
    ensures Step(code, c, v) == 32 * c + v
  {
    SmallFits(c, Kept(code));
    XorAppendSymbol(c, v);
    MixNothing(32 * c + v, Generators(code));
    assert Step(code, c, v) == Mix(Xor(32 * c, v), 0, Generators(code));
  }

  /** Bit `j` of the mixed register: the parity of what was selected. */
  lemma SelectedBit(c: nat, top: nat, g: seq<nat>, j: nat)
    requires |g| == 5
    ensures Bit(Selected(c, top, g), j) <==>
      (((((Bit(c, j) != (Bit(top, 0) && Bit(g[0], j))) != (Bit(top, 1) && Bit(g[1], j)))
      != (Bit(top, 2) && Bit(g[2], j))) != (Bit(top, 3) && Bit(g[3], j))) != (Bit(top, 4) && Bit(g[4], j)))
  {
    var c1 := if Bit(top, 0) then Xor(c, g[0]) else c;
    var c2 := if Bit(top, 1) then Xor(c1, g[1]) else c1;
    var c3 := if Bit(top, 2) then Xor(c2, g[2]) else c2;
    var c4 := if Bit(top, 3) then Xor(c3, g[3]) else c3;
    BitXor(c, g[0], j);
    BitXor(c1, g[1], j);
    BitXor(c2, g[2], j);
    BitXor(c3, g[3], j);
    BitXor(c4, g[4], j);
  }

  lemma BitOf(x: nat)
    ensures Bit(x, 0) <==> x % 2 == 1
    ensures Bit(x, 1) <==> (x / 2) % 2 == 1
    ensures Bit(x, 2) <==> (x / 2 / 2) % 2 == 1
    ensures Bit(x, 3) <==> (x / 2 / 2 / 2) % 2 == 1
    ensures Bit(x, 4) <==> (x / 2 / 2 / 2 / 2) % 2 == 1
  {
    ShrNext(x, 0);
    ShrNext(x, 1);
    ShrNext(x, 2);
    ShrNext(x, 3);
  }

  predicate NoneSelected(top: nat) {
    !Bit(top, 0) && !Bit(top, 1) && !Bit(top, 2) && !Bit(top, 3) && !Bit(top, 4)
  }

  /** The low symbol of generator `i`, lowest bit first. */
  function Column(code: Code, i: nat): (b: seq<bool>)
    requires i < 5
    ensures |b| == 5
  {
    match code
    case Bech32 =>
      if i == 0 then [false, true, false, false, true]
      else if i == 1 then [true, false, true, true, false]
      else if i == 2 then [false, true, false, true, true]
      else if i == 3 then [true, false, true, true, true]
      else [true, true, false, false, true]
    case CashAddr => [i == 0, i == 1, i == 2, i == 3, i == 4]
  }

  function FromBits(b: seq<bool>): nat {
    if b == [] then 0 else (if b[0] then 1 else 0) + 2 * FromBits(b[1..])
  }

  lemma {:induction false} BitOfFromBits(b: seq<bool>, j: nat)
    requires j < |b|
    ensures Bit(FromBits(b), j) == b[j]
    decreases |b|
  {
    assert FromBits(b) / 2 == FromBits(b[1..]);
    if j > 0 {
      BitOfFromBits(b[1..], j - 1);
    }
  }

  lemma FiveBits(b: seq<bool>)
    requires |b| == 5
    ensures FromBits(b) == (if b[0] then 1 else 0) + (if b[1] then 2 else 0) + (if b[2] then 4 else 0)
      + (if b[3] then 8 else 0) + (if b[4] then 16 else 0)
  {
    assert FromBits(b[1..]) == (if b[1] then 1 else 0) + 2 * FromBits(b[2..]) by { assert b[1..][1..] == b[2..]; }
    assert FromBits(b[2..]) == (if b[2] then 1 else 0) + 2 * FromBits(b[3..]) by { assert b[2..][1..] == b[3..]; }
    assert FromBits(b[3..]) == (if b[3] then 1 else 0) + 2 * FromBits(b[4..]) by { assert b[3..][1..] == b[4..]; }
    assert FromBits(b[4..]) == (if b[4] then 1 else 0) by { assert b[4..][1..] == []; }
  }

  lemma ColumnSymbol(code: Code, i: nat)
    requires i < 5
    ensures Generators(code)[i] % 32 == FromBits(Column(code, i))
  {
    FiveBits(Column(code, i));
    match code {
      case Bech32 =>
        if i == 0 {
        } else if i == 1 {
        } else if i == 2 {
        } else if i == 3 {
        }
      case CashAddr =>
        if i == 0 {
        } else if i == 1 {
        } else if i == 2 {
        } else if i == 3 {
        }
    }
  }

  lemma ColumnIsRight(code: Code, i: nat, j: nat)
    requires i < 5 && j < 5
    ensures Bit(Generators(code)[i], j) == Column(code, i)[j]
  {
    ColumnSymbol(code, i);
    BitFromLowSymbol(Generators(code)[i], Generators(code)[i] % 32, j);
    BitOfFromBits(Column(code, i), j);
  }

  /** Bits below `k` do not depend on what stands above them. */
  lemma {:induction false} BitBelow(q: nat, n: nat, k: nat, j: nat)
    requires j < k
    ensures Bit(Pow2(k) * q + n, j) <==> Bit(n, j)
    decreases k
  {
    var p := Pow2(k - 1) * q;
    assert Pow2(k) * q + n == 2 * p + n;
    assert (2 * p + n) / 2 == p + n / 2 && (2 * p + n) % 2 == n % 2;
    if j > 0 {
      BitBelow(q, n / 2, k - 1, j - 1);
    }
  }

  lemma {:induction false} NoBitInZero(j: nat)
    ensures !Bit(0, j)
    decreases j
  {
    if j > 0 {
      NoBitInZero(j - 1);
    }
  }

  lemma ShiftedBitIsClear(x: nat, j: nat)
    requires j < 5
    ensures !Bit(32 * x, j)
  {
    Pow2Values();
    BitBelow(x, 0, 5, j);
    NoBitInZero(j);
  }

  lemma BitFromLowSymbol(x: nat, n: nat, j: nat)
    requires x % 32 == n && j < 5
    ensures Bit(x, j) <==> Bit(n, j)
  {
    Pow2Values();
    BitBelow(x / 32, n, 5, j);
  }

  /** Bit `j` of the sum of the selected columns. */
  predicate ColumnParity(code: Code, j: nat, t0: bool, t1: bool, t2: bool, t3: bool, t4: bool)
    requires j < 5
  {
    ((((t0 && Column(code, 0)[j]) != (t1 && Column(code, 1)[j])) != (t2 && Column(code, 2)[j]))
     != (t3 && Column(code, 3)[j])) != (t4 && Column(code, 4)[j])
  }

  /** If nothing is left in the register, every low bit of the selected generators cancels. */
  lemma ParityVanishes(code: Code, x: nat, top: nat, j: nat)
    requires j < 5 && Selected(32 * x, top, Generators(code)) == 0
    ensures !ColumnParity(code, j, Bit(top, 0), Bit(top, 1), Bit(top, 2), Bit(top, 3), Bit(top, 4))
  {
    SelectedBit(32 * x, top, Generators(code), j);
    ShiftedBitIsClear(x, j);
    NoBitInZero(j);
    ColumnIsRight(code, 0, j);
    ColumnIsRight(code, 1, j);
    ColumnIsRight(code, 2, j);
    ColumnIsRight(code, 3, j);
    ColumnIsRight(code, 4, j);
  }

  /** The low symbols of the generators are independent. */
  lemma ColumnsAreIndependent(code: Code, t0: bool, t1: bool, t2: bool, t3: bool, t4: bool)
    requires !ColumnParity(code, 0, t0, t1, t2, t3, t4) && !ColumnParity(code, 1, t0, t1, t2, t3, t4)
    requires !ColumnParity(code, 2, t0, t1, t2, t3, t4) && !ColumnParity(code, 3, t0, t1, t2, t3, t4)
    requires !ColumnParity(code, 4, t0, t1, t2, t3, t4)
    ensures !t0 && !t1 && !t2 && !t3 && !t4
  {
  }

  /** So the low five bits of the register show which generators were mixed in. */
  lemma SelectionShows(code: Code, x: nat, top: nat)
    requires Selected(32 * x, top, Generators(code)) == 0
    ensures NoneSelected(top)
  {
    ParityVanishes(code, x, top, 0);
    ParityVanishes(code, x, top, 1);
    ParityVanishes(code, x, top, 2);
    ParityVanishes(code, x, top, 3);
    ParityVanishes(code, x, top, 4);
    ColumnsAreIndependent(code, Bit(top, 0), Bit(top, 1), Bit(top, 2), Bit(top, 3), Bit(top, 4));
  }

  lemma NoneSelectedIsZero(top: nat)
    requires NoneSelected(top) && top < 32
    ensures top == 0
  {
    BitOf(top);
  }

  /** A full register that differs keeps differing: with symbol 0 the step has no kernel. */
  lemma StepKeepsDifference(code: Code, c: nat)
    requires c < Pow2(Kept(code) + 5)
    ensures Step(code, c, 0) < Pow2(Kept(code) + 5)
    ensures Step(code, c, 0) == 0 <==> c == 0
  {
    StepFits(code, c, 0);
    var top, low := Shr(c, Kept(code)), Low(c, Kept(code));
    XorZero(32 * low);
    SplitAt(c, Kept(code));
    ShrBound(c, Kept(code), 5);
    if Step(code, c, 0) == 0 {
      NoKernel(code, low, top);
    } else if c == 0 {
      StepOfZero(code);
    }
  }

  lemma StepOfZero(code: Code)
    ensures Step(code, 0, 0) == 0
  {
    Pow2Values();
    StepPacks(code, 0, 0);
  }

  lemma NoKernel(code: Code, low: nat, top: nat)
    requires top < Pow2(5) && Mix(32 * low, top, Generators(code)) == 0
    ensures low == 0 && top == 0
  {
    SelectedIsMix(32 * low, top, Generators(code));
    SelectionShows(code, low, top);
    assert top < 32 by { Pow2Values(); }
    NoneSelectedIsZero(top);
    MixNothing(32 * low, Generators(code));
  }

  // ----- Lifted to whole words -----

  function XorByte(a: byte, b: byte): (r: byte)
    ensures r as nat == Xor(a as nat, b as nat)
  {
    XorBound(a as nat, b as nat, 8);
    Xor(a as nat, b as nat) as byte
  }

  function Difference(x: Bytes, y: Bytes): (d: Bytes)
    requires |x| == |y|
    ensures |d| == |x|
    ensures forall i :: 0 <= i < |d| ==> d[i] == XorByte(x[i], y[i])
  {
    seq(|x|, i requires 0 <= i < |x| => XorByte(x[i], y[i]))
  }

  lemma DifferenceTail(x: Bytes, y: Bytes)
    requires |x| == |y| > 0
    ensures Difference(x, y)[1..] == Difference(x[1..], y[1..])
  {
  }

  lemma {:induction false} RunIsLinear(code: Code, a: nat, b: nat, x: Bytes, y: Bytes)
    requires |x| == |y|
    ensures Run(code, Xor(a, b), Difference(x, y)) == Xor(Run(code, a, x), Run(code, b, y))
    decreases |x|
  {
    if x != [] {
      var p, q := Step(code, a, x[0] as nat), Step(code, b, y[0] as nat);
      StepIsLinear(code, a, b, x[0] as nat, y[0] as nat);
      RunIsLinear(code, p, q, x[1..], y[1..]);
      DifferenceTail(x, y);
      assert Run(code, Xor(a, b), Difference(x, y)) == Run(code, Xor(p, q), Difference(x[1..], y[1..]));
    }
  }

  lemma RunFirst(code: Code, c: nat, x: Bytes, y: Bytes)
    requires x != []
    ensures var next := Step(code, c, x[0] as nat);
      Run(code, c, x + y) == Run(code, next, x[1..] + y) && Run(code, c, x) == Run(code, next, x[1..])
  {
    assert (x + y)[1..] == x[1..] + y;
  }

  lemma {:induction false} RunSplits(code: Code, c: nat, x: Bytes, y: Bytes)
    ensures Run(code, c, x + y) == Run(code, Run(code, c, x), y)
    decreases |x|
  {
    if x == [] {
      assert x + y == y;
    } else {
      RunFirst(code, c, x, y);
      RunSplits(code, Step(code, c, x[0] as nat), x[1..], y);
    }
  }

  predicate Small(d: Bytes) {
    forall i :: 0 <= i < |d| ==> d[i] < 32
  }

  predicate AllZero(d: Bytes) {
    forall i :: 0 <= i < |d| ==> d[i] == 0
  }

  lemma {:induction false} ZerosKeepDifference(code: Code, c: nat, d: Bytes)
    requires c < Pow2(Kept(code) + 5) && AllZero(d)
    ensures Run(code, c, d) == 0 <==> c == 0
    decreases |d|
  {
    if d != [] {
      StepKeepsDifference(code, c);
      ZerosKeepDifference(code, Step(code, c, 0), d[1..]);
    }
  }

  function Packed(c: nat, d: Bytes): nat
    decreases |d|
  {
    if d == [] then c else Packed(32 * c + d[0] as nat, d[1..])
  }

  lemma {:induction false} PackedIsZero(c: nat, d: Bytes)
    ensures Packed(c, d) == 0 <==> c == 0 && AllZero(d)
    decreases |d|
  {
    if d != [] {
      PackedIsZero(32 * c + d[0] as nat, d[1..]);
      AllZeroTail(d);
    }
  }

  lemma RegisterFits(code: Code, k: nat)
    requires k <= Window(code)
    ensures Pow2(5 * k) <= Pow2(Kept(code) + 5)
  {
    assert 5 * Window(code) == Kept(code) + 5;
    Pow2Grows(5 * k, Kept(code) + 5);
  }

  lemma RunHead(code: Code, c: nat, d: Bytes, next: nat)
    requires d != [] && next == Step(code, c, d[0] as nat)
    ensures Run(code, c, d) == Run(code, next, d[1..])
  {
  }

  lemma PackedHead(c: nat, d: Bytes, next: nat)
    requires d != [] && next == 32 * c + d[0] as nat
    ensures Packed(c, d) == Packed(next, d[1..])
  {
  }

  /** At most a full register of symbols is packed whole. */
  lemma {:induction false} ShortWordPacks(code: Code, c: nat, d: Bytes, k: nat)
    requires k + |d| <= Window(code) && c < Pow2(5 * k) && Small(d)
    ensures Run(code, c, d) == Packed(c, d) < Pow2(Kept(code) + 5)
    decreases |d|
  {
    if d == [] {
      RegisterFits(code, k);
    } else {
      var v := d[0] as nat;
      var next := Step(code, c, v);
      StepFills(code, c, v, k);
      RunHead(code, c, d, next);
      PackedHead(c, d, next);
      ShortWordPacks(code, next, d[1..], k + 1);
    }
  }

  lemma StepFills(code: Code, c: nat, v: nat, k: nat)
    requires k < Window(code) && c < Pow2(5 * k) && v < 32
    ensures Step(code, c, v) == 32 * c + v < Pow2(5 * (k + 1))
  {
    Pow2Grows(5 * k, Kept(code));
    StepPacks(code, c, v);
    Pow2Plus5(5 * k);
  }

  lemma AllZeroTail(d: Bytes)
    requires d != []
    ensures AllZero(d) <==> d[0] == 0 && AllZero(d[1..])
  {
  }

  /** Whether a change goes undetected depends on the difference alone, not on the valid word changed. */
  lemma ChangeDetectedByDifference(code: Code, hrp: Bytes, x: Bytes, y: Bytes)
    requires |x| == |y| && Valid(code, hrp, x)
    ensures Valid(code, hrp, y) <==> Run(code, 0, Difference(x, y)) == 0
  {
    var start := Run(code, 1, Prefix(code, hrp));
    RunSplits(code, 1, Prefix(code, hrp), x);
    RunSplits(code, 1, Prefix(code, hrp), y);
    RunIsLinear(code, start, start, x, y);
    XorZeroIff(start, start);
    XorZeroIff(Run(code, start, x), Run(code, start, y));
  }

  /** `x` and `y` agree outside the `n` symbols from position `i` on. */
  predicate DifferOnlyIn(x: Bytes, y: Bytes, i: nat, n: nat) {
    && |x| == |y| && i + n <= |x|
    && x[..i] == y[..i] && x[i + n..] == y[i + n..]
    && forall k :: i <= k < i + n ==> x[k] < 32 && y[k] < 32
  }

  lemma DifferenceOfSymbols(u: byte, v: byte)
    ensures u < 32 && v < 32 ==> XorByte(u, v) < 32
    ensures XorByte(u, v) == 0 <==> u == v
  {
    XorZeroIff(u as nat, v as nat);
    assert Pow2(5) == 32 by { Pow2Values(); }
    if u < 32 && v < 32 {
      XorBound(u as nat, v as nat, 5);
    }
  }

  lemma BurstDifference(x: Bytes, y: Bytes, i: nat, n: nat)
    requires DifferOnlyIn(x, y, i, n)
    ensures var d := Difference(x, y);
      && AllZero(d[..i]) && AllZero(d[i + n..]) && Small(d[i..i + n])
      && (AllZero(d[i..i + n]) ==> x == y)
  {
    var d := Difference(x, y);
    forall k | 0 <= k < |x|
      ensures x[k] < 32 && y[k] < 32 ==> d[k] < 32
      ensures d[k] == 0 <==> x[k] == y[k]
    {
      DifferenceOfSymbols(x[k], y[k]);
    }
    assert forall k :: 0 <= k < i ==> x[..i][k] == x[k] == y[k];
    assert forall k :: i + n <= k < |x| ==> x[k] == x[i + n..][k - i - n] == y[k];
    if AllZero(d[i..i + n]) {
      assert forall k :: i <= k < i + n ==> d[k] == d[i..i + n][k - i];
      assert x == y;
    }
  }

  /**
   A change confined to as many consecutive symbols as the register holds, six for Bech32 and eight
   for CashAddr, is always rejected, wherever it is and however long the address is.
   */
  lemma BurstIsDetected(code: Code, hrp: Bytes, x: Bytes, y: Bytes, i: nat, n: nat)
    requires Valid(code, hrp, x) && DifferOnlyIn(x, y, i, n) && n <= Window(code)
    ensures Valid(code, hrp, y) <==> x == y
  {
    if x != y {
      BurstIsRejected(code, hrp, x, y, i, n);
    }
  }

  lemma BurstIsRejected(code: Code, hrp: Bytes, x: Bytes, y: Bytes, i: nat, n: nat)
    requires Valid(code, hrp, x) && DifferOnlyIn(x, y, i, n) && n <= Window(code) && x != y
    ensures !Valid(code, hrp, y)
  {
    var d := Difference(x, y);
    BurstDifference(x, y, i, n);
    ThreeParts(d, i, i + n);
    BurstShows(code, hrp, x, y, d[..i], d[i..i + n], d[i + n..]);
  }

  lemma BurstShows(code: Code, hrp: Bytes, x: Bytes, y: Bytes, before: Bytes, burst: Bytes, after: Bytes)
    requires |x| == |y| && Valid(code, hrp, x) && Difference(x, y) == before + (burst + after)
    requires AllZero(before) && Small(burst) && |burst| <= Window(code) && AllZero(after)
    ensures Valid(code, hrp, y) <==> AllZero(burst)
  {
    RunOfBurst(code, before, burst, after);
    ChangeDetectedByDifference(code, hrp, x, y);
  }

  lemma ThreeParts(d: Bytes, i: nat, j: nat)
    requires i <= j <= |d|
    ensures d == d[..i] + (d[i..j] + d[j..])
  {
  }

  lemma RunOfBurst(code: Code, before: Bytes, burst: Bytes, after: Bytes)
    requires AllZero(before) && Small(burst) && |burst| <= Window(code) && AllZero(after)
    ensures Run(code, 0, before + (burst + after)) == 0 <==> AllZero(burst)
  {
    ShortWordPacks(code, 0, burst, 0);
    PackedIsZero(0, burst);
    ZerosKeepDifference(code, 0, before);
    ZerosKeepDifference(code, Run(code, 0, burst), after);
    RunSplits(code, 0, before, burst + after);
    RunSplits(code, 0, burst, after);
  }

  /** In particular the checksum symbols at the end are determined by everything before them. */
  lemma ChecksumIsDetermined(code: Code, hrp: Bytes, x: Bytes, y: Bytes)
    requires Valid(code, hrp, x) && Valid(code, hrp, y) && |x| == |y| && |x| >= Window(code)
    requires Small(x) && Small(y)
    requires x[..|x| - Window(code)] == y[..|y| - Window(code)]
    ensures x == y
  {
    assert x[|x|..] == [] == y[|y|..];
    BurstIsDetected(code, hrp, x, y, |x| - Window(code), Window(code));
  }
}
