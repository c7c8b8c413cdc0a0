/**
 Regrouping a byte string into groups of another width, as Bech32 addresses need.
 (internal/rpc/bech32.go, bech32ConvertBits)
 */
module ConvertBits {
  import opened Arithmetic
  import opened Bitwise
  import opened Bytes
  import opened Sequences
  import opened Wrappers

  // ----- The specification: the same bits, cut differently -----

  type Bits = seq<bool>

  function BitValue(b: bool): nat {
    if b then 1 else 0
  }

  /** The `w` low bits of `v`, highest first. */
  function ToBits(v: nat, w: nat): (b: Bits)
    ensures |b| == w
    decreases w
  {
    if w == 0 then [] else ToBits(v / 2, w - 1) + [v % 2 == 1]
  }

  function Value(b: Bits): nat {
    if b == [] then 0 else 2 * Value(b[..|b| - 1]) + BitValue(b[|b| - 1])
  }

  function Flatten(data: Bytes, w: nat): Bits {
    if data == [] then [] else ToBits(data[0] as nat, w) + Flatten(data[1..], w)
  }

  lemma {:induction false} ValueBound(b: Bits)
    ensures Value(b) < Pow2(|b|)
  {
    if b != [] {
      ValueBound(b[..|b| - 1]);
    }
  }

  lemma Pow2Of8()
    ensures Pow2(8) == 256
  {
  }

  /** One group as a byte. */
  function Group(b: Bits): (r: byte)
    requires |b| <= 8
    ensures r as nat == Value(b)
  {
    ValueBound(b);
    Pow2Grows(|b|, 8);
    Pow2Of8();
    Value(b) as byte
  }

  /** The whole groups of `w` bits, and what is left over. */
  function Chunks(b: Bits, w: nat): Bytes
    requires 1 <= w <= 8
    decreases |b|
  {
    if |b| < w then [] else [Group(b[..w])] + Chunks(b[w..], w)
  }

  function Rest(b: Bits, w: nat): (r: Bits)
    requires 1 <= w
    ensures |r| < w
    decreases |b|
  {
    if |b| < w then b else Rest(b[w..], w)
  }

  predicate AllFalse(b: Bits) {
    forall i :: 0 <= i < |b| ==> !b[i]
  }

  function Falses(n: nat): (z: Bits)
    ensures |z| == n && AllFalse(z)
  {
    seq(n, i requires 0 <= i < n => false)
  }

  predicate InRange(data: Bytes, w: nat) {
    forall i :: 0 <= i < |data| ==> data[i] as nat < Pow2(w)
  }

  /** Regrouping: with padding the last group is filled with zeros, without it only zeros may be left. */
  function Convert(data: Bytes, fromBits: nat, toBits: nat, pad: bool): Option<Bytes>
    requires 1 <= fromBits <= 8 && 1 <= toBits <= 8
  {
    var bits := Flatten(data, fromBits);
    if !InRange(data, fromBits) then None else Ended(Chunks(bits, toBits), Rest(bits, toBits), fromBits, toBits, pad)
  }

  /** The whole groups, with what is left over padded or dropped. */
  function Ended(groups: Bytes, rest: Bits, fromBits: nat, toBits: nat, pad: bool): Option<Bytes>
    requires 1 <= toBits <= 8 && |rest| < toBits
  {
    if pad then Some(if rest == [] then groups else groups + [Group(rest + Falses(toBits - |rest|))])
    else if |rest| >= fromBits || !AllFalse(rest) then None
    else Some(groups)
  }

  // ----- The loop of the source -----

  const TWO_63 := 0x8000_0000_0000_0000
  const TWO_64 := 0x1_0000_0000_0000_0000

  /** A signed 64-bit variable keeps the low 64 bits. */
  function Wrap64(x: int): int {
    (x + TWO_63) % TWO_64 - TWO_63
  }

  /** `x | y` on signed 64-bit variables. */
  function Or64(x: int, y: int): int {
    Wrap64(Or(x % TWO_64, y % TWO_64))
  }

  lemma Shifted(acc: int, p: nat, q: nat)
    requires p > 0 && q > 0
    ensures p * q > 0 && acc * p % (p * q) == p * (acc % q)
  {
    var a, b := acc / q, acc % q;
    assert acc * p == a * (p * q) + p * b by {
      assert (a * q + b) * p == a * q * p + b * p;
      assert a * q * p == a * (p * q);
    }
    assert p * b < p * q by {
      MulBound(q - b, p);
      assert (q - b) * p == p * q - p * b;
    }
    DivModUnique(acc * p, p * q, a, p * b);
  }

  lemma WrapKeepsResidue(x: int)
    ensures Wrap64(x) % TWO_64 == x % TWO_64
  {
    var k := (x + TWO_63) / TWO_64;
    assert Wrap64(x) == x - k * TWO_64;
    DivModUnique(Wrap64(x), TWO_64, x / TWO_64 - k, x % TWO_64);
  }

  lemma WrapOfResidue(x: int)
    ensures Wrap64(x) == if x % TWO_64 < TWO_63 then x % TWO_64 else x % TWO_64 - TWO_64
  {
    WrapKeepsResidue(x);
  }

  lemma NoCarry(p: nat, a: nat, v: nat, h: nat)
    requires v < p
    ensures p * a < p * h <==> p * a + v < p * h
  {
    assert p * h - p * a == (h - a) * p;
    MulBound(h - a, p);
  }

  lemma UnsignedShift(acc: int, w: nat)
    requires 1 <= w <= 8
    ensures Wrap64(acc * Pow2(w)) % TWO_64 == acc * Pow2(w) % TWO_64 == Pow2(w) * (acc % Pow2(64 - w))
  {
    Pow2Of64();
    Pow2Sum(w, 64 - w);
    Shifted(acc, Pow2(w), Pow2(64 - w));
    WrapKeepsResidue(acc * Pow2(w));
  }

  lemma BelowProduct(p: nat, a: nat, h: nat)
    requires a < h && p > 0
    ensures p * a < p * h
  {
    assert p * h - p * a == (h - a) * p;
    MulBound(h - a, p);
  }

  lemma NoCarries(w: nat, a: nat, v: nat)
    requires 1 <= w <= 8 && v < Pow2(w) && a < Pow2(64 - w)
    ensures Pow2(w) * a + v < TWO_64
    ensures Pow2(w) * a < TWO_63 <==> Pow2(w) * a + v < TWO_63
  {
    Pow2Of64();
    Pow2Sum(w, 64 - w);
    HalfWord(w);
    NoCarry(Pow2(w), a, v, Pow2(64 - w));
    BelowProduct(Pow2(w), a, Pow2(64 - w));
    NoCarry(Pow2(w), a, v, Pow2(63 - w));
  }

  lemma WrapSmall(y: int)
    requires 0 <= y < TWO_64
    ensures Wrap64(y) == if y < TWO_63 then y else y - TWO_64
  {
    if y < TWO_63 {
      DivModUnique(y + TWO_63, TWO_64, 0, y + TWO_63);
    } else {
      DivModUnique(y + TWO_63, TWO_64, 1, y - TWO_63);
    }
  }

  lemma WrapAfterOr(x: int, u: nat, v: nat)
    requires x % TWO_64 == u && x == (if u < TWO_63 then u else u - TWO_64) && Or(u, v) == u + v
    requires u + v < TWO_64 && (u < TWO_63 <==> u + v < TWO_63)
    ensures Or64(x, v) == x + v
  {
    DivModUnique(v, TWO_64, 0, v);
    assert Or64(x, v) == Wrap64(Or(u, v));
    WrapSmall(u + v);
  }

  /** The source's or: after the shift the low bits are clear, so it adds. */
  lemma OrIsAddition(acc: int, v: nat, w: nat)
    requires 1 <= w <= 8 && v < Pow2(w)
    ensures Or64(Wrap64(acc * Pow2(w)), v) == Wrap64(acc * Pow2(w)) + v
  {
    var z, a := acc * Pow2(w), acc % Pow2(64 - w);
    var u := Pow2(w) * a;
    UnsignedShift(acc, w);
    NoCarries(w, a, v);
    ShlIsProduct(a, w);
    OrFillsLowBits(a, v, w);
    WrapOfResidue(z);
    WrapAfterOr(Wrap64(z), u, v);
  }

  lemma HalfWord(w: nat)
    requires w <= 63
    ensures Pow2(w) * Pow2(63 - w) == TWO_63
  {
    Pow2Sum(w, 63 - w);
    Pow2Of64();
    assert Pow2(64) == 2 * Pow2(63);
  }

  /**
   The accumulator is never masked and wraps at 64 bits; its low bits are still the pending ones.
   `q` stands for whatever is above them.
   */
  ghost predicate Accumulates(acc: int, q: int, pending: Bits) {
    acc == q * Pow2(|pending|) + Value(pending)
  }

  /** What has been written, what is pending and what is still to come make up all the bits. */
  ghost predicate Covers(result: Bytes, pending: Bits, later: Bits, all: Bits, w: nat)
    requires 1 <= w <= 8
  {
    result + Chunks(pending + later, w) == Chunks(all, w) && Rest(pending + later, w) == Rest(all, w)
  }

  method Bech32ConvertBits(data: Bytes, fromBits: nat, toBits: nat, pad: bool) returns (r: Option<Bytes>)
    requires 1 <= fromBits <= 8 && 1 <= toBits <= 8
    ensures r == Convert(data, fromBits, toBits, pad)
  {
    var ok, acc, bits, result, q, pending := TakeAll(data, fromBits, toBits);
    if !ok {
      return None;
    }
    r := Finish(acc, bits, fromBits, toBits, pad, result, q, pending);
  }

  /** The outer loop: stops at the first value that does not fit its group. */
  method TakeAll(data: Bytes, fromBits: nat, toBits: nat)
    returns (ok: bool, acc: int, bits: nat, result: Bytes, ghost q: int, ghost pending: Bits)
    requires 1 <= fromBits <= 8 && 1 <= toBits <= 8
    ensures ok <==> InRange(data, fromBits)
    ensures ok ==> bits == |pending| < toBits && Accumulates(acc, q, pending)
    ensures ok ==> result == Chunks(Flatten(data, fromBits), toBits) && pending == Rest(Flatten(data, fromBits), toBits)
  {
    ok, acc, bits, result, q, pending := true, 0, 0, [], 0, [];
    ghost var all := Flatten(data, fromBits);
    NothingTaken(data, all, toBits);
    for i := 0 to |data|
      invariant ok && bits == |pending| < toBits && Accumulates(acc, q, pending)
      invariant InRange(data[..i], fromBits)
      invariant Covers(result, pending, Flatten(data[i..], fromBits), all, toBits)
    {
      var v := data[i] as nat;
      if v >= Pow2(fromBits) {
        return false, acc, bits, result, q, pending;
      }
      FlattenHead(data, i, fromBits, pending);
      InRangeExtends(data, i, fromBits);
      acc, bits, result, q, pending :=
        TakeIn(acc, bits, v, fromBits, toBits, result, q, pending, Flatten(data[i + 1..], fromBits), all);
    }
    assert data[..|data|] == data && data[|data|..] == [];
    AllConsumed(result, pending, all, toBits);
  }

  lemma NothingTaken(data: Bytes, all: Bits, w: nat)
    requires 1 <= w <= 8
    ensures data[0..] == data && Covers([], [], all, all, w)
  {
    assert [] + all == all;
  }

  /** One group shifted into the accumulator, and every whole group it completes written out. */
  method TakeIn(acc: int, bits: nat, v: nat, fromBits: nat, toBits: nat, result: Bytes,
                ghost q: int, ghost pending: Bits, ghost later: Bits, ghost all: Bits)
    returns (acc': int, bits': nat, result': Bytes, ghost q': int, ghost pending': Bits)
    requires 1 <= fromBits <= 8 && 1 <= toBits <= 8 && v < Pow2(fromBits)
    requires bits == |pending| < toBits && Accumulates(acc, q, pending)
    requires Covers(result, pending + ToBits(v, fromBits), later, all, toBits)
    ensures bits' == |pending'| < toBits && Accumulates(acc', q', pending')
    ensures Covers(result', pending', later, all, toBits)
  {
    q' := Push(acc, q, pending, v, fromBits);
    OrIsAddition(acc, v, fromBits);
    acc' := Or64(Wrap64(acc * Pow2(fromBits)), v);
    result', bits', q', pending' :=
      Drain(acc', bits + fromBits, toBits, result, q', pending + ToBits(v, fromBits), later, all);
  }

  /** The inner loop: writes out every whole group that is pending. */
  method Drain(acc: int, bits: nat, toBits: nat, result: Bytes,
               ghost q: int, ghost pending: Bits, ghost later: Bits, ghost all: Bits)
    returns (result': Bytes, bits': nat, ghost q': int, ghost pending': Bits)
    requires 1 <= toBits <= 8 && bits == |pending| && Accumulates(acc, q, pending)
    requires Covers(result, pending, later, all, toBits)
    ensures bits' == |pending'| < toBits && Accumulates(acc, q', pending')
    ensures Covers(result', pending', later, all, toBits)
  {
    result', bits', q', pending' := result, bits, q, pending;
    while bits' >= toBits
      invariant bits' == |pending'| && Accumulates(acc, q', pending')
      invariant Covers(result', pending', later, all, toBits)
    {
      q' := Pop(acc, q', pending', toBits);
      ChunkHead(result', pending', later, toBits);
      bits' := bits' - toBits;
      result' := result' + [((acc / Pow2(bits')) % Pow2(toBits)) as byte];
      pending' := pending'[toBits..];
    }
  }

  lemma LowBitsFit(x: int, w: nat)
    requires w <= 8
    ensures 0 <= x % Pow2(w) < 256
  {
    Pow2Of8();
    Pow2Grows(w, 8);
  }

  /** The last group, filled with zeros from below. */
  method LastGroup(acc: int, bits: nat, toBits: nat, ghost q: int, ghost pending: Bits) returns (b: byte)
    requires 1 <= toBits <= 8 && bits == |pending| < toBits && Accumulates(acc, q, pending)
    ensures b == Group(pending + Falses(toBits - bits))
  {
    Fill(acc, q, pending, toBits);
    var low := Wrap64(acc * Pow2(toBits - bits)) % Pow2(toBits);
    LowBitsFit(Wrap64(acc * Pow2(toBits - bits)), toBits);
    b := low as byte;
  }

  /** The tail: padding, or the check that only zero bits are dropped. */
  method Finish(acc: int, bits: nat, fromBits: nat, toBits: nat, pad: bool, result: Bytes,
                ghost q: int, ghost pending: Bits)
    returns (r: Option<Bytes>)
    requires 1 <= toBits <= 8 && bits == |pending| < toBits && Accumulates(acc, q, pending)
    ensures r == Ended(result, pending, fromBits, toBits, pad)
  {
    if pad {
      if bits > 0 {
        var last := LastGroup(acc, bits, toBits, q, pending);
        return Some(result + [last]);
      }
    } else {
      FillIsZero(acc, q, pending, toBits);
      if bits >= fromBits || Wrap64(acc * Pow2(toBits - bits)) % Pow2(toBits) != 0 {
        return None;
      }
    }
    return Some(result);
  }

  lemma FlattenHead(data: Bytes, i: nat, w: nat, pending: Bits)
    requires i < |data|
    ensures pending + Flatten(data[i..], w) == pending + ToBits(data[i] as nat, w) + Flatten(data[i + 1..], w)
  {
  }

  lemma InRangeExtends(data: Bytes, i: nat, w: nat)
    requires i < |data| && InRange(data[..i], w) && data[i] as nat < Pow2(w)
    ensures InRange(data[..i + 1], w)
  {
  }

  lemma AllConsumed(result: Bytes, pending: Bits, all: Bits, w: nat)
    requires 1 <= w <= 8 && |pending| < w && Covers(result, pending, [], all, w)
    ensures result == Chunks(all, w) && pending == Rest(all, w)
  {
  }

  lemma ChunkHead(result: Bytes, pending: Bits, later: Bits, w: nat)
    requires 1 <= w <= 8 && w <= |pending|
    ensures result + Chunks(pending + later, w) == result + [Group(pending[..w])] + Chunks(pending[w..] + later, w)
    ensures Rest(pending + later, w) == Rest(pending[w..] + later, w)
  {
    assert (pending + later)[..w] == pending[..w];
    assert (pending + later)[w..] == pending[w..] + later;
  }

  lemma ValueOfNext(b: Bits, bit: bool)
    ensures Value(b + [bit]) == 2 * Value(b) + BitValue(bit)
  {
    assert (b + [bit])[..|b|] == b;
  }

  lemma AppendLast(a: Bits, b: Bits)
    requires b != []
    ensures b == b[..|b| - 1] + [b[|b| - 1]] && a + b == a + b[..|b| - 1] + [b[|b| - 1]]
  {
  }

  lemma {:induction false} ValueAppend(a: Bits, b: Bits)
    ensures Value(a + b) == Value(a) * Pow2(|b|) + Value(b)
    decreases |b|
  {
    if b == [] {
      assert a + b == a;
    } else {
      var n := |b| - 1;
      ValueAppend(a, b[..n]);
      AppendLast(a, b);
      ValueOfNext(a + b[..n], b[n]);
      ValueOfNext(b[..n], b[n]);
      MulDouble(Value(a), Pow2(n));
    }
  }

  lemma MulDouble(x: int, p: int)
    ensures x * (2 * p) == 2 * (x * p)
  {
  }

  lemma {:induction false} ValueOfBits(v: nat, w: nat)
    requires v < Pow2(w)
    ensures Value(ToBits(v, w)) == v
    decreases w
  {
    if w > 0 {
      ValueOfBits(v / 2, w - 1);
      assert ToBits(v, w)[..w - 1] == ToBits(v / 2, w - 1);
    }
  }

  lemma BitsOfNext(v: nat, q: nat, bit: bool, w: nat)
    requires v == 2 * q + BitValue(bit)
    ensures ToBits(v, w + 1) == ToBits(q, w) + [bit]
  {
    DivModUnique(v, 2, q, BitValue(bit));
  }

  lemma {:induction false} BitsOfValue(b: Bits)
    ensures ToBits(Value(b), |b|) == b
  {
    if b != [] {
      var n := |b| - 1;
      BitsOfValue(b[..n]);
      BitsOfNext(Value(b), Value(b[..n]), b[n], n);
      assert b == b[..n] + [b[n]];
    }
  }

  lemma {:induction false} Pow2Sum(m: nat, n: nat)
    ensures Pow2(m + n) == Pow2(m) * Pow2(n)
    decreases n
  {
    if n > 0 {
      Pow2Sum(m, n - 1);
      MulDouble(Pow2(m), Pow2(n - 1));
    }
  }

  lemma Pow2Of64()
    ensures Pow2(64) == TWO_64
  {
    Pow2Of8();
    Squared(8, 0x100, 16);
    Squared(16, 0x1_0000, 32);
    Squared(32, 0x1_0000_0000, 64);
  }

  lemma Squared(n: nat, p: nat, m: nat)
    requires Pow2(n) == p && m == n + n
    ensures Pow2(m) == p * p
  {
    Pow2Sum(n, n);
  }

  /** Wrapping removes a multiple of any smaller power of two. */
  lemma WrapRemoves(x: int, n: nat) returns (t: int)
    requires n <= 64
    ensures Wrap64(x) == x + t * Pow2(n)
  {
    var k := (x + TWO_63) / TWO_64;
    t := -k * Pow2(64 - n);
    Pow2Of64();
    Pow2Sum(64 - n, n);
    assert Wrap64(x) == x - k * TWO_64;
    MulAssoc(-k, Pow2(64 - n), Pow2(n));
  }

  lemma MulAssoc(a: int, b: int, c: int)
    ensures (a * b) * c == a * (b * c)
  {
  }

  lemma Distribute(a: int, b: int, c: int)
    ensures (a + b) * c == a * c + b * c
  {
  }

  /** An accumulator shifted by `s`, up to a multiple of what lies above. */
  lemma ShiftIn(acc: int, q: int, p: int, low: int, s: int, n: int, t: int)
    requires acc == q * p + low && n == p * s
    ensures acc * s + t * n == (q + t) * n + low * s
  {
    Distribute(q * p, low, s);
    MulAssoc(q, p, s);
    Distribute(q, t, n);
  }

  /** Shifting in one group. */
  lemma Push(acc: int, q: int, pending: Bits, v: nat, w: nat) returns (q': int)
    requires Accumulates(acc, q, pending) && |pending| + w <= 64 && v < Pow2(w)
    ensures Accumulates(Wrap64(acc * Pow2(w)) + v, q', pending + ToBits(v, w))
  {
    var n := |pending| + w;
    var t := WrapRemoves(acc * Pow2(w), n);
    q' := q + t;
    Pow2Sum(|pending|, w);
    ValueAppend(pending, ToBits(v, w));
    ValueOfBits(v, w);
    ShiftIn(acc, q, Pow2(|pending|), Value(pending), Pow2(w), Pow2(n), t);
  }

  /** Shifting out the oldest group. */
  lemma Pop(acc: int, q: int, pending: Bits, w: nat) returns (q': int)
    requires Accumulates(acc, q, pending) && 1 <= w <= 8 && w <= |pending|
    ensures (acc / Pow2(|pending| - w)) % Pow2(w) == Value(pending[..w])
    ensures Accumulates(acc, q', pending[w..])
  {
    var hi, lo := pending[..w], pending[w..];
    var p := Pow2(|lo|);
    assert pending == hi + lo;
    ValueAppend(hi, lo);
    Pow2Sum(w, |lo|);
    q' := q * Pow2(w) + Value(hi);
    MulAssoc(q, Pow2(w), p);
    Distribute(q * Pow2(w), Value(hi), p);
    ValueBound(lo);
    DivModUnique(acc, p, q', Value(lo));
    ValueBound(hi);
    DivModUnique(q', Pow2(w), q, Value(hi));
  }

  lemma {:induction false} ValueOfFalses(b: Bits)
    ensures Value(b) == 0 <==> AllFalse(b)
  {
    if b != [] {
      var b' := b[..|b| - 1];
      ValueOfFalses(b');
      assert forall i :: 0 <= i < |b'| ==> b[i] == b'[i];
    }
  }

  /** The last, incomplete group, filled up with zeros. */
  lemma Fill(acc: int, q: int, pending: Bits, w: nat)
    requires Accumulates(acc, q, pending) && |pending| < w <= 8
    ensures Wrap64(acc * Pow2(w - |pending|)) % Pow2(w) == Value(pending + Falses(w - |pending|))
  {
    var n := w - |pending|;
    var z := Falses(n);
    var t := WrapRemoves(acc * Pow2(n), w);
    ValueAppend(pending, z);
    ValueOfFalses(z);
    Pow2Sum(|pending|, n);
    ShiftIn(acc, q, Pow2(|pending|), Value(pending), Pow2(n), Pow2(w), t);
    ValueBound(pending + z);
    DivModUnique(Wrap64(acc * Pow2(n)), Pow2(w), q + t, Value(pending + z));
  }

  lemma FillIsZero(acc: int, q: int, pending: Bits, w: nat)
    requires Accumulates(acc, q, pending) && |pending| < w <= 8
    ensures Wrap64(acc * Pow2(w - |pending|)) % Pow2(w) == 0 <==> AllFalse(pending)
  {
    Fill(acc, q, pending, w);
    var z := Falses(w - |pending|);
    ValueOfFalses(pending + z);
    assert AllFalse(pending + z) <==> AllFalse(pending) by {
      assert forall i :: 0 <= i < |pending| ==> (pending + z)[i] == pending[i];
    }
  }

  // ----- Round trips -----

  lemma ChunksStep(b: Bits, w: nat, head: Bits, tail: Bits)
    requires 1 <= w <= 8 && |head| == w && b == head + tail
    ensures Chunks(b, w) == [Group(head)] + Chunks(tail, w) && Rest(b, w) == Rest(tail, w)
  {
  }

  lemma {:induction false} ChunksOfFlatten(data: Bytes, w: nat, tail: Bits)
    requires 1 <= w <= 8 && InRange(data, w) && |tail| < w
    ensures Chunks(Flatten(data, w) + tail, w) == data && Rest(Flatten(data, w) + tail, w) == tail
    decreases |data|
  {
    if data == [] {
      assert Flatten(data, w) + tail == tail;
    } else {
      var head, more := ToBits(data[0] as nat, w), Flatten(data[1..], w);
      ValueOfBits(data[0] as nat, w);
      ChunksOfFlatten(data[1..], w, tail);
      Assoc(head, more, tail);
      ChunksStep(Flatten(data, w) + tail, w, head, more + tail);
      assert [data[0]] + data[1..] == data;
    }
  }

  lemma {:induction false} FlattenOfChunks(b: Bits, w: nat)
    requires 1 <= w <= 8
    ensures Flatten(Chunks(b, w), w) + Rest(b, w) == b
    decreases |b|
  {
    if |b| < w {
      NoWholeGroup(b, w);
    } else {
      FlattenOfChunks(b[w..], w);
      FlattenGroup(b[..w], Chunks(b[w..], w), Rest(b[w..], w), w);
      TwoBits(b, w);
    }
  }

  lemma NoWholeGroup(b: Bits, w: nat)
    requires |b| < w <= 8
    ensures Flatten(Chunks(b, w), w) + Rest(b, w) == b
  {
  }

  lemma TwoBits(b: Bits, w: nat)
    requires w <= |b|
    ensures b[..w] + b[w..] == b
  {
  }

  lemma {:induction false} ChunksInRange(b: Bits, w: nat)
    requires 1 <= w <= 8
    ensures InRange(Chunks(b, w), w)
    decreases |b|
  {
    if |b| >= w {
      ChunksInRange(b[w..], w);
      ValueBound(b[..w]);
      InRangeCons(Group(b[..w]), Chunks(b[w..], w), w);
    }
  }

  lemma InRangeCons(first: byte, more: Bytes, w: nat)
    requires first as nat < Pow2(w) && InRange(more, w)
    ensures InRange([first] + more, w)
  {
  }

  lemma FlattenGroup(head: Bits, more: Bytes, rest: Bits, w: nat)
    requires |head| == w <= 8
    ensures Flatten([Group(head)] + more, w) + rest == head + (Flatten(more, w) + rest)
  {
    BitsOfValue(head);
    assert ([Group(head)] + more)[1..] == more;
    Assoc(head, Flatten(more, w), rest);
  }

  /** What padding adds. */
  function Padding(rest: Bits, w: nat): (z: Bits)
    requires |rest| < w
    ensures |z| < w && AllFalse(z)
  {
    if rest == [] then [] else Falses(w - |rest|)
  }

  lemma FirstChunk(b: Bits, w: nat)
    requires 1 <= w <= 8 && |b| >= w
    ensures Chunks(b, w) == [Group(b[..w])] + Chunks(b[w..], w) && Rest(b, w) == Rest(b[w..], w)
  {
  }

  lemma OneChunk(b: Bits, w: nat)
    requires 1 <= w <= 8 && |b| == w
    ensures Chunks(b, w) == [Group(b)] && Rest(b, w) == []
  {
    assert b[..w] == b && b[w..] == [];
  }

  lemma {:induction false} ChunksAppend(a: Bits, b: Bits, w: nat)
    requires 1 <= w <= 8 && |Rest(a, w) + b| == w
    ensures Chunks(a + b, w) == Chunks(a, w) + [Group(Rest(a, w) + b)] && Rest(a + b, w) == []
    decreases |a|
  {
    if |a| < w {
      OneChunk(a + b, w);
    } else {
      FirstChunk(a, w);
      FirstChunk(a + b, w);
      ChunksAppend(a[w..], b, w);
      assert (a + b)[..w] == a[..w] && (a + b)[w..] == a[w..] + b;
      Assoc([Group(a[..w])], Chunks(a[w..], w), [Group(Rest(a, w) + b)]);
    }
  }

  /** With padding, the result carries all the bits and then only zeros. */
  lemma PaddedCarriesAllBits(data: Bytes, fromBits: nat, toBits: nat)
    requires 1 <= fromBits <= 8 && 1 <= toBits <= 8 && InRange(data, fromBits)
    ensures var bits := Flatten(data, fromBits);
      var padded := bits + Padding(Rest(bits, toBits), toBits);
      Convert(data, fromBits, toBits, true) == Some(Chunks(padded, toBits)) && Rest(padded, toBits) == []
  {
    var bits := Flatten(data, fromBits);
    var rest := Rest(bits, toBits);
    if rest == [] {
      assert bits + [] == bits;
    } else {
      ChunksAppend(bits, Falses(toBits - |rest|), toBits);
    }
  }

  /** Widening the groups back undoes a padded narrowing, on every input: 8 to 5 and back to 8. */
  lemma NarrowThenWiden(data: Bytes, wide: nat, narrow: nat)
    requires 1 <= narrow <= wide <= 8 && InRange(data, wide)
    ensures Convert(data, wide, narrow, true).Some?
    ensures Convert(Convert(data, wide, narrow, true).value, narrow, wide, false) == Some(data)
  {
    PaddedCarriesAllBits(data, wide, narrow);
    var bits := Flatten(data, wide);
    var z := Padding(Rest(bits, narrow), narrow);
    var e := Chunks(bits + z, narrow);
    FlattenOfChunks(bits + z, narrow);
    ChunksInRange(bits + z, narrow);
    assert Flatten(e, narrow) == bits + z by { assert Flatten(e, narrow) + [] == Flatten(e, narrow); }
    ChunksOfFlatten(data, wide, z);
  }

  /** Whatever the unpadded direction accepts is returned by the padded one: no two inputs share a result. */
  lemma AcceptedComesBack(symbols: Bytes, fromBits: nat, toBits: nat)
    requires 1 <= fromBits <= 8 && 1 <= toBits <= 8
    requires Convert(symbols, fromBits, toBits, false).Some?
    ensures Convert(Convert(symbols, fromBits, toBits, false).value, toBits, fromBits, true) == Some(symbols)
  {
    var bits := Flatten(symbols, fromBits);
    var data, r := Chunks(bits, toBits), Rest(bits, toBits);
    FlattenOfChunks(bits, toBits);
    ChunksInRange(bits, toBits);
    PaddedCarriesAllBits(data, toBits, fromBits);
    var kept := Flatten(data, toBits);
    var z := Padding(Rest(kept, fromBits), fromBits);
    SameLengthPadding(symbols, kept, r, fromBits);
    assert r == z;
    ChunksOfFlatten(symbols, fromBits, []);
    assert bits + [] == bits;
  }

  lemma OneMoreGroup(w: int, n: int, m: int)
    requires n == m + 1
    ensures w * n == w * m + w
  {
  }

  lemma {:induction false} FlattenLength(data: Bytes, w: nat)
    ensures |Flatten(data, w)| == w * |data|
  {
    if data != [] {
      FlattenLength(data[1..], w);
      OneMoreGroup(w, |data|, |data| - 1);
    }
  }

  lemma {:induction false} RestLength(b: Bits, w: nat) returns (k: nat)
    requires 1 <= w
    ensures |b| == w * k + |Rest(b, w)|
    decreases |b|
  {
    if |b| < w {
      k := 0;
    } else {
      k := RestLength(b[w..], w);
      OneMoreGroup(w, k + 1, k);
      k := k + 1;
    }
  }

  lemma SameLengthPadding(symbols: Bytes, kept: Bits, r: Bits, w: nat)
    requires 1 <= w && Flatten(symbols, w) == kept + r && |r| < w && AllFalse(r)
    ensures Padding(Rest(kept, w), w) == r
  {
    FlattenLength(symbols, w);
    var k := RestLength(kept, w);
    var rest := Rest(kept, w);
    LengthsMatch(|symbols|, k, w, |rest|, |r|);
    assert |Padding(rest, w)| == |r|;
    assert forall i :: 0 <= i < |r| ==> !r[i] && !Padding(rest, w)[i];
  }

  lemma LengthsMatch(n: nat, k: nat, w: nat, a: nat, b: nat)
    requires a < w && b < w && w * n == w * k + a + b
    ensures (a == 0 && b == 0) || a + b == w
  {
    var d, minus: int := n - k, 0 - k;
    assert d * w == a + b by { Distribute(n, minus, w); }
    if d >= 2 {
      MulBound(d - 1, w);
      Distribute(d - 1, 1, w);
    } else if d <= -1 {
      MulBound(d, w);
    }
  }
}
