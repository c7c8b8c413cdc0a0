/**
 The other side of the checksums: every payload has exactly one checksum, and the one kind of change no position
 protects against.  (internal/rpc/bech32.go and internal/rpc/cashaddr.go)
 */
module ChecksumCreate {
  import opened Arithmetic
  import opened Bitwise
  import opened Bytes
  import opened Checksum
  import opened Sequences

  /** The last `n` base-32 digits of a number, as symbols. */
  function Symbols32(v: nat, n: nat): (d: Bytes)
    ensures |d| == n && Small(d)
    decreases n
  {
    if n == 0 then [] else Symbols32(v / 32, n - 1) + [(v % 32) as byte]
  }

  lemma {:induction false} PackedSnoc(c: nat, d: Bytes, x: byte)
    ensures Packed(c, d + [x]) == 32 * Packed(c, d) + x as nat
    decreases |d|
  {
    if d == [] {
      assert [] + [x] == [x] && [x][1..] == [];
      assert Packed(c, [x]) == Packed(32 * c + x as nat, []);
    } else {
      assert (d + [x])[1..] == d[1..] + [x];
      PackedSnoc(32 * c + d[0] as nat, d[1..], x);
    }
  }

  lemma {:induction false} SymbolsPack(v: nat, n: nat)
    requires v < Pow2(5 * n)
    ensures Packed(0, Symbols32(v, n)) == v
    decreases n
  {
    if n > 0 {
      assert 5 * n == 5 * (n - 1) + 5;
      Pow2Plus5(5 * (n - 1));
      SymbolsPack(v / 32, n - 1);
      PackedSnoc(0, Symbols32(v / 32, n - 1), (v % 32) as byte);
    }
  }

  lemma {:induction false} RunBounded(code: Code, c: nat, x: Bytes)
    requires c < Pow2(Kept(code) + 5) || x != []
    ensures Run(code, c, x) < Pow2(Kept(code) + 5)
    decreases |x|
  {
    if x != [] {
      StepFits(code, c, x[0]);
      RunBounded(code, Step(code, c, x[0] as nat), x[1..]);
    }
  }

  /** The register after prefix and payload. */
  function After(code: Code, hrp: Bytes, payload: Bytes): (r: nat)
    ensures r < Pow2(Kept(code) + 5)
  {
    RunBounded(code, 1, Prefix(code, hrp) + payload);
    Run(code, 1, Prefix(code, hrp) + payload)
  }

  /** The symbols that complete a payload: what zeros would leave, turned into one. */
  function Completion(code: Code, hrp: Bytes, payload: Bytes): (d: Bytes)
    ensures |d| == Window(code) && Small(d)
  {
    Symbols32(Xor(Run(code, After(code, hrp, payload), Zeros(Window(code))), 1), Window(code))
  }

  lemma DifferenceFromZeros(d: Bytes)
    ensures Difference(Zeros(|d|), d) == d
  {
    forall i | 0 <= i < |d| ensures XorByte(0, d[i]) == d[i] {
      XorZero(d[i] as nat);
    }
  }

  /** A run adds what it reads to what zeros would have left. */
  lemma RunAddsWhatItReads(code: Code, r: nat, d: Bytes)
    requires |d| == Window(code) && Small(d)
    ensures Run(code, r, d) == Xor(Run(code, r, Zeros(|d|)), Packed(0, d))
  {
    RunIsLinear(code, r, 0, Zeros(|d|), d);
    DifferenceFromZeros(d);
    XorZero(r);
    ShortWordPacks(code, 0, d, 0);
  }

  lemma XorBack(z: nat)
    ensures Xor(z, Xor(z, 1)) == 1
  {
    XorAssoc(z, z, 1);
    XorZeroIff(z, z);
    XorZero(1);
  }

  /** Every prefix and payload can be completed, and only in this way. */
  lemma CompletionIsTheChecksum(code: Code, hrp: Bytes, payload: Bytes, d: Bytes)
    requires Small(payload) && |d| == Window(code) && Small(d)
    ensures Valid(code, hrp, payload + d) <==> d == Completion(code, hrp, payload)
  {
    CompletionIsValid(code, hrp, payload);
    if Valid(code, hrp, payload + d) {
      var c := Completion(code, hrp, payload);
      assert (payload + d)[..|payload|] == payload == (payload + c)[..|payload|];
      ChecksumIsDetermined(code, hrp, payload + d, payload + c);
      assert d == (payload + d)[|payload|..] && c == (payload + c)[|payload|..];
    }
  }

  lemma CompletionIsValid(code: Code, hrp: Bytes, payload: Bytes)
    ensures Valid(code, hrp, payload + Completion(code, hrp, payload))
  {
    CompletionEndsAtOne(code, After(code, hrp, payload));
    ValidIffAfterRunsToOne(code, hrp, payload, Completion(code, hrp, payload));
  }

  lemma ValidIffAfterRunsToOne(code: Code, hrp: Bytes, payload: Bytes, check: Bytes)
    ensures Valid(code, hrp, payload + check) <==> Run(code, After(code, hrp, payload), check) == 1
  {
    RunOfThree(code, 1, Prefix(code, hrp), payload, check);
  }

  lemma RunOfThree(code: Code, c: nat, a: Bytes, b: Bytes, d: Bytes)
    ensures Run(code, c, a + (b + d)) == Run(code, Run(code, c, a + b), d)
  {
    Assoc(a, b, d);
    RunSplits(code, c, a + b, d);
  }

  lemma CompletionEndsAtOne(code: Code, r: nat)
    requires r < Pow2(Kept(code) + 5)
    ensures Run(code, r, Symbols32(Xor(Run(code, r, Zeros(Window(code))), 1), Window(code))) == 1
  {
    var z := Run(code, r, Zeros(Window(code)));
    FlippedFits(code, r, z);
    SymbolsPack(Xor(z, 1), Window(code));
    RunAddsWhatItReads(code, r, Symbols32(Xor(z, 1), Window(code)));
    XorBack(z);
  }

  lemma FlippedFits(code: Code, r: nat, z: nat)
    requires r < Pow2(Kept(code) + 5) && z == Run(code, r, Zeros(Window(code)))
    ensures Xor(z, 1) < Pow2(5 * Window(code))
  {
    var n := 5 * Window(code);
    assert n == Kept(code) + 5;
    RunBounded(code, r, Zeros(Window(code)));
    Pow2Grows(1, n);
    XorBound(z, 1, n);
  }

  // ----- what the checksums do not detect -----

  lemma OneEndsValid(code: Code, s: nat)
    requires s < Pow2(Kept(code) + 5)
    ensures Step(code, s, 1) == 1 <==> s == 0
  {
    StepOfOne(code, s);
    StepKeepsDifference(code, s);
    XorWithOne(Step(code, s, 0));
  }

  lemma StepOfOne(code: Code, s: nat)
    ensures Step(code, s, 1) == Xor(Step(code, s, 0), 1)
  {
    OneIsShort(code);
    StepPacks(code, 0, 1);
    XorZero(s);
    XorZero(1);
    StepIsLinear(code, s, 0, 0, 1);
  }

  lemma OneIsShort(code: Code)
    ensures 0 < Pow2(Kept(code))
  {
  }

  lemma XorWithOne(t: nat)
    ensures Xor(t, 1) == 1 <==> t == 0
  {
    XorAssoc(t, 1, 1);
    XorZeroIff(1, 1);
    XorZero(t);
    XorZero(1);
  }

  lemma RunOne(code: Code, s: nat, v: byte)
    ensures Run(code, s, [v]) == Step(code, s, v as nat)
  {
    assert [v][1..] == [];
  }

  /**
   A zero symbol inserted before, or removed from before, a final one always goes undetected, in both codes: it is
   what their constant, one, makes of a register that is all zeros.
   */
  lemma ZeroBeforeFinalOneIsNotDetected(code: Code, hrp: Bytes, x: Bytes)
    ensures Valid(code, hrp, x + [1]) <==> Valid(code, hrp, x + [0] + [1])
  {
    var p, s := Prefix(code, hrp) + x, After(code, hrp, x);
    Assoc(Prefix(code, hrp), x, [1]);
    Assoc(Prefix(code, hrp), x + [0], [1]);
    Assoc(Prefix(code, hrp), x, [0]);
    RunSplits(code, 1, p, [1]);
    RunSplits(code, 1, p, [0]);
    RunSplits(code, 1, p + [0], [1]);
    RunOne(code, s, 1);
    RunOne(code, s, 0);
    RunOne(code, Step(code, s, 0), 1);
    StepKeepsDifference(code, s);
    OneEndsValid(code, s);
    OneEndsValid(code, Step(code, s, 0));
  }
}
