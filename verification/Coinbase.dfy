/**
 The coinbase transaction, written in two halves around a gap that each miner fills.
 (internal/rpc/client.go, CreateCoinbaseTx and encodeHeight)
 */
module Coinbase {
  import opened Arithmetic
  import opened Bytes
  import opened Sequences
  import opened Wrappers
  import Hex

  type int64 = x: int | -0x8000_0000_0000_0000 <= x < 0x8000_0000_0000_0000

  // ----- The height push (BIP 34) -----

  /** Base-256 digits, least significant first, without high zeros. */
  function Digits(h: nat): (b: Bytes)
    ensures b == [] <==> h == 0
  {
    if h == 0 then [] else [(h % 256) as byte] + Digits(h / 256)
  }

  /** The shortest script number for `h`: a zero byte is added when the top bit would read as a sign. */
  function ScriptNumber(h: nat): Bytes {
    var b := Digits(h);
    if b != [] && b[|b| - 1] >= 0x80 then b + [0] else b
  }

  /** A length written as one byte, as the source does. */
  function LowByteOf(n: nat): (b: Bytes)
    ensures |b| == 1
  {
    [(n % 256) as byte]
  }

  function HeightPush(h: nat): Bytes {
    if h == 0 then [0x51] else LowByteOf(|ScriptNumber(h)|) + ScriptNumber(h)
  }

  method EncodeHeight(h: nat) returns (r: Bytes)
    ensures r == HeightPush(h)
  {
    if h == 0 {
      return [0x51];
    }
    var b: Bytes, rest := [], h;
    while rest > 0
      invariant b + Digits(rest) == Digits(h)
    {
      Assoc(b, [(rest % 256) as byte], Digits(rest / 256));
      b := b + [(rest % 256) as byte];
      rest := rest / 256;
    }
    assert b == Digits(h);
    if b[|b| - 1] >= 0x80 {
      b := b + [0];
    }
    r := LowByteOf(|b|) + b;
  }

  // How a script interpreter reads the number back: the top bit of the last byte is the sign.

  function ReadScriptNumber(b: Bytes): int {
    if b == [] then 0
    else
      var last := b[|b| - 1];
      if last < 0x80 then FromLittleEndian(b)
      else -(FromLittleEndian(b[..|b| - 1] + [last - 0x80]) as int)
  }

  /** No shorter encoding exists: the last byte carries a value bit, or only keeps the sign clear. */
  predicate IsMinimal(b: Bytes) {
    b == [] || b[|b| - 1] % 0x80 != 0 || (|b| > 1 && b[|b| - 2] >= 0x80)
  }

  lemma {:induction false} DigitsValue(h: nat)
    ensures FromLittleEndian(Digits(h)) == h
    ensures h > 0 ==> Digits(h)[|Digits(h)| - 1] != 0
  {
    if h > 0 {
      DigitsValue(h / 256);
      assert Digits(h)[1..] == Digits(h / 256);
    }
  }

  lemma {:induction false} HighZero(b: Bytes)
    ensures FromLittleEndian(b + [0]) == FromLittleEndian(b)
  {
    if b == [] {
      assert ([] + [0])[1..] == [];
    } else {
      HighZero(b[1..]);
      assert (b + [0])[1..] == b[1..] + [0];
    }
  }

  lemma {:induction false} DigitsUnique(b: Bytes)
    requires b != [] ==> b[|b| - 1] != 0
    ensures Digits(FromLittleEndian(b)) == b
  {
    if b != [] {
      DigitsUnique(b[1..]);
      assert b == [b[0]] + b[1..];
      assert FromLittleEndian(b) != 0 by {
        if |b| > 1 { assert FromLittleEndian(b[1..]) != 0; }
      }
    }
  }

  /** The height is pushed as the one minimal, non-negative script number that reads back to it. */
  lemma HeightIsMinimalScriptNumber(h: nat)
    ensures IsMinimal(ScriptNumber(h)) && ReadScriptNumber(ScriptNumber(h)) == h
  {
    DigitsValue(h);
    HighZero(Digits(h));
  }

  lemma MinimalScriptNumberIsUnique(b: Bytes)
    requires IsMinimal(b) && ReadScriptNumber(b) >= 0
    ensures b == ScriptNumber(ReadScriptNumber(b))
  {
    if b != [] {
      var last, init := b[|b| - 1], b[..|b| - 1];
      assert b == init + [last];
      if last == 0 {
        HighZero(init);
        DigitsUnique(init);
      } else if last < 0x80 {
        DigitsUnique(b);
      } else if last == 0x80 {
        HighZero(init);
        DigitsUnique(init);
      } else {
        DigitsUnique(init + [last - 0x80]);
      }
    }
  }

  lemma {:induction false} DigitsLength(h: nat, n: nat)
    requires h < Pow256(n)
    ensures |Digits(h)| <= n
  {
    if h > 0 {
      DigitsLength(h / 256, n - 1);
    }
  }

  lemma {:induction false} TopDigitSmall(h: nat, n: nat)
    requires 2 * h < Pow256(n) && |Digits(h)| == n
    ensures n > 0 ==> Digits(h)[n - 1] < 0x80
  {
    if n > 1 {
      TopDigitSmall(h / 256, n - 1);
    }
  }

  lemma HeightPushLength(h: int64)
    requires h >= 0
    ensures 1 <= |HeightPush(h)| <= 9
  {
    Pow256Values();
    DigitsLength(h, 8);
    if |Digits(h)| == 8 {
      TopDigitSmall(h, 8);
    }
  }

  /** Reads a direct push at the start of a script. */
  function ReadPush(script: Bytes): Option<(Bytes, Bytes)> {
    if script == [] || script[0] == 0 || script[0] > 75 || |script| <= script[0] as nat then None
    else Some((script[1..1 + script[0] as nat], script[1 + script[0] as nat..]))
  }

  /** The number a script starts by pushing: an opcode for -1 and 1 to 16, or a script number. */
  function ReadNumber(script: Bytes): Option<(int, Bytes)> {
    if script != [] && (script[0] == 0x4f || 0x51 <= script[0] <= 0x60) then
      Some((script[0] as int - 0x50, script[1..]))
    else
      match ReadPush(script)
      case None => None
      case Some((data, rest)) => Some((ReadScriptNumber(data), rest))
  }

  /** A reader finds the height as a push exactly when it is positive; height 0 becomes OP_1, which is worth 1. */
  lemma HeightReadsBack(h: int64, rest: Bytes)
    requires h >= 0
    ensures h >= 1 <==> ReadPush(HeightPush(h) + rest) == Some((ScriptNumber(h), rest))
    ensures ReadNumber(HeightPush(h) + rest) == Some((if h == 0 then 1 else h, rest))
  {
    HeightPushLength(h);
    if h >= 1 {
      PushReadsBack(ScriptNumber(h), rest);
      HeightIsMinimalScriptNumber(h);
    } else {
      assert (HeightPush(0) + rest)[1..] == rest;
    }
  }

  lemma PushReadsBack(data: Bytes, rest: Bytes)
    requires 1 <= |data| <= 75
    ensures ReadPush(LowByteOf(|data|) + data + rest) == Some((data, rest))
  {
  }

  // ----- Transactions on the wire -----

  datatype Output = Output(value: nat, script: Bytes)

  datatype Tx = Tx(version: uint32, prevHash: Digest, prevIndex: uint32, scriptSig: Bytes,
                   sequence: uint32, outputs: seq<Output>, lockTime: uint32)

  ghost predicate Writable(tx: Tx) {
    && |tx.scriptSig| < 0x1_0000_0000 && |tx.outputs| < 0x1_0000_0000
    && forall i :: 0 <= i < |tx.outputs| ==> WritableOutput(tx.outputs[i])
  }

  ghost predicate WritableOutput(o: Output) {
    o.value < 0x1_0000_0000_0000_0000 && |o.script| < 0x1_0000_0000
  }

  ghost function WriteScript(script: Bytes): Bytes
    requires |script| < 0x1_0000_0000
  {
    VarInt(|script|) + script
  }

  ghost function WriteOutputs(outputs: seq<Output>): Bytes
    requires forall i :: 0 <= i < |outputs| ==> WritableOutput(outputs[i])
  {
    if outputs == [] then []
    else
      assert WritableOutput(outputs[0]);
      LittleEndian(outputs[0].value, 8) + (WriteScript(outputs[0].script) + WriteOutputs(outputs[1..]))
  }

  /** The legacy one-input transaction layout. */
  ghost function WriteTx(tx: Tx): Bytes
    requires Writable(tx)
  {
    LittleEndian(tx.version, 4) + (VarInt(1) + (tx.prevHash + (LittleEndian(tx.prevIndex, 4)
    + (WriteScript(tx.scriptSig) + (LittleEndian(tx.sequence, 4)
    + (VarInt(|tx.outputs|) + (WriteOutputs(tx.outputs) + LittleEndian(tx.lockTime, 4))))))))
  }

  // An independent reader of the same layout.

  datatype Parse<+T> = Bad | Got(value: T, rest: Bytes)

  function ReadBytes(b: Bytes, n: nat): Parse<Bytes> {
    if |b| < n then Bad else Got(b[..n], b[n..])
  }

  function ReadInt(b: Bytes, n: nat): Parse<nat> {
    match ReadLittleEndian(b, n)
    case Short => Bad
    case Read(v, rest) => Got(v, rest)
  }

  function ReadScript(b: Bytes): Parse<Bytes> {
    match ReadVarInt(b)
    case Short => Bad
    case Read(n, rest) => ReadBytes(rest, n)
  }

  function ReadOutput(b: Bytes): Parse<Output> {
    match ReadInt(b, 8)
    case Bad => Bad
    case Got(value, rest) =>
      match ReadScript(rest)
      case Bad => Bad
      case Got(script, rest') => Got(Output(value, script), rest')
  }

  function ReadOutputs(b: Bytes, n: nat): Parse<seq<Output>> {
    if n == 0 then Got([], b)
    else
      match ReadOutput(b)
      case Bad => Bad
      case Got(o, rest) =>
        match ReadOutputs(rest, n - 1)
        case Bad => Bad
        case Got(os, rest') => Got([o] + os, rest')
  }

  /** The part of a one-input transaction after its outpoint. */
  function ReadTail(b: Bytes): Parse<(Bytes, nat, seq<Output>, nat)> {
    match ReadScript(b)
    case Bad => Bad
    case Got(script, b1) =>
      match ReadInt(b1, 4)
      case Bad => Bad
      case Got(sequence, b2) =>
        match ReadVarInt(b2)
        case Short => Bad
        case Read(n, b3) =>
          match ReadOutputs(b3, n)
          case Bad => Bad
          case Got(outputs, b4) =>
            match ReadInt(b4, 4)
            case Bad => Bad
            case Got(lockTime, b5) => Got((script, sequence, outputs, lockTime), b5)
  }

  /** Accepts only if there is exactly one input and every byte is consumed. */
  function ReadTx(b: Bytes): Option<Tx> {
    match ReadInt(b, 4)
    case Bad => None
    case Got(version, b1) =>
      match ReadVarInt(b1)
      case Short => None
      case Read(inputs, b2) =>
        match ReadBytes(b2, 32)
        case Bad => None
        case Got(prevHash, b3) =>
          match ReadInt(b3, 4)
          case Bad => None
          case Got(prevIndex, b4) =>
            match ReadTail(b4)
            case Bad => None
            case Got((script, sequence, outputs, lockTime), b5) =>
              if inputs == 1 && b5 == [] && version <= 0xffff_ffff && prevIndex <= 0xffff_ffff
                 && sequence <= 0xffff_ffff && lockTime <= 0xffff_ffff
              then Some(Tx(version, prevHash, prevIndex, script, sequence, outputs, lockTime))
              else None
  }

  lemma ReadBytesBack(b: Bytes, rest: Bytes)
    ensures ReadBytes(b + rest, |b|) == Got(b, rest)
  {
  }

  lemma {:induction false} ReadIntBack(v: nat, n: nat, rest: Bytes)
    requires v < Pow256(n)
    ensures ReadInt(LittleEndian(v, n) + rest, n) == Got(v, rest)
  {
    ReadBack(v, n, rest);
  }

  lemma ReadScriptBack(script: Bytes, rest: Bytes)
    requires |script| < 0x1_0000_0000
    ensures ReadScript(WriteScript(script) + rest) == Got(script, rest)
  {
    VarIntRoundTrip(|script|, script + rest);
    assert WriteScript(script) + rest == VarInt(|script|) + (script + rest);
    ReadBytesBack(script, rest);
  }

  lemma ReadOutputBack(o: Output, rest: Bytes)
    requires WritableOutput(o)
    ensures ReadOutput(LittleEndian(o.value, 8) + (WriteScript(o.script) + rest)) == Got(o, rest)
  {
    Pow256Values();
    ReadIntBack(o.value, 8, WriteScript(o.script) + rest);
    ReadScriptBack(o.script, rest);
  }

  lemma {:induction false} ReadOutputsBack(outputs: seq<Output>, rest: Bytes)
    requires forall i :: 0 <= i < |outputs| ==> WritableOutput(outputs[i])
    ensures ReadOutputs(WriteOutputs(outputs) + rest, |outputs|) == Got(outputs, rest)
    decreases |outputs|
  {
    if outputs == [] {
      assert WriteOutputs(outputs) + rest == rest;
    } else {
      var o, more := outputs[0], WriteOutputs(outputs[1..]);
      ReadOutputBack(o, more + rest);
      ReadOutputsBack(outputs[1..], rest);
      Assoc(LittleEndian(o.value, 8), WriteScript(o.script) + more, rest);
      Assoc(WriteScript(o.script), more, rest);
      assert [o] + outputs[1..] == outputs;
    }
  }

  lemma ReadTailBack(tx: Tx)
    requires Writable(tx)
    ensures ReadTail(WriteScript(tx.scriptSig) + (LittleEndian(tx.sequence, 4)
      + (VarInt(|tx.outputs|) + (WriteOutputs(tx.outputs) + LittleEndian(tx.lockTime, 4)))))
      == Got((tx.scriptSig, tx.sequence, tx.outputs, tx.lockTime), [])
  {
    Pow256Values();
    var e := LittleEndian(tx.lockTime, 4);
    var d := WriteOutputs(tx.outputs) + e;
    var c := VarInt(|tx.outputs|) + d;
    var b := LittleEndian(tx.sequence, 4) + c;
    ReadScriptBack(tx.scriptSig, b);
    ReadIntBack(tx.sequence, 4, c);
    VarIntRoundTrip(|tx.outputs|, d);
    ReadOutputsBack(tx.outputs, e);
    ReadIntBack(tx.lockTime, 4, []);
    assert e + [] == e;
  }

  /** Every writable transaction reads back to itself with nothing left over. */
  lemma TxRoundTrip(tx: Tx)
    requires Writable(tx)
    ensures ReadTx(WriteTx(tx)) == Some(tx)
  {
    Pow256Values();
    var tail := WriteScript(tx.scriptSig) + (LittleEndian(tx.sequence, 4)
      + (VarInt(|tx.outputs|) + (WriteOutputs(tx.outputs) + LittleEndian(tx.lockTime, 4))));
    ReadIntBack(tx.version, 4, VarInt(1) + (tx.prevHash + (LittleEndian(tx.prevIndex, 4) + tail)));
    VarIntRoundTrip(1, tx.prevHash + (LittleEndian(tx.prevIndex, 4) + tail));
    ReadBytesBack(tx.prevHash, LittleEndian(tx.prevIndex, 4) + tail);
    ReadIntBack(tx.prevIndex, 4, tail);
    ReadTailBack(tx);
  }

  // ----- The coinbase in two halves -----

  datatype Spec = Spec(outputScript: Option<Bytes>, value: int64, height: int64, extranonceSize: nat,
                       tag: Bytes, witnessCommitment: string, auxCommitment: Bytes)

  /** The tag that is written: at most 20 bytes, cut further if the script would pass 100 bytes. */
  function WrittenTag(spec: Spec): (tag: Bytes)
    requires spec.height >= 0
    ensures tag <= spec.tag && |tag| <= 20
  {
    var tag := if |spec.tag| > 20 then spec.tag[..20] else spec.tag;
    var scriptLen := |HeightPush(spec.height)| + |tag| + spec.extranonceSize + |spec.auxCommitment|;
    if scriptLen > 100 && scriptLen - 100 < |tag| then tag[..|tag| - (scriptLen - 100)] else tag
  }

  function ScriptLength(spec: Spec): nat
    requires spec.height >= 0
  {
    |HeightPush(spec.height)| + |WrittenTag(spec)| + spec.extranonceSize + |spec.auxCommitment|
  }

  /** The node's commitment script; a bare 32-byte hash is wrapped, malformed text is ignored. */
  function WitnessScript(text: string): Option<Bytes> {
    match Hex.Decode(text)
    case None => None
    case Some(d) =>
      if d == [] then None
      else if |d| == 32 then Some([0x6a, 0x24, 0xaa, 0x21, 0xa9, 0xed] + d)
      else Some(d)
  }

  /** The reward output; an address that cannot be decoded falls back to OP_RETURN. */
  function RewardScript(spec: Spec): Bytes {
    match spec.outputScript
    case None => [0x6a]
    case Some(script) => script
  }

  const VERSION: Bytes := [1, 0, 0, 0]
  const ONE: Bytes := [1]
  const TWO: Bytes := [2]
  const ALL_ONES: Bytes := [0xff, 0xff, 0xff, 0xff]
  const LOCK_TIME: Bytes := [0, 0, 0, 0]

  function Part1(spec: Spec): Bytes
    requires spec.height >= 0
  {
    VERSION + ONE + Zeros(32) + ALL_ONES + LowByteOf(ScriptLength(spec))
    + HeightPush(spec.height) + WrittenTag(spec)
  }

  /** The bytes Part2 writes after the reward output. */
  function SecondOutput(spec: Spec): Bytes {
    match WitnessScript(spec.witnessCommitment)
    case None => []
    case Some(script) => Zeros(8) + LowByteOf(|script|) + script
  }

  function OutputCount(spec: Spec): Bytes {
    if WitnessScript(spec.witnessCommitment).Some? then TWO else ONE
  }

  /** The value's 64 bits; a negative value wraps. */
  function ValueBytes(value: int64): Bytes {
    LittleEndian(value % 0x1_0000_0000_0000_0000, 8)
  }

  function Part2(spec: Spec): Bytes {
    spec.auxCommitment + ALL_ONES + OutputCount(spec) + ValueBytes(spec.value)
    + LowByteOf(|RewardScript(spec)|) + RewardScript(spec)
    + SecondOutput(spec) + LOCK_TIME
  }

  method TrimTag(spec: Spec, heightScript: Bytes) returns (tagBytes: Bytes, scriptLen: nat)
    requires spec.height >= 0 && heightScript == HeightPush(spec.height)
    ensures tagBytes == WrittenTag(spec) && scriptLen == ScriptLength(spec)
  {
    tagBytes := spec.tag;
    if |tagBytes| > 20 {
      tagBytes := tagBytes[..20];
    }
    scriptLen := |heightScript| + |tagBytes| + spec.extranonceSize + |spec.auxCommitment|;
    if scriptLen > 100 {
      var trim := scriptLen - 100;
      if trim < |tagBytes| {
        tagBytes := tagBytes[..|tagBytes| - trim];
      }
      scriptLen := |heightScript| + |tagBytes| + spec.extranonceSize + |spec.auxCommitment|;
    }
  }

  method CreateCoinbaseTx(spec: Spec) returns (part1: Bytes, part2: Bytes)
    requires spec.height >= 0
    ensures part1 == Part1(spec) && part2 == Part2(spec)
  {
    var heightScript := EncodeHeight(spec.height);
    var tagBytes, scriptLen := TrimTag(spec, heightScript);

    var buf1: Bytes := VERSION;
    buf1 := buf1 + ONE;
    buf1 := buf1 + Zeros(32);
    buf1 := buf1 + ALL_ONES;
    buf1 := buf1 + LowByteOf(scriptLen);
    buf1 := buf1 + heightScript;
    buf1 := buf1 + tagBytes;

    var buf2: Bytes := spec.auxCommitment;
    buf2 := buf2 + ALL_ONES;
    buf2 := buf2 + OutputCount(spec);
    var valueBytes := WriteValue(spec.value);
    buf2 := buf2 + valueBytes;
    var script := RewardScript(spec);
    buf2 := buf2 + LowByteOf(|script|);
    buf2 := buf2 + script;
    buf2 := WriteSecondOutput(spec, buf2);
    buf2 := buf2 + LOCK_TIME;
    return buf1, buf2;
  }

  /** The end of CreateCoinbaseTx: the commitment output, when there is one. */
  method WriteSecondOutput(spec: Spec, buf: Bytes) returns (b: Bytes)
    ensures b == buf + SecondOutput(spec)
  {
    var commitScript := WitnessScript(spec.witnessCommitment);
    if commitScript.None? {
      assert buf + [] == buf;
      return buf;
    }
    b := buf + (Zeros(8) + LowByteOf(|commitScript.value|) + commitScript.value);
  }

  /** What is written, and the low `n` bytes of what is left of the value. */
  predicate WrittenUpTo(b: Bytes, shifted: int, n: nat, value: int64) {
    b + LittleEndian(shifted % Pow256(n), n) == ValueBytes(value)
  }

  /** The eight value bytes, one arithmetic shift at a time; a negative value wraps to 64 bits. */
  method WriteValue(value: int64) returns (b: Bytes)
    ensures b == ValueBytes(value)
  {
    NothingWritten(value);
    b := [];
    var shifted: int := value;
    for i := 0 to 8
      invariant WrittenUpTo(b, shifted, 8 - i, value)
    {
      NextByte(b, shifted, 8 - i, value);
      b := b + [(shifted % 256) as byte];
      shifted := shifted / 256;
    }
    AllWritten(b, shifted, value);
  }

  lemma NothingWritten(value: int64)
    ensures WrittenUpTo([], value, 8, value)
  {
    Pow256Values();
  }

  lemma AllWritten(b: Bytes, shifted: int, value: int64)
    requires WrittenUpTo(b, shifted, 0, value)
    ensures b == ValueBytes(value)
  {
    assert b + [] == b;
  }

  lemma NextByte(b: Bytes, x: int, n: nat, value: int64)
    requires n > 0 && WrittenUpTo(b, x, n, value)
    ensures WrittenUpTo(b + [(x % 256) as byte], x / 256, n - 1, value)
  {
    LowByte(x, Pow256(n - 1));
    Assoc(b, [(x % 256) as byte], LittleEndian((x / 256) % Pow256(n - 1), n - 1));
  }

  lemma LowByte(x: int, p: nat)
    requires p >= 1
    ensures (x % (256 * p)) % 256 == x % 256
    ensures (x % (256 * p)) / 256 == (x / 256) % p
  {
    var q, r := x / 256, x % 256;
    var m := q % p;
    var d := q / p;
    assert q == d * p + m;
    assert x == d * (256 * p) + (256 * m + r) by { assert 256 * (d * p) == d * (256 * p); }
    DivModUnique(x, 256 * p, d, 256 * m + r);
  }

  // ----- What the spliced transaction is -----

  /** The reward, and the witness commitment when the node supplied one. */
  ghost function IntendedOutputs(spec: Spec): seq<Output>
    requires spec.value >= 0
  {
    [Output(spec.value, RewardScript(spec))] + CommitmentOutputs(spec)
  }

  ghost function CommitmentOutputs(spec: Spec): seq<Output> {
    match WitnessScript(spec.witnessCommitment)
    case None => []
    case Some(script) => [Output(0, script)]
  }

  /** The transaction the pool means, for an extranonce filled in by the miner. */
  ghost function Intended(spec: Spec, extranonce: Bytes): Tx
    requires spec.height >= 0 && spec.value >= 0
  {
    Tx(1, Zeros(32), 0xffff_ffff,
       HeightPush(spec.height) + WrittenTag(spec) + extranonce + spec.auxCommitment, 0xffff_ffff,
       IntendedOutputs(spec), 0)
  }

  ghost predicate SmallScripts(spec: Spec) {
    && |RewardScript(spec)| < 0xfd
    && (WitnessScript(spec.witnessCommitment).Some? ==> |WitnessScript(spec.witnessCommitment).value| < 0xfd)
  }

  lemma WireConstants()
    ensures LittleEndian(1, 4) == VERSION && VarInt(1) == ONE && VarInt(2) == TWO
    ensures LittleEndian(0, 4) == LOCK_TIME
    ensures LittleEndian(0, 8) == Zeros(8)
    ensures LittleEndian(0xffff_ffff, 4) == ALL_ONES
  {
    LittleEndianOfZero(4);
    LittleEndianOfZero(8);
    assert LittleEndian(1, 4) == [1] + LittleEndian(0, 3);
    LittleEndianOfZero(3);
    assert Zeros(3) == [0, 0, 0] && Zeros(4) == [0, 0, 0, 0];
    assert LittleEndian(0xff, 1) == [0xff] + LittleEndian(0, 0);
    assert LittleEndian(0xff_ffff, 3) == [0xff] + LittleEndian(0xffff, 2);
    assert LittleEndian(0xffff, 2) == [0xff] + LittleEndian(0xff, 1);
  }

  lemma {:induction false} LittleEndianOfZero(n: nat)
    ensures LittleEndian(0, n) == Zeros(n)
  {
    if n > 0 {
      LittleEndianOfZero(n - 1);
      assert [0] + Zeros(n - 1) == Zeros(n);
    }
  }

  lemma Regroup(a: Bytes, b: Bytes, c: Bytes, d: Bytes, e: Bytes)
    ensures a + b + c + d + e == a + (b + (c + (d + e)))
  {
    Assoc(a + b + c, d, e);
    Assoc(a + b, c, d + e);
    Assoc(a, b, c + (d + e));
  }

  lemma SplicedFront(spec: Spec, extranonce: Bytes)
    requires spec.height >= 0 && |extranonce| == spec.extranonceSize && ScriptLength(spec) < 0xfd
    ensures var script := HeightPush(spec.height) + WrittenTag(spec) + extranonce + spec.auxCommitment;
      && |script| == ScriptLength(spec)
      && Part1(spec) + extranonce + spec.auxCommitment
        == VERSION + (ONE + (Zeros(32) + (ALL_ONES + (LowByteOf(|script|) + script))))
  {
    var h, t, x, aux := HeightPush(spec.height), WrittenTag(spec), extranonce, spec.auxCommitment;
    RegroupFront(VERSION, ONE, Zeros(32), ALL_ONES, LowByteOf(ScriptLength(spec)), h, t, x, aux);
  }

  lemma RegroupFront(a: Bytes, b: Bytes, c: Bytes, d: Bytes, s: Bytes, h: Bytes, t: Bytes, x: Bytes, u: Bytes)
    ensures a + b + c + d + s + h + t + x + u == a + (b + (c + (d + (s + (h + t + x + u)))))
  {
    Regroup(a + b + c + d + s, h, t, x, u);
    Regroup([], h, t, x, u);
    var script := h + t + x + u;
    assert a + b + c + d + s + h + t + x + u == a + b + c + d + s + script;
    Regroup(a + b, c, d, s, script);
    Regroup([], a, b, c + (d + (s + script)), []);
    Assoc(a, b, c + (d + (s + script)));
  }

  lemma SmallScript(script: Bytes)
    requires |script| < 0xfd
    ensures WriteScript(script) == LowByteOf(|script|) + script
  {
  }

  lemma FirstOutput(o: Output, rest: seq<Output>)
    requires WritableOutput(o)
    requires forall i :: 0 <= i < |rest| ==> WritableOutput(rest[i])
    ensures WriteOutputs([o] + rest) == LittleEndian(o.value, 8) + (WriteScript(o.script) + WriteOutputs(rest))
  {
    assert ([o] + rest)[0] == o && ([o] + rest)[1..] == rest;
  }

  lemma SecondOutputWritten(spec: Spec)
    requires SmallScripts(spec)
    ensures forall i :: 0 <= i < |CommitmentOutputs(spec)| ==> WritableOutput(CommitmentOutputs(spec)[i])
    ensures WriteOutputs(CommitmentOutputs(spec)) == SecondOutput(spec)
  {
    if WitnessScript(spec.witnessCommitment).Some? {
      var script := WitnessScript(spec.witnessCommitment).value;
      WireConstants();
      SmallScript(script);
      FirstOutput(Output(0, script), []);
      assert [Output(0, script)] + [] == [Output(0, script)];
      assert LowByteOf(|script|) + script + [] == LowByteOf(|script|) + script;
      Assoc(Zeros(8), LowByteOf(|script|), script);
    }
  }

  lemma CountEncoding(spec: Spec)
    requires spec.value >= 0
    ensures VarInt(|IntendedOutputs(spec)|) == OutputCount(spec)
  {
    WireConstants();
  }

  lemma ValueEncoding(value: int64)
    requires value >= 0
    ensures value < 0x1_0000_0000_0000_0000 && ValueBytes(value) == LittleEndian(value, 8)
  {
    Arithmetic.DivModUnique(value, 0x1_0000_0000_0000_0000, 0, value);
  }

  lemma OutputsEncoding(spec: Spec)
    requires spec.value >= 0 && SmallScripts(spec)
    ensures forall i :: 0 <= i < |IntendedOutputs(spec)| ==> WritableOutput(IntendedOutputs(spec)[i])
    ensures VarInt(|IntendedOutputs(spec)|) == OutputCount(spec)
    ensures WriteOutputs(IntendedOutputs(spec)) == ValueBytes(spec.value)
      + (LowByteOf(|RewardScript(spec)|) + RewardScript(spec) + SecondOutput(spec))
  {
    CountEncoding(spec);
    ValueEncoding(spec.value);
    SecondOutputWritten(spec);
    SmallScript(RewardScript(spec));
    FirstOutput(Output(spec.value, RewardScript(spec)), CommitmentOutputs(spec));
  }

  lemma RegroupTail(a: Bytes, b: Bytes, c: Bytes, d: Bytes, e: Bytes, f: Bytes, g: Bytes, h: Bytes)
    ensures a + b + c + d + e + f + g + h == a + (b + (c + ((d + (e + f + g)) + h)))
  {
    calc {
      a + b + c + d + e + f + g + h;
      { Regroup(a + b + c + d, e, f, g, h); }
      a + b + c + d + (e + (f + (g + h)));
      { Regroup(a, b, c, d, e + (f + (g + h))); }
      a + (b + (c + (d + (e + (f + (g + h))))));
      { FrontThenBack(d, e, f, g, [], h); Assoc(e, f, g); assert g + [] == g && [] + h == h; }
      a + (b + (c + ((d + (e + f + g)) + h)));
    }
  }

  lemma SplicedOutputs(spec: Spec)
    requires spec.value >= 0 && SmallScripts(spec)
    ensures forall i :: 0 <= i < |IntendedOutputs(spec)| ==> WritableOutput(IntendedOutputs(spec)[i])
    ensures var outputs := IntendedOutputs(spec);
      Part2(spec) == spec.auxCommitment + (ALL_ONES + (VarInt(|outputs|) + (WriteOutputs(outputs) + LOCK_TIME)))
  {
    OutputsEncoding(spec);
    var script := RewardScript(spec);
    RegroupTail(spec.auxCommitment, ALL_ONES, OutputCount(spec), ValueBytes(spec.value), LowByteOf(|script|), script,
      SecondOutput(spec), LOCK_TIME);
  }

  /**
   Whatever the miner writes into the gap, the two halves around it are the intended transaction:
   every byte is consumed, the declared script length is exact, and the script ends with the
   auxiliary commitment.
   */
  lemma SplicedCoinbaseReadsBack(spec: Spec, extranonce: Bytes)
    requires spec.height >= 0 && spec.value >= 0 && SmallScripts(spec)
    requires |extranonce| == spec.extranonceSize && ScriptLength(spec) < 0xfd
    ensures ReadTx(Part1(spec) + extranonce + Part2(spec)) == Some(Intended(spec, extranonce))
    ensures |Intended(spec, extranonce).scriptSig| == ScriptLength(spec)
  {
    SplicedIsWritten(spec, extranonce);
    TxRoundTrip(Intended(spec, extranonce));
  }

  /** The output a commitment text asks for: its bytes as they are, or a bare hash behind its marker. */
  lemma CommitmentOutputsAre(spec: Spec)
    ensures match Hex.Decode(spec.witnessCommitment)
      case None => CommitmentOutputs(spec) == []
      case Some(c) =>
        if |c| == 0 then CommitmentOutputs(spec) == []
        else if |c| == 32 then CommitmentOutputs(spec) == [Output(0, [0x6a, 0x24, 0xaa, 0x21, 0xa9, 0xed] + c)]
        else CommitmentOutputs(spec) == [Output(0, c)]
  {
  }

  /**
   What a reader finds in the spliced transaction: one coinbase input whose script is height, tag, extranonce and
   commitment; the whole reward to the wallet's script, or burnt if there is none; and a second output if and only
   if the node's commitment text decodes to something.
   */
  lemma SplicedCoinbasePaysTheWallet(spec: Spec, extranonce: Bytes)
    requires spec.height >= 0 && spec.value >= 0 && SmallScripts(spec)
    requires |extranonce| == spec.extranonceSize && ScriptLength(spec) < 0xfd
    ensures ReadTx(Part1(spec) + extranonce + Part2(spec)).Some?
    ensures var tx := ReadTx(Part1(spec) + extranonce + Part2(spec)).value;
      && tx.version == 1 && tx.prevHash == Zeros(32) && tx.prevIndex == 0xffff_ffff
      && tx.scriptSig == HeightPush(spec.height) + WrittenTag(spec) + extranonce + spec.auxCommitment
      && tx.sequence == 0xffff_ffff && tx.lockTime == 0
      && |tx.outputs| > 0
      && tx.outputs[0] == Output(spec.value, if spec.outputScript == None then [0x6a] else spec.outputScript.value)
      && match Hex.Decode(spec.witnessCommitment)
         case None => |tx.outputs| == 1
         case Some(c) =>
           if |c| == 0 then |tx.outputs| == 1
           else if |c| == 32 then tx.outputs[1..] == [Output(0, [0x6a, 0x24, 0xaa, 0x21, 0xa9, 0xed] + c)]
           else tx.outputs[1..] == [Output(0, c)]
  {
    SplicedCoinbaseReadsBack(spec, extranonce);
    CommitmentOutputsAre(spec);
    var outputs := IntendedOutputs(spec);
    assert outputs[0] == Output(spec.value, RewardScript(spec)) && outputs[1..] == CommitmentOutputs(spec);
  }

  lemma SplicedIsWritten(spec: Spec, extranonce: Bytes)
    requires spec.height >= 0 && spec.value >= 0 && SmallScripts(spec)
    requires |extranonce| == spec.extranonceSize && ScriptLength(spec) < 0xfd
    ensures |Intended(spec, extranonce).scriptSig| == ScriptLength(spec)
    ensures Writable(Intended(spec, extranonce))
    ensures Part1(spec) + extranonce + Part2(spec) == WriteTx(Intended(spec, extranonce))
  {
    var tx := Intended(spec, extranonce);
    SplicedFront(spec, extranonce);
    SplicedOutputs(spec);
    var size := LowByteOf(|tx.scriptSig|);
    var back := ALL_ONES + (VarInt(|tx.outputs|) + (WriteOutputs(tx.outputs) + LOCK_TIME));
    Assoc(Part1(spec) + extranonce, spec.auxCommitment, back);
    FrontThenBack(VERSION, ONE, Zeros(32), ALL_ONES, size + tx.scriptSig, back);
    WrittenForm(tx);
  }

  lemma WrittenForm(tx: Tx)
    requires Writable(tx) && |tx.scriptSig| < 0xfd
    requires tx.version == 1 && tx.prevIndex == tx.sequence == 0xffff_ffff && tx.lockTime == 0
    ensures WriteTx(tx) == VERSION + (ONE + (tx.prevHash + (ALL_ONES + (LowByteOf(|tx.scriptSig|) + tx.scriptSig
      + (ALL_ONES + (VarInt(|tx.outputs|) + (WriteOutputs(tx.outputs) + LOCK_TIME)))))))
  {
    WireConstants();
  }

  lemma FrontThenBack(a: Bytes, b: Bytes, c: Bytes, d: Bytes, e: Bytes, f: Bytes)
    ensures a + (b + (c + (d + e))) + f == a + (b + (c + (d + (e + f))))
  {
    Assoc(a, b + (c + (d + e)), f);
    Assoc(b, c + (d + e), f);
    Assoc(c, d + e, f);
    Assoc(d, e, f);
  }

  /**
   The 100-byte limit the trimming is meant to keep. It is kept exactly when something is left for
   the tag, or there is no tag: a tag that would have to vanish completely is not cut at all.
   */
  lemma ScriptLimit(spec: Spec)
    requires spec.height >= 0
    ensures var fixed := |HeightPush(spec.height)| + spec.extranonceSize + |spec.auxCommitment|;
      ScriptLength(spec) <= 100 <==> fixed < 100 || (fixed == 100 && spec.tag == [])
  {
  }

  /** The tag is cut no further than the limit asks, and beyond 20 bytes always. */
  lemma TagIsCutNoFurther(spec: Spec)
    requires spec.height >= 0
    ensures var fixed := |HeightPush(spec.height)| + spec.extranonceSize + |spec.auxCommitment|;
      var short := if |spec.tag| > 20 then spec.tag[..20] else spec.tag;
      && WrittenTag(spec) <= short
      && (fixed + |short| <= 100 || fixed >= 100 ==> WrittenTag(spec) == short)
      && (fixed + |short| > 100 > fixed ==> ScriptLength(spec) == 100)
  {
  }

  lemma ScriptLimitCounterexample()
    ensures var spec := Spec(None, 0, 0, 99, [0x2f], "", []);
      |HeightPush(spec.height)| + spec.extranonceSize + |spec.auxCommitment| == 100 && ScriptLength(spec) == 101
  {
  }

  /** The script the pool's own sizes give: 12 extranonce bytes and no or a 44-byte commitment. */
  lemma PoolScript(spec: Spec, extranonce: Bytes)
    requires spec.height >= 1 && spec.value >= 0
    requires |extranonce| == spec.extranonceSize == 12 && (|spec.auxCommitment| == 0 || |spec.auxCommitment| == 44)
    ensures ScriptLength(spec) <= 100
    ensures WrittenTag(spec) == if |spec.tag| > 20 then spec.tag[..20] else spec.tag
    ensures ReadPush(Intended(spec, extranonce).scriptSig)
      == Some((ScriptNumber(spec.height), WrittenTag(spec) + extranonce + spec.auxCommitment))
    ensures ReadScriptNumber(ScriptNumber(spec.height)) == spec.height
  {
    HeightPushLength(spec.height);
    var h, t := HeightPush(spec.height), WrittenTag(spec);
    Assoc(h, t, extranonce);
    Assoc(h, t + extranonce, spec.auxCommitment);
    assert Intended(spec, extranonce).scriptSig == h + (t + extranonce + spec.auxCommitment);
    HeightReadsBack(spec.height, t + extranonce + spec.auxCommitment);
    HeightIsMinimalScriptNumber(spec.height);
  }

  /** With those sizes the spliced coinbase reads back whole, for every miner's extranonce. */
  lemma PoolCoinbaseReadsBack(spec: Spec, extranonce: Bytes)
    requires spec.height >= 1 && spec.value >= 0 && SmallScripts(spec)
    requires |extranonce| == spec.extranonceSize == 12 && (|spec.auxCommitment| == 0 || |spec.auxCommitment| == 44)
    ensures ReadTx(Part1(spec) + extranonce + Part2(spec)) == Some(Intended(spec, extranonce))
    ensures |Intended(spec, extranonce).scriptSig| <= 100
  {
    PoolScript(spec, extranonce);
    SplicedCoinbaseReadsBack(spec, extranonce);
  }
}
