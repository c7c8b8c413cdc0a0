/**
 From a block template to a job, from a miner's fields to the header that is hashed, and from an
 accepted share to the block that is submitted.
 (internal/stratum/server.go, buildJob, validateShare and assembleBlockHex)
 */
module BlockAssembly {
  import opened Bytes
  import opened Wrappers
  import opened Merkle
  import opened Sequences
  import Hex
  import Coinbase

  datatype Job = Job(prevHash: string, part1: string, part2: string, branches: seq<string>,
                     version: string, nbits: string, ntime: string, rawTxs: seq<string>)

  /** What a miner submits for a job, with the version it effectively used. */
  datatype Share = Share(extranonce1: string, extranonce2: string, ntime: string, version: string)

  /** Hash functions the model does not look into: SHA-256d, and the coin's proof of work, which may fail. */
  datatype Hashes = Hashes(dsha: Bytes -> Digest, pow: Bytes -> Option<Digest>)

  function CoinbaseText(job: Job, share: Share): string {
    job.part1 + share.extranonce1 + share.extranonce2 + job.part2
  }

  // ----- The header, by its own layout -----

  datatype Header = Header(version: uint32, prevHash: Digest, merkleRoot: Digest,
                           time: uint32, bits: uint32, nonce: Bytes)

  function Serialize(h: Header): Bytes {
    LittleEndian(h.version, 4) + h.prevHash + h.merkleRoot + LittleEndian(h.time, 4) + LittleEndian(h.bits, 4) + h.nonce
  }

  // ----- Validating a share: every integer field is parsed and written little-endian -----

  function MerkleRootOf(hs: Hashes, job: Job, share: Share): Option<Digest> {
    match Hex.Decode(CoinbaseText(job, share))
    case None => None
    case Some(coinbase) => FoldDigest(hs.dsha, hs.dsha(coinbase), job.branches)
  }

  /** FoldBranch keeps its 32 bytes: every step ends in a digest. */
  function FoldDigest(dsha: Bytes -> Digest, root: Digest, branch: seq<string>): (r: Option<Digest>)
    ensures r == FoldBranch(dsha, root, branch)
    decreases |branch|
  {
    if branch == [] then Some(root)
    else if !Hex.IsHex(branch[0]) then None
    else FoldDigest(dsha, dsha(root + Hex.DecodePrefix(branch[0])), branch[1..])
  }

  function PrevHashOf(job: Job): Option<Digest> {
    match Hex.Decode(Hex.SwapWords(job.prevHash))
    case None => None
    case Some(b) => if |b| == 32 then Some(b) else None
  }

  function NonceOf(nonce: string): Option<Bytes> {
    match Hex.Decode(nonce)
    case None => None
    case Some(b) => if |b| == 4 then Some(b) else None
  }

  /** The header a share stands for, if all its fields parse. */
  function HeaderOf(hs: Hashes, job: Job, share: Share, nonce: string): Option<Header> {
    var root, prev, n := MerkleRootOf(hs, job, share), PrevHashOf(job), NonceOf(nonce);
    var version, time, bits := Hex.ParseUint32(share.version), Hex.ParseUint32(share.ntime), Hex.ParseUint32(job.nbits);
    if root.None? || prev.None? || n.None? || !version.ok || !time.ok || !bits.ok then None
    else Some(Header(version.value, prev.value, root.value, time.value, bits.value, n.value))
  }

  function HeaderHash(hs: Hashes, header: Bytes): Option<nat> {
    match hs.pow(header)
    case None => None
    case Some(digest) => Some(FromBigEndian(Reverse(digest)))
  }

  /** Does the header of this nonce text hash to at most `target`? */
  predicate Meets(hs: Hashes, job: Job, share: Share, nonce: string, target: nat) {
    match HeaderOf(hs, job, share, nonce)
    case None => false
    case Some(h) => HeaderHash(hs, Serialize(h)).Some? && HeaderHash(hs, Serialize(h)).value <= target
  }

  /** The proof-of-work digest of the header this nonce gives, if its fields parse and it can be hashed. */
  function DigestOf(hs: Hashes, job: Job, share: Share, nonce: string): Option<Digest> {
    match HeaderOf(hs, job, share, nonce)
    case None => None
    case Some(h) => hs.pow(Serialize(h))
  }

  lemma {:induction false} ReversedIsLittleEndian(b: Bytes)
    ensures FromBigEndian(Reverse(b)) == FromLittleEndian(b)
  {
    if b != [] {
      ReversedIsLittleEndian(b[1..]);
      assert Reverse(b)[..|b| - 1] == Reverse(b[1..]);
    }
  }

  /** A nonce is accepted when its digest, read as a little-endian number, is at most the target. */
  lemma MeetsIff(hs: Hashes, job: Job, share: Share, nonce: string, target: nat)
    ensures Meets(hs, job, share, nonce, target) <==>
      (DigestOf(hs, job, share, nonce).Some? && FromLittleEndian(DigestOf(hs, job, share, nonce).value) <= target)
  {
    var digest := DigestOf(hs, job, share, nonce);
    if digest.Some? {
      ReversedIsLittleEndian(digest.value);
    }
  }

  /**
   Tries the nonce as submitted and then byte-reversed; the first whose digest is within the share target is the
   effective one, and it wins a block if it is within the block target too.
   */
  method ValidateShare(hs: Hashes, job: Job, share: Share, nonce: string, shareTarget: nat, blockTarget: nat)
    returns (valid: bool, isBlock: bool, effective: string)
    ensures var first, second := DigestOf(hs, job, share, nonce), DigestOf(hs, job, share, Hex.ReverseHex(nonce));
      && (valid <==> (first.Some? && FromLittleEndian(first.value) <= shareTarget)
                     || (second.Some? && FromLittleEndian(second.value) <= shareTarget))
      && (effective == if valid && !(first.Some? && FromLittleEndian(first.value) <= shareTarget)
                       then Hex.ReverseHex(nonce) else nonce)
    ensures valid ==> DigestOf(hs, job, share, effective).Some?
    ensures isBlock <==> valid && FromLittleEndian(DigestOf(hs, job, share, effective).value) <= blockTarget
  {
    var coinbase := Hex.Decode(CoinbaseText(job, share));
    if coinbase.None? {
      return false, false, nonce;
    }
    var root := ComputeRoot(hs.dsha, hs.dsha(coinbase.value), job.branches);
    var version := Hex.ParseUint32(share.version);
    var swapped := Hex.ReverseByteOrder(job.prevHash);
    var prev := Hex.Decode(swapped);
    var time := Hex.ParseUint32(share.ntime);
    var bits := Hex.ParseUint32(job.nbits);
    if root.None? || !version.ok || prev.None? || |prev.value| != 32 || !time.ok || !bits.ok {
      return false, false, nonce;
    }
    assert root == MerkleRootOf(hs, job, share);
    var fields := Header(version.value, prev.value, root.value, time.value, bits.value, []);
    var reversed := Hex.HexReverseBytes(nonce);
    var nonces := [nonce, reversed];
    ghost var first, second := DigestOf(hs, job, share, nonce), DigestOf(hs, job, share, reversed);
    for i := 0 to 2
      invariant i >= 1 ==> first.None? || FromLittleEndian(first.value) > shareTarget
      invariant i >= 2 ==> second.None? || FromLittleEndian(second.value) > shareTarget
    {
      var meets, block := TryNonce(hs, job, share, fields, nonces[i], shareTarget, blockTarget);
      if meets {
        return true, block, nonces[i];
      }
    }
    return false, false, nonce;
  }

  /** `fields` are the job's and the share's parsed fields; only the nonce is still open. */
  ghost predicate Parsed(hs: Hashes, job: Job, share: Share, fields: Header) {
    var version, time, bits := Hex.ParseUint32(share.version), Hex.ParseUint32(share.ntime), Hex.ParseUint32(job.nbits);
    && MerkleRootOf(hs, job, share) == Some(fields.merkleRoot) && PrevHashOf(job) == Some(fields.prevHash)
    && version.ok && time.ok && bits.ok
    && version.value == fields.version && time.value == fields.time && bits.value == fields.bits
  }

  method TryNonce(hs: Hashes, job: Job, share: Share, fields: Header, nonce: string, shareTarget: nat, blockTarget: nat)
    returns (meets: bool, isBlock: bool)
    requires Parsed(hs, job, share, fields)
    ensures var digest := DigestOf(hs, job, share, nonce);
      && (meets <==> digest.Some? && FromLittleEndian(digest.value) <= shareTarget)
      && (isBlock <==> meets && FromLittleEndian(digest.value) <= blockTarget)
  {
    var n := NonceOf(nonce);
    if n.None? {
      return false, false;
    }
    var header := LittleEndian(fields.version, 4) + fields.prevHash + fields.merkleRoot
      + LittleEndian(fields.time, 4) + LittleEndian(fields.bits, 4) + n.value;
    assert header == Serialize(fields.(nonce := n.value));
    var hash := HashOfHeader(hs, header);
    MeetsIff(hs, job, share, nonce, shareTarget);
    MeetsIff(hs, job, share, nonce, blockTarget);
    if hash.Some? && hash.value <= shareTarget {
      return true, hash.value <= blockTarget;
    }
    return false, false;
  }

  /** The header hash as an integer: the bytes are reversed for comparison with a target. */
  method HashOfHeader(hs: Hashes, header: Bytes) returns (hash: Option<nat>)
    ensures hash == HeaderHash(hs, header)
  {
    var hashRaw := hs.pow(header);
    if hashRaw.None? {
      return None;
    }
    var reversed := ReverseBytes(hashRaw.value);
    return Some(FromBigEndian(reversed));
  }

  // ----- Assembling a block: the same fields decoded from text and byte-swapped -----

  datatype Block = Block(blockHex: string, blockHash: string, header: Bytes, coinbase: Bytes)

  /** A 4-byte field decoded and reversed in place. */
  function SwappedField(text: string): Option<Bytes> {
    match Hex.Decode(text)
    case None => None
    case Some(b) => if |b| == 4 then Some([b[3], b[2], b[1], b[0]]) else None
  }

  function ConcatTxs(texts: seq<string>): Option<Bytes> {
    if texts == [] then Some([])
    else if !Hex.IsHex(texts[0]) then None
    else Prepend(Hex.DecodePrefix(texts[0]), ConcatTxs(texts[1..]))
  }

  /** The header assembled from text; a version that does not parse keeps the parser's fallback value. */
  function AssembledHeader(hs: Hashes, job: Job, share: Share, nonce: string): Option<Bytes> {
    var root, prev, n := MerkleRootOf(hs, job, share), PrevHashOf(job), NonceOf(nonce);
    var time, bits := SwappedField(share.ntime), SwappedField(job.nbits);
    if root.None? || prev.None? || time.None? || bits.None? || n.None? then None
    else Some(LittleEndian(Hex.ParseUint32(share.version).value, 4) + prev.value + root.value
              + time.value + bits.value + n.value)
  }

  predicate ManageableTxCount(job: Job) {
    |job.rawTxs| < 0xffff_ffff
  }

  function BlockOf(hs: Hashes, job: Job, share: Share, nonce: string): Option<Block>
    requires ManageableTxCount(job)
  {
    var header, txs := AssembledHeader(hs, job, share, nonce), ConcatTxs(job.rawTxs);
    if header.None? || txs.None? then None
    else
      var coinbase := Hex.DecodePrefix(CoinbaseText(job, share));
      var bytes := header.value + (VarInt(1 + |job.rawTxs|) + (coinbase + txs.value));
      Some(Block(Hex.Encode(bytes), Hex.Encode(Reverse(hs.dsha(header.value))), header.value, coinbase))
  }

  method AssembleBlockHex(hs: Hashes, job: Job, share: Share, nonce: string) returns (block: Option<Block>)
    requires ManageableTxCount(job)
    ensures block == BlockOf(hs, job, share, nonce)
  {
    var coinbase := Hex.Decode(CoinbaseText(job, share));
    if coinbase.None? {
      return None;
    }
    var root := ComputeRoot(hs.dsha, hs.dsha(coinbase.value), job.branches);
    var version := Hex.ParseUint32(share.version);
    var swapped := Hex.ReverseByteOrder(job.prevHash);
    var prev := Hex.Decode(swapped);
    var time := SwappedField(share.ntime);
    var bits := SwappedField(job.nbits);
    var n := Hex.Decode(nonce);
    if root.None? || prev.None? || |prev.value| != 32 || time.None? || bits.None? || n.None? || |n.value| != 4 {
      return None;
    }
    var header := LittleEndian(version.value, 4) + prev.value + root.value + time.value + bits.value + n.value;
    var txs := DecodeTxs(job.rawTxs);
    if txs.None? {
      return None;
    }
    var reversedHash := ReverseBytes(hs.dsha(header));
    var bytes := header + (VarInt(1 + |job.rawTxs|) + (coinbase.value + txs.value));
    return Some(Block(Hex.Encode(bytes), Hex.Encode(reversedHash), header, coinbase.value));
  }

  method DecodeTxs(texts: seq<string>) returns (txs: Option<Bytes>)
    ensures txs == ConcatTxs(texts)
  {
    var block: Bytes := [];
    assert texts[0..] == texts;
    PrependNothing(ConcatTxs(texts));
    for i := 0 to |texts|
      invariant ConcatTxs(texts) == Prepend(block, ConcatTxs(texts[i..]))
    {
      assert texts[i..][1..] == texts[i + 1..];
      var tx := Hex.Decode(texts[i]);
      if tx.None? {
        return None;
      }
      PrependAppends(block, tx.value, ConcatTxs(texts[i + 1..]));
      block := block + tx.value;
    }
    assert block + [] == block;
    return Some(block);
  }

  function Prepend(front: Bytes, rest: Option<Bytes>): Option<Bytes> {
    match rest
    case None => None
    case Some(b) => Some(front + b)
  }

  lemma PrependNothing(rest: Option<Bytes>)
    ensures Prepend([], rest) == rest
  {
    if rest.Some? {
      assert [] + rest.value == rest.value;
    }
  }

  lemma PrependAppends(a: Bytes, b: Bytes, rest: Option<Bytes>)
    ensures Prepend(a, Prepend(b, rest)) == Prepend(a + b, rest)
  {
    if rest.Some? {
      Assoc(a, b, rest.value);
    }
  }

  // ----- The two routes agree -----

  lemma SwappedFieldMatchesParse(text: string)
    requires SwappedField(text).Some?
    ensures Hex.ParseUint32(text).ok && SwappedField(text) == Some(LittleEndian(Hex.ParseUint32(text).value, 4))
  {
    Hex.DecodeLength(text);
    Hex.ParseMatchesDecode(text);
    var b := Hex.DecodePrefix(text);
    assert Reverse(b) == [b[3], b[2], b[1], b[0]];
  }

  /** The submitted block starts with exactly the header that was hashed when the share was accepted. */
  lemma AssembledHeaderIsHashedHeader(hs: Hashes, job: Job, share: Share, nonce: string)
    requires HeaderOf(hs, job, share, nonce).Some? && AssembledHeader(hs, job, share, nonce).Some?
    ensures AssembledHeader(hs, job, share, nonce) == Some(Serialize(HeaderOf(hs, job, share, nonce).value))
  {
    SwappedFieldMatchesParse(share.ntime);
    SwappedFieldMatchesParse(job.nbits);
  }

  /**
   When an accepted share gives no block: the parser takes shorter and zero-padded integers, the
   assembler only eight digits, and it also decodes every transaction.
   */
  lemma AcceptedShareAssembles(hs: Hashes, job: Job, share: Share, nonce: string)
    requires HeaderOf(hs, job, share, nonce).Some?
    ensures AssembledHeader(hs, job, share, nonce).Some? <==> |share.ntime| == 8 && |job.nbits| == 8
  {
    ParsedFieldSwaps(share.ntime);
    ParsedFieldSwaps(job.nbits);
  }

  lemma ParsedFieldSwaps(text: string)
    requires Hex.ParseUint32(text).ok
    ensures SwappedField(text).Some? <==> |text| == 8
  {
    Hex.ParsedIsHexDigits(text, 0);
    if Hex.IsHex(text) {
      Hex.DecodeLength(text);
    }
  }

  lemma LeadingZeroIsIgnored(text: string)
    requires |text| > 1 && text[0] == '0'
    ensures Hex.ParseUint32(text[1..]) == Hex.ParseUint32(text)
  {
    assert Hex.ParseDigits(text, 0) == Hex.ParseDigits(text[1..], 0);
  }

  /** An accepted share stays accepted when its time loses a leading zero, but then gives no block. */
  lemma ShortTimeIsAcceptedButNotAssembled(hs: Hashes, job: Job, share: Share, nonce: string, target: nat)
    requires Meets(hs, job, share, nonce, target) && |share.ntime| == 8 && share.ntime[0] == '0'
    ensures var short := share.(ntime := share.ntime[1..]);
      Meets(hs, job, short, nonce, target) && AssembledHeader(hs, job, short, nonce) == None
  {
    var short := share.(ntime := share.ntime[1..]);
    LeadingZeroIsIgnored(share.ntime);
    assert CoinbaseText(job, short) == CoinbaseText(job, share);
    assert HeaderOf(hs, job, short, nonce) == HeaderOf(hs, job, share, nonce);
    AcceptedShareAssembles(hs, job, short, nonce);
  }

  /** The same holds when a time of eight digits gains a leading zero, as any time may. */
  lemma PaddedTimeIsAcceptedButNotAssembled(hs: Hashes, job: Job, share: Share, nonce: string, target: nat)
    requires Meets(hs, job, share, nonce, target) && |share.ntime| == 8
    ensures var padded := share.(ntime := "0" + share.ntime);
      Meets(hs, job, padded, nonce, target) && AssembledHeader(hs, job, padded, nonce) == None
  {
    var padded := share.(ntime := "0" + share.ntime);
    assert padded.ntime[1..] == share.ntime;
    LeadingZeroIsIgnored(padded.ntime);
    assert CoinbaseText(job, padded) == CoinbaseText(job, share);
    assert HeaderOf(hs, job, padded, nonce) == HeaderOf(hs, job, share, nonce);
    AcceptedShareAssembles(hs, job, padded, nonce);
  }

  // ----- Jobs built from a template -----

  datatype Template = Template(prevHash: string, txIds: seq<string>, txData: seq<string>,
                               version: uint32, bits: string, curTime: uint32)

  function ReverseAll(texts: seq<string>): (r: seq<string>)
    ensures |r| == |texts|
    ensures forall i :: 0 <= i < |texts| ==> r[i] == Hex.ReverseHex(texts[i])
  {
    seq(|texts|, i requires 0 <= i < |texts| => Hex.ReverseHex(texts[i]))
  }

  /** `%08x` of a 32-bit value. */
  function Hex8(v: uint32): (s: string)
    ensures |s| == 8 && Hex.IsHex(s)
  {
    Hex.Encode(Reverse(LittleEndian(v, 4)))
  }

  ghost function JobOf(dsha: Bytes -> Digest, t: Template, part1: Bytes, part2: Bytes): Job {
    Job(Hex.SwapWords(Hex.ReverseHex(t.prevHash)), Hex.Encode(part1), Hex.Encode(part2),
        Branch(HexNode(dsha), ReverseAll(t.txIds)), Hex8(t.version), t.bits, Hex8(t.curTime), t.txData)
  }

  method BuildJob(dsha: Bytes -> Digest, t: Template, spec: Coinbase.Spec) returns (job: Job)
    requires spec.height >= 0
    ensures job == JobOf(dsha, t, Coinbase.Part1(spec), Coinbase.Part2(spec))
  {
    var txHashes: seq<string> := [];
    for i := 0 to |t.txIds|
      invariant txHashes == ReverseAll(t.txIds[..i])
    {
      var reversed := Hex.HexReverseBytes(t.txIds[i]);
      txHashes := txHashes + [reversed];
    }
    assert t.txIds[..|t.txIds|] == t.txIds;
    var branches := BuildMerkleBranch(dsha, txHashes);
    var part1, part2 := Coinbase.CreateCoinbaseTx(spec);
    var reversed := Hex.HexReverseBytes(t.prevHash);
    var prevHash := Hex.ReverseByteOrder(reversed);
    job := Job(prevHash, Hex.Encode(part1), Hex.Encode(part2), branches,
               Hex8(t.version), t.bits, Hex8(t.curTime), t.txData);
  }

  lemma JobPrevHash(dsha: Bytes -> Digest, t: Template, part1: Bytes, part2: Bytes)
    requires Hex.IsHex(t.prevHash) && |t.prevHash| == 64
    ensures PrevHashOf(JobOf(dsha, t, part1, part2)) == Some(Reverse(Hex.DecodePrefix(t.prevHash)))
  {
    Hex.SwapWordsInvolution(Hex.ReverseHex(t.prevHash));
    Hex.ReverseHexDecodes(t.prevHash);
    Hex.DecodeLength(t.prevHash);
  }

  lemma JobCoinbase(dsha: Bytes -> Digest, t: Template, part1: Bytes, part2: Bytes, share: Share)
    requires Hex.IsHex(share.extranonce1) && Hex.IsHex(share.extranonce2)
    ensures Hex.Decode(CoinbaseText(JobOf(dsha, t, part1, part2), share)) == Some(part1
      + (Hex.DecodePrefix(share.extranonce1) + Hex.DecodePrefix(share.extranonce2)) + part2)
  {
    var a, b, c, d := Hex.Encode(part1), share.extranonce1, share.extranonce2, Hex.Encode(part2);
    Hex.EncodeDecode(part1);
    Hex.EncodeDecode(part2);
    Hex.DecodeAppend(a, b);
    Hex.DecodeAppend(a + b, c);
    Hex.DecodeAppend(a + b + c, d);
    Assoc(part1, Hex.DecodePrefix(b), Hex.DecodePrefix(c));
  }

  lemma ShortTimeParses()
    ensures Hex.ParseUint32("5f") == Hex.Parsed(95, true)
  {
    assert Hex.ParseDigits("5f", 0) == Hex.ParseDigits("f", 5) by { assert "5f"[1..] == "f"; }
    assert Hex.ParseDigits("f", 5) == Hex.ParseDigits("", 95) by { assert "f"[1..] == ""; }
  }

  lemma PaddedTimeParses(v: uint32)
    ensures Hex.ParseUint32(Hex8(v)).ok && Hex.ParseUint32("0" + Hex8(v)) == Hex.ParseUint32(Hex8(v))
  {
    Hex.ParseMatchesDecode(Hex8(v));
    assert ("0" + Hex8(v))[1..] == Hex8(v);
    LeadingZeroIsIgnored("0" + Hex8(v));
  }

  lemma NonceDecodes(nonce: string)
    requires Hex.IsHex(nonce) && |nonce| == 8
    ensures NonceOf(nonce).Some?
  {
    Hex.DecodeLength(nonce);
  }

  lemma JobRootExists(hs: Hashes, t: Template, part1: Bytes, part2: Bytes, share: Share)
    requires Hex.IsHex(share.extranonce1) && Hex.IsHex(share.extranonce2)
    ensures MerkleRootOf(hs, JobOf(hs.dsha, t, part1, part2), share).Some?
  {
    JobCoinbase(hs.dsha, t, part1, part2, share);
    var gap := Hex.DecodePrefix(share.extranonce1) + Hex.DecodePrefix(share.extranonce2);
    MinerRootIsBlockRoot(hs.dsha, hs.dsha(part1 + gap + part2), ReverseAll(t.txIds));
  }

  lemma ShareOfBest(hs: Hashes, job: Job, share: Share, nonce: string, best: Digest)
    requires forall header :: hs.pow(header) == Some(best)
    requires MerkleRootOf(hs, job, share).Some? && PrevHashOf(job).Some? && NonceOf(nonce).Some?
    requires Hex.ParseUint32(share.version).ok && Hex.ParseUint32(share.ntime).ok && Hex.ParseUint32(job.nbits).ok
    requires |share.ntime| != 8
    ensures Meets(hs, job, share, nonce, FromBigEndian(Reverse(best)))
    ensures AssembledHeader(hs, job, share, nonce) == None
  {
    AcceptedShareAssembles(hs, job, share, nonce);
  }

  /**
   Such shares exist on the job of every template, for every extranonce of the pool's sizes and every nonce: with the
   template's own time written with a leading zero, or with a time of two digits.  For a proof of work that always
   gives `best` they are accepted, and no header can be assembled for them.
   */
  lemma AcceptedShareWithoutBlock(hs: Hashes, t: Template, part1: Bytes, part2: Bytes, share: Share, nonce: string,
                                  best: Digest)
    requires forall header :: hs.pow(header) == Some(best)
    requires Hex.IsHex(t.prevHash) && |t.prevHash| == 64 && Hex.ParseUint32(t.bits).ok
    requires Hex.IsHex(share.extranonce1) && |share.extranonce1| == 8
    requires Hex.IsHex(share.extranonce2) && |share.extranonce2| == 16
    requires share.version == Hex8(t.version) && Hex.IsHex(nonce) && |nonce| == 8
    requires share.ntime == "0" + Hex8(t.curTime) || share.ntime == "5f"
    ensures var job := JobOf(hs.dsha, t, part1, part2);
      && Meets(hs, job, share, nonce, FromBigEndian(Reverse(best)))
      && AssembledHeader(hs, job, share, nonce) == None
  {
    ShortTimeParses();
    PaddedTimeParses(t.curTime);
    PaddedTimeParses(t.version);
    NonceDecodes(nonce);
    JobPrevHash(hs.dsha, t, part1, part2);
    JobRootExists(hs, t, part1, part2, share);
    ShareOfBest(hs, JobOf(hs.dsha, t, part1, part2), share, nonce, best);
  }

  /** The transaction leaves of the template, in wire byte order. */
  ghost function Leaves(txIds: seq<string>): seq<Bytes> {
    DecodeAll(ReverseAll(txIds))
  }

  /**
   A job made from a template, for every miner's extranonce and nonce: if the share's header parses,
   its previous hash is the template's in wire order, and its Merkle root is the root of the full
   tree over the spliced coinbase and the template's transactions.
   */
  lemma JobHeaderCommitsToTemplate(hs: Hashes, t: Template, part1: Bytes, part2: Bytes, share: Share, nonce: string)
    requires Hex.IsHex(t.prevHash) && |t.prevHash| == 64
    requires Hex.IsHex(share.extranonce1) && Hex.IsHex(share.extranonce2)
    requires HeaderOf(hs, JobOf(hs.dsha, t, part1, part2), share, nonce).Some?
    ensures var header := HeaderOf(hs, JobOf(hs.dsha, t, part1, part2), share, nonce).value;
      var gap := Hex.DecodePrefix(share.extranonce1) + Hex.DecodePrefix(share.extranonce2);
      && header.prevHash == Reverse(Hex.DecodePrefix(t.prevHash))
      && header.merkleRoot == Root(ByteNode(hs.dsha), [hs.dsha(part1 + gap + part2)] + Leaves(t.txIds))
  {
    var job := JobOf(hs.dsha, t, part1, part2);
    JobPrevHash(hs.dsha, t, part1, part2);
    JobCoinbase(hs.dsha, t, part1, part2, share);
    var gap := Hex.DecodePrefix(share.extranonce1) + Hex.DecodePrefix(share.extranonce2);
    MinerRootIsBlockRoot(hs.dsha, hs.dsha(part1 + gap + part2), ReverseAll(t.txIds));
  }

  // ----- The block that is submitted -----

  function Flat(parts: seq<Bytes>): Bytes {
    if parts == [] then [] else parts[0] + Flat(parts[1..])
  }

  /** The transactions of a block are those of the job one after another; text that is no hex prevents the block. */
  lemma {:induction false} ConcatIs(texts: seq<string>)
    ensures ConcatTxs(texts) == if AllHex(texts) then Some(Flat(DecodeAll(texts))) else None
  {
    if texts != [] {
      ConcatIs(texts[1..]);
      assert DecodeAll(texts)[1..] == DecodeAll(texts[1..]);
      assert AllHex(texts) <==> Hex.IsHex(texts[0]) && AllHex(texts[1..]) by {
        assert forall i :: 1 <= i < |texts| ==> texts[i] == texts[1..][i - 1];
      }
    }
  }

  /** An accepted share gives a block if and only if time and bits have eight digits and all transactions decode. */
  lemma AcceptedShareGivesBlockIff(hs: Hashes, job: Job, share: Share, nonce: string)
    requires ManageableTxCount(job) && DigestOf(hs, job, share, nonce).Some?
    ensures BlockOf(hs, job, share, nonce).Some? <==> |share.ntime| == 8 && |job.nbits| == 8 && AllHex(job.rawTxs)
  {
    AcceptedShareAssembles(hs, job, share, nonce);
    ConcatIs(job.rawTxs);
  }

  lemma Hex8Parses(v: uint32)
    ensures Hex.ParseUint32(Hex8(v)) == Hex.Parsed(v, true)
  {
    var b, parsed := LittleEndian(v, 4), Hex.ParseUint32(Hex8(v));
    Hex.ParseMatchesDecode(Hex8(v));
    Hex.EncodeDecode(Reverse(b));
    assert Reverse(Reverse(b)) == b;
    Pow256Values();
    LittleEndianRoundTrip(v, 4);
    LittleEndianRoundTrip(parsed.value, 4);
  }

  lemma SerializedLayout(h: Header, tail: Bytes)
    requires |h.nonce| == 4
    ensures var b := Serialize(h) + tail;
      && |Serialize(h)| == 80 && b[..80] == Serialize(h) && b[80..] == tail
      && b[..4] == LittleEndian(h.version, 4) && b[4..36] == h.prevHash && b[36..68] == h.merkleRoot
      && b[68..72] == LittleEndian(h.time, 4) && b[72..76] == LittleEndian(h.bits, 4) && b[76..80] == h.nonce
  {
  }

  lemma SerializedNumbers(h: Header, tail: Bytes)
    requires |h.nonce| == 4
    ensures var b := Serialize(h) + tail;
      && |b| >= 80 && FromLittleEndian(b[..4]) == h.version
      && FromLittleEndian(b[68..72]) == h.time && FromLittleEndian(b[72..76]) == h.bits
  {
    SerializedLayout(h, tail);
    Pow256Values();
    LittleEndianRoundTrip(h.version, 4);
    LittleEndianRoundTrip(h.time, 4);
    LittleEndianRoundTrip(h.bits, 4);
  }

  /** The bytes of a submitted block are the hashed header, the count, the coinbase and the transactions. */
  lemma SubmittedBytes(hs: Hashes, job: Job, share: Share, nonce: string)
    requires ManageableTxCount(job) && HeaderOf(hs, job, share, nonce).Some? && BlockOf(hs, job, share, nonce).Some?
    ensures Hex.Decode(BlockOf(hs, job, share, nonce).value.blockHex)
         == Some(Serialize(HeaderOf(hs, job, share, nonce).value)
              + (VarInt(1 + |job.rawTxs|) + (Hex.DecodePrefix(CoinbaseText(job, share)) + Flat(DecodeAll(job.rawTxs)))))
  {
    AssembledHeaderIsHashedHeader(hs, job, share, nonce);
    ConcatIs(job.rawTxs);
    var block := Serialize(HeaderOf(hs, job, share, nonce).value)
      + (VarInt(1 + |job.rawTxs|) + (Hex.DecodePrefix(CoinbaseText(job, share)) + Flat(DecodeAll(job.rawTxs))));
    Hex.EncodeDecode(block);
  }

  /** The header of a submitted block: the work was done on it, and its fields are the job's and the share's. */
  lemma SubmittedHeader(hs: Hashes, job: Job, share: Share, nonce: string, target: nat, block: Bytes)
    requires ManageableTxCount(job) && BlockOf(hs, job, share, nonce).Some?
    requires DigestOf(hs, job, share, nonce).Some?
    requires FromLittleEndian(DigestOf(hs, job, share, nonce).value) <= target
    requires Hex.Decode(BlockOf(hs, job, share, nonce).value.blockHex) == Some(block)
    ensures |block| >= 80 && hs.pow(block[..80]).Some? && FromLittleEndian(hs.pow(block[..80]).value) <= target
    ensures FromLittleEndian(block[..4]) == Hex.ParseUint32(share.version).value
    ensures FromLittleEndian(block[68..72]) == Hex.ParseUint32(share.ntime).value
    ensures FromLittleEndian(block[72..76]) == Hex.ParseUint32(job.nbits).value
    ensures block[76..80] == Hex.DecodePrefix(nonce)
    ensures Hex.Decode(BlockOf(hs, job, share, nonce).value.blockHash) == Some(Reverse(hs.dsha(block[..80])))
  {
    var h := HeaderOf(hs, job, share, nonce).value;
    var tail := VarInt(1 + |job.rawTxs|) + (Hex.DecodePrefix(CoinbaseText(job, share)) + Flat(DecodeAll(job.rawTxs)));
    SubmittedBytes(hs, job, share, nonce);
    AssembledHeaderIsHashedHeader(hs, job, share, nonce);
    Hex.EncodeDecode(Reverse(hs.dsha(Serialize(h))));
    SerializedLayout(h, tail);
    SerializedNumbers(h, tail);
  }

  /** What follows the header: the number of transactions, the coinbase, and the template's transactions in order. */
  lemma SubmittedBody(hs: Hashes, t: Template, part1: Bytes, part2: Bytes, share: Share, nonce: string, block: Bytes)
    requires Hex.IsHex(t.prevHash) && |t.prevHash| == 64 && |t.txData| < 0xffff_ffff
    requires Hex.IsHex(share.extranonce1) && Hex.IsHex(share.extranonce2)
    requires var job := JobOf(hs.dsha, t, part1, part2);
      && HeaderOf(hs, job, share, nonce).Some? && BlockOf(hs, job, share, nonce).Some?
      && Hex.Decode(BlockOf(hs, job, share, nonce).value.blockHex) == Some(block)
    ensures var coinbase := part1 + (Hex.DecodePrefix(share.extranonce1) + Hex.DecodePrefix(share.extranonce2)) + part2;
      && |block| >= 80 && block[4..36] == Reverse(Hex.DecodePrefix(t.prevHash))
      && block[36..68] == Root(ByteNode(hs.dsha), [hs.dsha(coinbase)] + Leaves(t.txIds))
      && ReadVarInt(block[80..]) == Read(1 + |t.txData|, coinbase + Flat(DecodeAll(t.txData)))
  {
    var job := JobOf(hs.dsha, t, part1, part2);
    SubmittedBytes(hs, job, share, nonce);
    JobCoinbase(hs.dsha, t, part1, part2, share);
    JobHeaderCommitsToTemplate(hs, t, part1, part2, share, nonce);
    var rest := Hex.DecodePrefix(CoinbaseText(job, share)) + Flat(DecodeAll(t.txData));
    SerializedLayout(HeaderOf(hs, job, share, nonce).value, VarInt(1 + |t.txData|) + rest);
    VarIntRoundTrip(1 + |t.txData|, rest);
  }

  /**
   The whole path, for the pool's own sizes: a share within a target, on a job built from a template, gives a block
   whose bytes carry that work, the template's chain tip, version, time and bits, the root of the full tree, a coinbase
   that pays the wallet, and the template's transactions in order.
   */
  lemma AcceptedShareGivesWellFormedBlock(hs: Hashes, t: Template, spec: Coinbase.Spec, share: Share, nonce: string,
                                          target: nat, block: Bytes)
    requires spec.height >= 1 && spec.value >= 0 && Coinbase.SmallScripts(spec)
    requires spec.extranonceSize == 12 && (|spec.auxCommitment| == 0 || |spec.auxCommitment| == 44)
    requires Hex.IsHex(share.extranonce1) && |share.extranonce1| == 8
    requires Hex.IsHex(share.extranonce2) && |share.extranonce2| == 16
    requires Hex.IsHex(t.prevHash) && |t.prevHash| == 64 && |t.txData| < 0xffff_ffff
    requires var job := JobOf(hs.dsha, t, Coinbase.Part1(spec), Coinbase.Part2(spec));
      && DigestOf(hs, job, share, nonce).Some?
      && FromLittleEndian(DigestOf(hs, job, share, nonce).value) <= target
      && BlockOf(hs, job, share, nonce).Some?
      && Hex.Decode(BlockOf(hs, job, share, nonce).value.blockHex) == Some(block)
    ensures |block| >= 80 && hs.pow(block[..80]).Some? && FromLittleEndian(hs.pow(block[..80]).value) <= target
    ensures var job := JobOf(hs.dsha, t, Coinbase.Part1(spec), Coinbase.Part2(spec));
      && (share.version == job.version ==> FromLittleEndian(block[..4]) == t.version)
      && (share.ntime == job.ntime ==> FromLittleEndian(block[68..72]) == t.curTime)
    ensures FromLittleEndian(block[72..76]) == Hex.ParseUint32(t.bits).value && block[76..80] == Hex.DecodePrefix(nonce)
    ensures var gap := Hex.DecodePrefix(share.extranonce1) + Hex.DecodePrefix(share.extranonce2);
      var coinbase := Coinbase.Part1(spec) + gap + Coinbase.Part2(spec);
      && block[4..36] == Reverse(Hex.DecodePrefix(t.prevHash))
      && block[36..68] == Root(ByteNode(hs.dsha), [hs.dsha(coinbase)] + Leaves(t.txIds))
      && ReadVarInt(block[80..]) == Read(1 + |t.txData|, coinbase + Flat(DecodeAll(t.txData)))
      && Coinbase.ReadTx(coinbase).Some? && Coinbase.ReadTx(coinbase).value.outputs != []
      && (spec.outputScript.Some? ==>
            Coinbase.ReadTx(coinbase).value.outputs[0] == Coinbase.Output(spec.value, spec.outputScript.value))
  {
    var job := JobOf(hs.dsha, t, Coinbase.Part1(spec), Coinbase.Part2(spec));
    Hex8Parses(t.version);
    Hex8Parses(t.curTime);
    SubmittedHeader(hs, job, share, nonce, target, block);
    SubmittedBody(hs, t, Coinbase.Part1(spec), Coinbase.Part2(spec), share, nonce, block);
    PoolCoinbasePays(spec, share);
  }

  lemma PoolCoinbasePays(spec: Coinbase.Spec, share: Share)
    requires spec.height >= 1 && spec.value >= 0 && Coinbase.SmallScripts(spec)
    requires spec.extranonceSize == 12 && (|spec.auxCommitment| == 0 || |spec.auxCommitment| == 44)
    requires Hex.IsHex(share.extranonce1) && |share.extranonce1| == 8
    requires Hex.IsHex(share.extranonce2) && |share.extranonce2| == 16
    ensures var gap := Hex.DecodePrefix(share.extranonce1) + Hex.DecodePrefix(share.extranonce2);
      var tx := Coinbase.ReadTx(Coinbase.Part1(spec) + gap + Coinbase.Part2(spec));
      && tx.Some? && tx.value.outputs != []
      && (spec.outputScript.Some? ==> tx.value.outputs[0] == Coinbase.Output(spec.value, spec.outputScript.value))
  {
    var gap := Hex.DecodePrefix(share.extranonce1) + Hex.DecodePrefix(share.extranonce2);
    Hex.DecodeLength(share.extranonce1);
    Hex.DecodeLength(share.extranonce2);
    Coinbase.PoolScript(spec, gap);
    Coinbase.SplicedCoinbasePaysTheWallet(spec, gap);
  }
}
