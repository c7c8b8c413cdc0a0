/**
 Merged mining: the root of the auxiliary chains' hashes that goes into the parent coinbase,
 and the branch that later proves one chain's membership.  (internal/merge/auxpow.go)
 */
module AuxMerkle {
  import opened Bytes
  import opened Merkle

  const MAGIC: Bytes := [0xfa, 0xbe, 0x6d, 0x6d]
  const NONCE: Bytes := [0, 0, 0, 0]

  datatype AuxWork = AuxWork(hash: Bytes, hashHex: string, chainId: uint32, height: int)

  function DigestNode(dsha: Bytes -> Digest): (Digest, Digest) -> Digest {
    (a: Digest, b: Digest) => dsha(a + b)
  }

  // ----- Root and branch -----

  function AuxRoot(dsha: Bytes -> Digest, hashes: seq<Digest>): Digest {
    if hashes == [] then Zeros(32) else Root(DigestNode(dsha), hashes)
  }

  method ComputeAuxMerkleRoot(dsha: Bytes -> Digest, hashes: seq<Digest>) returns (root: Digest)
    ensures root == AuxRoot(dsha, hashes)
  {
    if |hashes| == 0 {
      return Zeros(32);
    }
    var work := hashes;
    while |work| > 1
      invariant work != [] && Root(DigestNode(dsha), work) == Root(DigestNode(dsha), hashes)
      decreases |work|
    {
      work := CombineRow(DigestNode(dsha), work);
    }
    return work[0];
  }

  /** The node beside `idx`. */
  function Sibling(idx: nat): nat {
    if idx % 2 == 0 then idx + 1 else idx - 1
  }

  function Padded<T>(row: seq<T>): seq<T> {
    if |row| % 2 == 1 then row + [row[|row| - 1]] else row
  }

  /** What one row contributes to the branch of `idx`: nothing if the sibling is out of range. */
  function Contribution<T>(row: seq<T>, idx: nat): seq<T> {
    var padded := Padded(row);
    if Sibling(idx) < |padded| then [padded[Sibling(idx)]] else []
  }

  function BranchAt<T>(h: (T, T) -> T, row: seq<T>, idx: nat): seq<T>
    decreases |row|
  {
    if |row| <= 1 then [] else Contribution(row, idx) + BranchAt(h, Level(h, row), idx / 2)
  }

  method ComputeAuxMerkleBranch(dsha: Bytes -> Digest, hashes: seq<Digest>, chainIndex: nat)
    returns (branch: seq<Digest>, index: nat)
    ensures branch == BranchAt(DigestNode(dsha), hashes, chainIndex)
    ensures index == if |hashes| <= 1 then 0 else chainIndex
  {
    branch := [];
    if |hashes| <= 1 {
      return branch, 0;
    }
    var idx, work := chainIndex, hashes;
    while |work| > 1
      invariant branch + BranchAt(DigestNode(dsha), work, idx) == BranchAt(DigestNode(dsha), hashes, chainIndex)
      decreases |work|
    {
      BranchExtends(DigestNode(dsha), branch, work, idx);
      var padded := if |work| % 2 != 0 then work + [work[|work| - 1]] else work;
      var sibling := Sibling(idx);
      if sibling < |padded| {
        branch := branch + [padded[sibling]];
      }
      work := CombineRow(DigestNode(dsha), work);
      idx := idx / 2;
    }
    index := chainIndex;
  }

  lemma BranchExtends<T>(h: (T, T) -> T, branch: seq<T>, row: seq<T>, idx: nat)
    requires |row| > 1
    ensures branch + BranchAt(h, row, idx)
      == branch + Contribution(row, idx) + BranchAt(h, Level(h, row), idx / 2)
    ensures Contribution(row, idx) == [] ==> branch + Contribution(row, idx) == branch
  {
    var more := BranchAt(h, Level(h, row), idx / 2);
    assert branch + (Contribution(row, idx) + more) == branch + Contribution(row, idx) + more;
  }

  /** The verifier's fold: the low bit of the index says on which side the running hash stands. */
  function FoldAt<T>(h: (T, T) -> T, node: T, branch: seq<T>, idx: nat): T
    decreases |branch|
  {
    if branch == [] then node
    else FoldAt(h, if idx % 2 == 0 then h(node, branch[0]) else h(branch[0], node), branch[1..], idx / 2)
  }

  lemma ParentOf<T>(h: (T, T) -> T, row: seq<T>, idx: nat)
    requires idx < |row| && |row| > 1
    ensures idx / 2 < |Level(h, row)| && |Contribution(row, idx)| == 1
    ensures var sibling := Contribution(row, idx)[0];
      Level(h, row)[idx / 2] == if idx % 2 == 0 then h(row[idx], sibling) else h(sibling, row[idx])
  {
    LevelAt(h, row, idx / 2);
  }

  /** For every row and every member of it, the branch of that member folds to the root of the row. */
  lemma {:induction false} BranchAtFoldsToRoot<T>(h: (T, T) -> T, row: seq<T>, idx: nat)
    requires idx < |row|
    ensures FoldAt(h, row[idx], BranchAt(h, row, idx), idx) == Root(h, row)
    decreases |row|
  {
    if |row| > 1 {
      ParentOf(h, row, idx);
      var up := Level(h, row);
      BranchAtFoldsToRoot(h, up, idx / 2);
      var branch := BranchAt(h, row, idx);
      assert branch[0] == Contribution(row, idx)[0] && branch[1..] == BranchAt(h, up, idx / 2);
    }
  }

  /** The proof is as long as the tree is high. */
  lemma {:induction false} BranchLength<T>(h: (T, T) -> T, row: seq<T>, idx: nat)
    requires idx < |row|
    ensures |BranchAt(h, row, idx)| == Height(|row|)
    decreases |row|
  {
    if |row| > 1 {
      ParentOf(h, row, idx);
      BranchLength(h, Level(h, row), idx / 2);
    }
  }

  // ----- The order of the chains -----

  /** Byte-wise string order, as Go compares strings. */
  predicate Less(a: string, b: string) {
    if b == "" then false
    else if a == "" then true
    else a[0] < b[0] || (a[0] == b[0] && Less(a[1..], b[1..]))
  }

  lemma {:induction false} LessIsTotal(a: string, b: string)
    ensures (a == b && !Less(a, b) && !Less(b, a)) || (a != b && Less(a, b) != Less(b, a))
  {
    if a != "" && b != "" {
      LessIsTotal(a[1..], b[1..]);
      assert a == [a[0]] + a[1..] && b == [b[0]] + b[1..];
    }
  }

  /** The order is that of dictionaries: the first difference decides, and a prefix comes first. */
  lemma {:induction false} LessIsFirstDifference(prefix: string, a: string, b: string)
    ensures Less(prefix + a, prefix + b) <==>
      (if a == "" then b != "" else b != "" && (a[0] < b[0] || (a[0] == b[0] && Less(a[1..], b[1..]))))
  {
    if prefix == "" {
      assert prefix + a == a && prefix + b == b;
    } else {
      LessIsFirstDifference(prefix[1..], a, b);
      assert (prefix + a)[1..] == prefix[1..] + a && (prefix + b)[1..] == prefix[1..] + b;
    }
  }

  lemma {:induction false} LessIsTransitive(a: string, b: string, c: string)
    requires Less(a, b) && Less(b, c)
    ensures Less(a, c)
  {
    if a != "" && a[0] == b[0] == c[0] {
      LessIsTransitive(a[1..], b[1..], c[1..]);
    }
  }

  predicate StrictlySorted(s: seq<string>) {
    forall i, j :: 0 <= i < j < |s| ==> Less(s[i], s[j])
  }

  /** `syms` lists exactly the symbols of `keys`, in order and once each. */
  ghost predicate ListsInOrder(syms: seq<string>, keys: set<string>) {
    && StrictlySorted(syms)
    && |syms| == |keys|
    && forall k :: k in keys <==> k in syms
  }

  method InsertSorted(sym: string, s: seq<string>) returns (r: seq<string>)
    requires StrictlySorted(s) && sym !in s
    ensures StrictlySorted(r) && |r| == |s| + 1
    ensures forall k :: k in r <==> k == sym || k in s
  {
    var i := 0;
    while i < |s| && Less(s[i], sym)
      invariant 0 <= i <= |s|
      invariant forall k :: 0 <= k < i ==> Less(s[k], sym)
    {
      i := i + 1;
    }
    r := s[..i] + [sym] + s[i..];
    forall k | i <= k < |s| ensures Less(sym, s[k]) {
      LessIsTotal(s[i], sym);
      if k > i {
        LessIsTransitive(sym, s[i], s[k]);
      }
    }
    forall k ensures k in r <==> k == sym || k in s {
      assert s == s[..i] + s[i..];
    }
  }

  method SortSymbols(keys: set<string>) returns (syms: seq<string>)
    ensures ListsInOrder(syms, keys)
  {
    syms := [];
    var todo := keys;
    while todo != {}
      invariant todo <= keys && ListsInOrder(syms, keys - todo)
    {
      var sym :| sym in todo;
      var done := keys - todo;
      syms := InsertSorted(sym, syms);
      todo := todo - {sym};
      assert keys - todo == done + {sym};
    }
    assert keys - todo == keys;
  }

  /** The order does not depend on how the set was walked, so every later listing is the same. */
  lemma {:induction false} ListingIsUnique(a: seq<string>, b: seq<string>)
    requires StrictlySorted(a) && StrictlySorted(b)
    requires forall k :: k in a <==> k in b
    ensures a == b
  {
    if b != [] {
      assert b[0] in b;
    }
    if a != [] {
      SameFirst(a, b);
      forall k ensures k in a[1..] <==> k in b[1..] {
        TailMember(a, k);
        TailMember(b, k);
      }
      ListingIsUnique(a[1..], b[1..]);
      assert a == [a[0]] + a[1..] && b == [b[0]] + b[1..];
    }
  }

  lemma SameFirst(a: seq<string>, b: seq<string>)
    requires StrictlySorted(a) && StrictlySorted(b) && a != []
    requires forall k :: k in a <==> k in b
    ensures b != [] && a[0] == b[0]
  {
    assert a[0] in a && a[0] in b;
    assert b[0] in b && b[0] in a;
    FirstIsLeast(a, b[0]);
    FirstIsLeast(b, a[0]);
    LessIsTotal(a[0], b[0]);
  }

  lemma FirstIsLeast(a: seq<string>, k: string)
    requires StrictlySorted(a) && k in a
    ensures a[0] == k || Less(a[0], k)
  {
    var i :| 0 <= i < |a| && a[i] == k;
  }

  lemma TailMember(a: seq<string>, k: string)
    requires StrictlySorted(a) && a != []
    ensures k in a[1..] <==> k in a && k != a[0]
  {
    LessIsTotal(a[0], a[0]);
    if k in a && k != a[0] {
      var i :| 0 <= i < |a| && a[i] == k;
      assert a[1..][i - 1] == k;
    }
  }

  // ----- The commitment -----

  /** Copies at most 32 bytes into a zeroed 32-byte array. */
  function To32(hash: Bytes): Digest {
    if |hash| >= 32 then hash[..32] else hash + Zeros(32 - |hash|)
  }

  function HashesOf(works: map<string, AuxWork>, syms: seq<string>): (hashes: seq<Digest>)
    requires forall i :: 0 <= i < |syms| ==> syms[i] in works
    ensures |hashes| == |syms|
    ensures forall i :: 0 <= i < |syms| ==> hashes[i] == To32(works[syms[i]].hash)
  {
    seq(|syms|, i requires 0 <= i < |syms| => To32(works[syms[i]].hash))
  }

  method BuildCoinbaseCommitment(dsha: Bytes -> Digest, works: map<string, AuxWork>)
    returns (commitment: Bytes, syms: seq<string>)
    ensures ListsInOrder(syms, works.Keys)
    ensures works == map[] ==> commitment == []
    ensures works != map[] ==>
      commitment == MAGIC + AuxRoot(dsha, HashesOf(works, syms)) + LittleEndian(|works|, 4) + NONCE
  {
    if |works| == 0 {
      return [], [];
    }
    syms := SortSymbols(works.Keys);
    var hashes: seq<Digest> := [];
    for i := 0 to |syms|
      invariant hashes == HashesOf(works, syms[..i])
    {
      hashes := hashes + [To32(works[syms[i]].hash)];
    }
    assert syms[..|syms|] == syms;
    var root := ComputeAuxMerkleRoot(dsha, hashes);
    commitment := MAGIC + root + LittleEndian(|works|, 4) + NONCE;
  }

  /** The submitter's search for its chain in the order kept with the job. */
  method FindChain(syms: seq<string>, symbol: string) returns (index: int)
    ensures index == -1 <==> symbol !in syms
    ensures index != -1 ==> 0 <= index < |syms| && syms[index] == symbol && symbol !in syms[..index]
  {
    for i := 0 to |syms|
      invariant symbol !in syms[..i]
    {
      if syms[i] == symbol {
        return i;
      }
    }
    assert syms[..|syms|] == syms;
    return -1;
  }

  /**
   Every chain with work in the job can prove itself: its branch, folded by the bits of its index,
   ends at the root found at bytes 4 to 36 of the commitment in the parent coinbase.
   */
  lemma EveryChainReachesCommitment(dsha: Bytes -> Digest, works: map<string, AuxWork>, syms: seq<string>, k: nat)
    requires ListsInOrder(syms, works.Keys) && k < |syms|
    ensures var hashes := HashesOf(works, syms);
      var branch := BranchAt(DigestNode(dsha), hashes, k);
      var index := if |hashes| <= 1 then 0 else k;
      var commitment := MAGIC + AuxRoot(dsha, hashes) + LittleEndian(|works|, 4) + NONCE;
      && |commitment| == 44
      && FoldAt(DigestNode(dsha), To32(works[syms[k]].hash), branch, index) == commitment[4..36]
  {
    var hashes := HashesOf(works, syms);
    BranchAtFoldsToRoot(DigestNode(dsha), hashes, k);
    RootSitsAfterMagic(AuxRoot(dsha, hashes), LittleEndian(|works|, 4));
  }

  /** One chain's hash is the root itself; of two, the first in order stands on the left. */
  lemma SmallCommitments(dsha: Bytes -> Digest, a: Digest, b: Digest)
    ensures AuxRoot(dsha, [a]) == a && AuxRoot(dsha, [a, b]) == dsha(a + b)
  {
    RootOfTwo(DigestNode(dsha), a, b);
  }

  /** A chain's own hash, cut or filled up with zeros to 32 bytes and folded along its branch, follows the magic. */
  lemma OwnHashReachesCommitment(dsha: Bytes -> Digest, works: map<string, AuxWork>, syms: seq<string>, k: nat,
                                 hash: Digest)
    requires ListsInOrder(syms, works.Keys) && k < |syms| && hash == (works[syms[k]].hash + Zeros(32))[..32]
    ensures var hashes := HashesOf(works, syms);
      var commitment := MAGIC + AuxRoot(dsha, hashes) + LittleEndian(|works|, 4) + NONCE;
      && |commitment| == 44
      && FoldAt(DigestNode(dsha), hash, BranchAt(DigestNode(dsha), hashes, k), if |hashes| <= 1 then 0 else k)
         == commitment[4..36]
  {
    CutOrFilled(works[syms[k]].hash);
    EveryChainReachesCommitment(dsha, works, syms, k);
  }

  lemma CutOrFilled(hash: Bytes)
    ensures To32(hash) == (hash + Zeros(32))[..32]
  {
  }

  lemma CommitmentLayout(root: Digest, size: Bytes)
    requires |size| == 4
    ensures var b := MAGIC + root + size + NONCE;
      |b| == 44 && b[..4] == [0xfa, 0xbe, 0x6d, 0x6d] && b[36..40] == size && b[40..] == [0, 0, 0, 0]
  {
  }

  lemma RootSitsAfterMagic(root: Digest, size: Bytes)
    requires |size| == 4
    ensures |MAGIC + root + size + NONCE| == 44
    ensures (MAGIC + root + size + NONCE)[4..36] == root
  {
  }
}
