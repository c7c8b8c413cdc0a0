/**
 The transaction Merkle tree: the branch a miner needs to place its own coinbase in a tree
 whose coinbase leaf is not known yet, and the fold that recovers the root from it.
 (internal/stratum/server.go, Merkle helpers and the fold of validateShare)
 */
module Merkle {
  import opened Bytes
  import opened Sequences
  import opened Wrappers
  import Hex

  // ----- The tree -----

  /** The next row up; a last node without a partner is paired with itself. */
  function Level<T>(h: (T, T) -> T, row: seq<T>): (up: seq<T>)
    ensures |up| == (|row| + 1) / 2
  {
    if |row| == 0 then []
    else if |row| == 1 then [h(row[0], row[0])]
    else [h(row[0], row[1])] + Level(h, row[2..])
  }

  function Root<T>(h: (T, T) -> T, row: seq<T>): T
    requires row != []
    decreases |row|
  {
    if |row| == 1 then row[0] else Root(h, Level(h, row))
  }

  lemma {:induction false} LevelAt<T>(h: (T, T) -> T, row: seq<T>, p: nat)
    requires 2 * p < |row|
    ensures Level(h, row)[p] == h(row[2 * p], row[if 2 * p + 1 < |row| then 2 * p + 1 else 2 * p])
  {
    if p > 0 {
      LevelAt(h, row[2..], p - 1);
    }
  }

  // The same tree described node by node, from the leaves a node covers instead of row by row.

  function Width(leaves: nat, height: nat): (w: nat)
    ensures leaves > 0 ==> w > 0
  {
    if height == 0 then leaves else (Width(leaves, height - 1) + 1) / 2
  }

  function Node<T>(h: (T, T) -> T, leaves: seq<T>, height: nat, pos: nat): T
    requires pos < Width(|leaves|, height)
  {
    if height == 0 then leaves[pos]
    else
      var left := Node(h, leaves, height - 1, 2 * pos);
      var right := if 2 * pos + 1 < Width(|leaves|, height - 1)
                   then Node(h, leaves, height - 1, 2 * pos + 1) else left;
      h(left, right)
  }

  function Height(leaves: nat): nat
    requires leaves > 0
  {
    if leaves == 1 then 0 else 1 + Height((leaves + 1) / 2)
  }

  lemma {:induction false} WidthOfLevel(n: nat, k: nat)
    ensures Width((n + 1) / 2, k) == Width(n, k + 1)
  {
    if k > 0 {
      WidthOfLevel(n, k - 1);
    }
  }

  lemma {:induction false} NodeOfLevel<T>(h: (T, T) -> T, leaves: seq<T>, k: nat, pos: nat)
    requires pos < Width(|leaves|, k + 1)
    ensures pos < Width(|Level(h, leaves)|, k)
    ensures Node(h, Level(h, leaves), k, pos) == Node(h, leaves, k + 1, pos)
  {
    WidthOfLevel(|leaves|, k);
    if k == 0 {
      LevelAt(h, leaves, pos);
    } else {
      WidthOfLevel(|leaves|, k - 1);
      NodeOfLevel(h, leaves, k - 1, 2 * pos);
      if 2 * pos + 1 < Width(|leaves|, k) {
        NodeOfLevel(h, leaves, k - 1, 2 * pos + 1);
      }
    }
  }

  /** The row-by-row root is the single node at the top of the tree. */
  lemma {:induction false} RootIsTopNode<T>(h: (T, T) -> T, leaves: seq<T>)
    requires leaves != []
    ensures Width(|leaves|, Height(|leaves|)) == 1
    ensures Root(h, leaves) == Node(h, leaves, Height(|leaves|), 0)
    decreases |leaves|
  {
    if |leaves| > 1 {
      RootIsTopNode(h, Level(h, leaves));
      WidthOfLevel(|leaves|, Height(|leaves|) - 1);
      NodeOfLevel(h, leaves, Height(|leaves|) - 1, 0);
    }
  }

  // ----- The branch and its fold -----

  /** The right siblings on the path of a leaf that is still missing at the front of `row`. */
  function Branch<T>(h: (T, T) -> T, row: seq<T>): (b: seq<T>)
    decreases |row|
  {
    if row == [] then [] else [row[0]] + Branch(h, Level(h, row[1..]))
  }

  function Fold<T>(h: (T, T) -> T, leaf: T, branch: seq<T>): T {
    if branch == [] then leaf else Fold(h, h(leaf, branch[0]), branch[1..])
  }

  /** For every number of transactions: folding the branch gives the root of the whole tree. */
  lemma {:induction false} BranchFoldsToRoot<T>(h: (T, T) -> T, leaf: T, row: seq<T>)
    ensures Fold(h, leaf, Branch(h, row)) == Root(h, [leaf] + row)
    decreases |row|
  {
    if row == [] {
      assert [leaf] + row == [leaf];
    } else {
      var up := Level(h, row[1..]);
      BranchFoldsToRoot(h, h(leaf, row[0]), up);
      assert Branch(h, row)[1..] == Branch(h, up);
      assert ([leaf] + row)[2..] == row[1..];
      assert Level(h, [leaf] + row) == [h(leaf, row[0])] + up;
    }
  }

  /** One row combined into the next, with the last node repeated when the row is odd. */
  method CombineRow<T>(h: (T, T) -> T, row: seq<T>) returns (next: seq<T>)
    ensures next == Level(h, row)
  {
    var work := row;
    if |work| % 2 == 1 {
      PadDoesNotMatter(h, row);
      work := work + [work[|work| - 1]];
    }
    next := [];
    ghost var pairs := |work| / 2;
    var i := 0;
    while i < |work|
      invariant 0 <= pairs && i + 2 * pairs == |work|
      invariant next + Level(h, work[i..]) == Level(h, row)
    {
      LevelStep(h, next, work, i);
      next := next + [h(work[i], work[i + 1])];
      i, pairs := i + 2, pairs - 1;
    }
  }

  lemma LevelStep<T>(h: (T, T) -> T, next: seq<T>, work: seq<T>, i: nat)
    requires i + 2 <= |work|
    ensures next + Level(h, work[i..]) == next + [h(work[i], work[i + 1])] + Level(h, work[i + 2..])
  {
  }

  lemma {:induction false} PadDoesNotMatter<T>(h: (T, T) -> T, row: seq<T>)
    requires |row| % 2 == 1
    ensures Level(h, row + [row[|row| - 1]]) == Level(h, row)
  {
    if |row| == 1 {
      var padded := row + [row[0]];
      assert padded[2..] == [];
    } else {
      PadDoesNotMatter(h, row[2..]);
      assert (row + [row[|row| - 1]])[2..] == row[2..] + [row[|row| - 1]];
    }
  }

  // ----- Hashes as hexadecimal text -----

  /** merkleHash on hexadecimal text; decoding errors are ignored by the source. */
  function HexNode(dsha: Bytes -> Digest): (string, string) -> string {
    (a: string, b: string) => Hex.Encode(dsha(Hex.DecodePrefix(a) + Hex.DecodePrefix(b)))
  }

  function ByteNode(dsha: Bytes -> Digest): (Bytes, Bytes) -> Bytes {
    (a: Bytes, b: Bytes) => dsha(a + b)
  }

  function DecodeAll(texts: seq<string>): (r: seq<Bytes>)
    ensures |r| == |texts|
    ensures forall i :: 0 <= i < |texts| ==> r[i] == Hex.DecodePrefix(texts[i])
  {
    seq(|texts|, i requires 0 <= i < |texts| => Hex.DecodePrefix(texts[i]))
  }

  lemma BranchOfOne<T>(h: (T, T) -> T, row: seq<T>)
    requires |row| == 1
    ensures Branch(h, row) == row
  {
    assert Level(h, row[1..]) == [];
    assert [row[0]] + [] == row;
  }

  method BuildMerkleBranch(dsha: Bytes -> Digest, txHashes: seq<string>) returns (branch: seq<string>)
    ensures branch == Branch(HexNode(dsha), txHashes)
  {
    branch := [];
    var hashes := txHashes;
    while |hashes| > 0
      invariant branch + Branch(HexNode(dsha), hashes) == Branch(HexNode(dsha), txHashes)
      decreases |hashes|
    {
      Assoc(branch, [hashes[0]], Branch(HexNode(dsha), Level(HexNode(dsha), hashes[1..])));
      branch := branch + [hashes[0]];
      if |hashes| == 1 {
        BranchOfOne(HexNode(dsha), hashes);
        break;
      }
      hashes := CombineRow(HexNode(dsha), hashes[1..]);
    }
  }

  /** The fold of validateShare over the decoded branch; a malformed element rejects the share. */
  function FoldBranch(dsha: Bytes -> Digest, root: Bytes, branch: seq<string>): Option<Bytes>
    decreases |branch|
  {
    if branch == [] then Some(root)
    else if !Hex.IsHex(branch[0]) then None
    else FoldBranch(dsha, dsha(root + Hex.DecodePrefix(branch[0])), branch[1..])
  }

  method ComputeRoot(dsha: Bytes -> Digest, coinbaseHash: Bytes, branch: seq<string>)
    returns (root: Option<Bytes>)
    ensures root == FoldBranch(dsha, coinbaseHash, branch)
  {
    var merkleRoot := coinbaseHash;
    for i := 0 to |branch|
      invariant FoldBranch(dsha, merkleRoot, branch[i..]) == FoldBranch(dsha, coinbaseHash, branch)
    {
      assert branch[i..][1..] == branch[i + 1..];
      var decoded := Hex.Decode(branch[i]);
      if decoded.None? {
        return None;
      }
      merkleRoot := dsha(merkleRoot + decoded.value);
    }
    return Some(merkleRoot);
  }

  predicate AllHex(texts: seq<string>) {
    forall i :: 0 <= i < |texts| ==> Hex.IsHex(texts[i])
  }

  lemma LevelDecodes(dsha: Bytes -> Digest, row: seq<string>)
    ensures DecodeAll(Level(HexNode(dsha), row)) == Level(ByteNode(dsha), DecodeAll(row))
    ensures AllHex(Level(HexNode(dsha), row))
  {
    var up := Level(HexNode(dsha), row);
    forall p | 0 <= p < |up|
      ensures Hex.IsHex(up[p]) && Hex.DecodePrefix(up[p]) == Level(ByteNode(dsha), DecodeAll(row))[p]
    {
      LevelAt(HexNode(dsha), row, p);
      LevelAt(ByteNode(dsha), DecodeAll(row), p);
      var q := if 2 * p + 1 < |row| then 2 * p + 1 else 2 * p;
      Hex.EncodeDecode(dsha(Hex.DecodePrefix(row[2 * p]) + Hex.DecodePrefix(row[q])));
    }
  }

  lemma {:induction false} BranchDecodes(dsha: Bytes -> Digest, row: seq<string>)
    requires AllHex(row)
    ensures DecodeAll(Branch(HexNode(dsha), row)) == Branch(ByteNode(dsha), DecodeAll(row))
    ensures AllHex(Branch(HexNode(dsha), row))
    decreases |row|
  {
    if row != [] {
      var up := Level(HexNode(dsha), row[1..]);
      LevelDecodes(dsha, row[1..]);
      BranchDecodes(dsha, up);
      var rest := Branch(HexNode(dsha), up);
      DecodeCons(row[0], rest);
      assert DecodeAll(row)[1..] == DecodeAll(row[1..]);
      assert Branch(HexNode(dsha), row) == [row[0]] + rest;
    }
  }

  lemma DecodeCons(first: string, rest: seq<string>)
    requires AllHex(rest) && Hex.IsHex(first)
    ensures DecodeAll([first] + rest) == [Hex.DecodePrefix(first)] + DecodeAll(rest) && AllHex([first] + rest)
  {
  }

  lemma {:induction false} FoldBranchDecodes(dsha: Bytes -> Digest, root: Bytes, branch: seq<string>)
    requires AllHex(branch)
    ensures FoldBranch(dsha, root, branch) == Some(Fold(ByteNode(dsha), root, DecodeAll(branch)))
    decreases |branch|
  {
    if branch != [] {
      FoldBranchDecodes(dsha, dsha(root + Hex.DecodePrefix(branch[0])), branch[1..]);
      assert DecodeAll(branch)[1..] == DecodeAll(branch[1..]);
    }
  }

  lemma RootOfTwo<T>(h: (T, T) -> T, a: T, b: T)
    ensures Root(h, [a, b]) == h(a, b)
  {
    LevelAt(h, [a, b], 0);
    assert Level(h, [a, b]) == [h(a, b)];
  }

  /** The order of the two sides, and what an odd row does: the last of three is paired with itself. */
  lemma RootOfThree<T>(h: (T, T) -> T, a: T, b: T, c: T)
    ensures Root(h, [a, b, c]) == h(h(a, b), h(c, c))
  {
    LevelAt(h, [a, b, c], 0);
    LevelAt(h, [a, b, c], 1);
    assert Level(h, [a, b, c]) == [h(a, b), h(c, c)];
    RootOfTwo(h, h(a, b), h(c, c));
  }

  /** In bytes: what stands on the left is hashed first. */
  lemma SmallTrees(dsha: Bytes -> Digest, coinbase: Bytes, a: Bytes, b: Bytes)
    ensures Root(ByteNode(dsha), [coinbase]) == coinbase
    ensures Root(ByteNode(dsha), [coinbase, a]) == dsha(coinbase + a)
    ensures Root(ByteNode(dsha), [coinbase, a, b]) == dsha(dsha(coinbase + a) + dsha(b + b))
  {
    RootOfTwo(ByteNode(dsha), coinbase, a);
    RootOfThree(ByteNode(dsha), coinbase, a, b);
  }

  /**
   For every transaction list and every coinbase hash: the branch built without the coinbase,
   folded the way a share is validated, gives the Merkle root over coinbase and transactions.
   */
  lemma MinerRootIsBlockRoot(dsha: Bytes -> Digest, coinbaseHash: Bytes, txHashes: seq<string>)
    requires AllHex(txHashes)
    ensures FoldBranch(dsha, coinbaseHash, Branch(HexNode(dsha), txHashes))
      == Some(Root(ByteNode(dsha), [coinbaseHash] + DecodeAll(txHashes)))
  {
    BranchDecodes(dsha, txHashes);
    FoldBranchDecodes(dsha, coinbaseHash, Branch(HexNode(dsha), txHashes));
    BranchFoldsToRoot(ByteNode(dsha), coinbaseHash, DecodeAll(txHashes));
  }
}
