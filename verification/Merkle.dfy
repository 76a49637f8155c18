/** The loops of p2p/core/src/merkle.c, proved against the trees of MerkleSpec. */
module Merkle {
  import opened MerkleSpec

  datatype Status = Ok | BadInput | RangeEmpty | RangeExceeds | BadProof

  const MAX_TREE_PADDED: nat := 128
  const MAX_RANGE_PROOF: nat := 64
  const MAX_DEPTH: nat := 32

  /** Conversion of a size_t to int32_t. */
  function Int32(x: nat): int {
    var low := x % 0x1_0000_0000;
    if low < 0x8000_0000 then low else low - 0x1_0000_0000
  }

  /** The value of the same low 32 bits that a signed word can hold. */
  lemma Int32Wraps(x: nat)
    ensures -0x8000_0000 <= Int32(x) < 0x8000_0000
    ensures (x - Int32(x)) % 0x1_0000_0000 == 0
  {
  }

  lemma Int32Small(x: nat)
    requires x < 0x8000_0000
    ensures Int32(x) == x
  {
  }

  lemma Pow2Values(d: nat)
    ensures Pow2(d) < Pow2(d + 1) && Pow2(7) == 128
  {
  }

  method NextPow2(n: nat) returns (p: nat)
    ensures p == Pow2(Depth(n))
  {
    p := 1;
    ghost var k := 0;
    while p < n
      invariant p == Pow2(k) && (k == 0 || Pow2(k - 1) < n)
      decreases n - p
    {
      p, k := p * 2, k + 1;
    }
    DepthIsLeast(n, k);
  }

  function FloorLog2(n: nat): nat {
    if n <= 1 then 0 else 1 + FloorLog2(n / 2)
  }

  lemma {:induction false} FloorLog2Bounds(n: nat, k: nat)
    requires n > 0
    ensures k == FloorLog2(n) <==> Pow2(k) <= n < Pow2(k + 1)
  {
    if n == 1 {
      assert k > 0 ==> Pow2(k) >= 2;
    } else if k > 0 {
      FloorLog2Bounds(n / 2, k - 1);
    }
  }

  method Log2(n: nat) returns (d: nat)
    ensures d == FloorLog2(n)
  {
    d := 0;
    var m := n;
    while m > 1
      invariant d + FloorLog2(m) == FloorLog2(n)
      decreases m
    {
      m, d := m / 2, d + 1;
    }
  }

  /** A padded width is within Pow2(bound) exactly when the leaves are. */
  lemma FitsExactly(n: nat, bound: nat)
    ensures Pow2(Depth(n)) <= Pow2(bound) <==> n <= Pow2(bound)
    ensures Depth(n) <= bound <==> n <= Pow2(bound)
  {
    var d := Depth(n);
    DepthIsLeast(n, d);
    if d <= bound {
      Pow2Monotonic(d, bound);
    } else {
      Pow2Monotonic(bound, d - 1);
    }
  }

  /** One pass of the root loop: level k+1 in `nxt` from level k in `cur`. */
  method HashPairs(cur: array<Digest>, nxt: array<Digest>, count: nat, ghost leaves: seq<Digest>, ghost k: nat)
    requires cur != nxt && count % 2 == 0 && count <= cur.Length == nxt.Length
    requires forall i: nat | i < count :: cur[i] == NodeAt(leaves, k, i)
    modifies nxt
    ensures forall i: nat | i < count / 2 :: nxt[i] == NodeAt(leaves, k + 1, i)
  {
    var i := 0;
    while i < count
      invariant 0 <= i <= count && i % 2 == 0
      invariant forall j: nat | j < i / 2 :: nxt[j] == NodeAt(leaves, k + 1, j)
    {
      nxt[i / 2] := NodeHash(cur[i], cur[i + 1]);
      i := i + 2;
    }
  }

  /** The leaves in a buffer that is zero behind them: level 0 of the tree. */
  method PaddedCopy(leaves: array<Digest>, n: nat) returns (buffer: array<Digest>)
    requires n <= leaves.Length && n <= MAX_TREE_PADDED
    ensures fresh(buffer) && buffer.Length == MAX_TREE_PADDED
    ensures forall i: nat | i < MAX_TREE_PADDED :: buffer[i] == NodeAt(leaves[..n], 0, i)
  {
    buffer := new Digest[MAX_TREE_PADDED](_ => ZERO);
    for i := 0 to n
      invariant forall j :: 0 <= j < MAX_TREE_PADDED ==> buffer[j] == (if j < i then leaves[j] else ZERO)
    {
      buffer[i] := leaves[i];
    }
  }

  /** The bottom-up root loop with its two swapped buffers. */
  method RootFromLeaves(leaves: array?<Digest>, n: nat) returns (status: Status, root: Digest)
    requires leaves != null ==> n <= leaves.Length
    ensures status == Ok <==> leaves != null && 0 < n <= 128
    ensures status == RangeEmpty <==> leaves != null && n == 0
    ensures status == Ok || status == RangeEmpty || status == BadInput
    ensures status == Ok ==> root == Root(leaves[..n])
  {
    hide Depth;
    root := ZERO;
    if leaves == null {
      return BadInput, root;
    }
    if n == 0 {
      return RangeEmpty, root;
    }
    var padded := NextPow2(n);
    ghost var d := Depth(n);
    DepthIsLeast(n, d);
    FitsExactly(n, 7);
    if padded > MAX_TREE_PADDED {
      return BadInput, root;
    }
    var cur := PaddedCopy(leaves, n);
    var nxt := new Digest[MAX_TREE_PADDED](_ => ZERO);
    ghost var s := leaves[..n];
    var count := padded;
    ghost var k := 0;
    while count > 1
      invariant k <= d && count == Pow2(d - k)
      invariant cur != nxt && fresh(cur) && fresh(nxt) && cur.Length == nxt.Length == MAX_TREE_PADDED
      invariant count <= MAX_TREE_PADDED
      invariant forall i: nat | i < count :: cur[i] == NodeAt(s, k, i)
      decreases count
    {
      HashPairs(cur, nxt, count, s, k);
      count := count / 2;
      k := k + 1;
      cur, nxt := nxt, cur;
    }
    status, root := Ok, cur[0];
  }

  /** The leaf hash as the C code feeds it to SHA-256: the prefix first, then the data. */
  method HashLeaf(data: array?<nat>, len: nat) returns (status: Status, leaf: Digest)
    requires data != null ==> len <= data.Length
    ensures status == if data == null then BadInput else Ok
    ensures data != null ==> leaf == LeafHash(data[..len]) == Sha256(Octet(0x00, Octets(data[..len])))
  {
    leaf := ZERO;
    if data == null {
      return BadInput, leaf;
    }
    var fed: seq<nat> := [];
    fed := fed + [0x00];
    fed := fed + data[..len];
    assert fed[1..] == data[..len];
    return Ok, Sha256(Octets(fed));
  }

  /** The hash of a pair of nodes: the prefix, then the left and the right half; the single-leaf verifier's has none. */
  lemma NodeInput(left: Digest, right: Digest)
    ensures NodeHash(left, right).preimage.value == 0x01
    ensures NodeHash(left, right).preimage.next.digest == left
    ensures NodeHash(left, right).preimage.next.next.digest == right
    ensures NodeHash(left, right).preimage.next.next.next == End
    ensures PlainPairHash(left, right).preimage.digest == left
    ensures PlainPairHash(left, right).preimage.next.digest == right
    ensures PlainPairHash(left, right).preimage.next.next == End
  {
  }

  // ---------------------------------------------------------------- range proofs

  /** The contents of a proof structure, arrays at their full length. */
  datatype ProofData = ProofData(n: int, leafCount: int, siblingCount: int,
                                 leaves: seq<Digest>, siblings: seq<Digest>)

  class RangeProof {
    const leaves: array<Digest>
    const siblings: array<Digest>
    var n: int
    var leafCount: int
    var siblingCount: int

    ghost predicate Valid() {
      leaves != siblings && leaves.Length == MAX_RANGE_PROOF && siblings.Length == MAX_DEPTH
    }

    ghost function View(): ProofData
      reads this, leaves, siblings
    {
      ProofData(n, leafCount, siblingCount, leaves[..], siblings[..])
    }
  }

  function ZeroFilled(s: seq<Digest>, length: nat): seq<Digest> {
    seq(length, i requires 0 <= i => if i < |s| then s[i] else ZERO)
  }

  /** What a proof of leaves[start..end] consists of. */
  function HonestProof(leaves: seq<Digest>, start: nat, end: nat): ProofData
    requires start <= end <= |leaves|
  {
    var siblings := Siblings(leaves, 0, start, end, Depth(|leaves|));
    ProofData(|leaves|, end - start, |siblings|,
              ZeroFilled(leaves[start..end], MAX_RANGE_PROOF), ZeroFilled(siblings, MAX_DEPTH))
  }

  /** First node of level k in an array that stores all levels of a tree one after the other. */
  function LevelOffset(d: nat, k: nat): nat
    requires k <= d
  {
    if k == 0 then 0 else LevelOffset(d, k - 1) + Pow2(d - (k - 1))
  }

  lemma {:induction false} LevelOffsetClosed(d: nat, k: nat)
    requires k <= d
    ensures LevelOffset(d, k) + 2 * Pow2(d - k) == 2 * Pow2(d)
  {
    if k > 0 {
      LevelOffsetClosed(d, k - 1);
    }
  }

  lemma {:induction false} LevelOffsetsGrow(d: nat, j: nat, k: nat)
    requires j < k <= d
    ensures LevelOffset(d, j) + Pow2(d - j) <= LevelOffset(d, k)
    decreases k
  {
    if j < k - 1 {
      LevelOffsetsGrow(d, j, k - 1);
    }
  }

  /** Level k of the tree of depth d is stored from position `at` on. */
  ghost predicate Stored(tree: seq<Digest>, leaves: seq<Digest>, d: nat, k: nat, at: nat) {
    k <= d && at + Pow2(d - k) <= |tree|
    && forall i: nat | i < Pow2(d - k) :: tree[at + i] == NodeAt(leaves, k, i)
  }

  ghost predicate Offsets(offsets: seq<nat>, d: nat, count: nat) {
    count <= |offsets| && count <= d + 1 && forall k: nat {:trigger offsets[k]} | k < count :: offsets[k] == LevelOffset(d, k)
  }

  /** All levels of the tree of depth d, each at its offset. */
  ghost predicate Tree(tree: seq<Digest>, offsets: seq<nat>, leaves: seq<Digest>, d: nat) {
    && Offsets(offsets, d, d + 1)
    && forall k: nat {:trigger offsets[k]} | k <= d :: Stored(tree, leaves, d, k, LevelOffset(d, k))
  }

  lemma TreeNode(tree: seq<Digest>, offsets: seq<nat>, leaves: seq<Digest>, d: nat, k: nat, i: nat)
    requires Tree(tree, offsets, leaves, d) && k <= d && i < Pow2(d - k)
    ensures offsets[k] + i < |tree| && tree[offsets[k] + i] == NodeAt(leaves, k, i)
  {
    assert Stored(tree, leaves, d, k, offsets[k]);
  }

  /** proof->siblings[count] = x, the step behind `siblings[sib_idx++] = x`. */
  method PushSibling(siblings: array<Digest>, count: nat, x: Digest, ghost emitted: seq<Digest>)
    requires siblings[..] == ZeroFilled(emitted, MAX_DEPTH) && count == |emitted| < MAX_DEPTH
    modifies siblings
    ensures siblings[..] == ZeroFilled(emitted + [x], MAX_DEPTH)
  {
    siblings[count] := x;
  }

  /** One pass of the tree loop: level k+1 from level k. */
  method BuildLevel(tree: array<Digest>, ghost leaves: seq<Digest>, ghost d: nat, ghost k: nat,
                    count: nat, at: nat, up: nat)
    requires k < d && count == Pow2(d - k)
    requires Stored(tree[..], leaves, d, k, at) && at + count <= up && up + count / 2 <= tree.Length
    modifies tree
    ensures Stored(tree[..], leaves, d, k + 1, up)
    ensures tree[..up] == old(tree[..up])
  {
    ghost var k1, below := k + 1, tree[..up];
    assert forall i: nat | i < count :: below[at + i] == tree[..][at + i] == NodeAt(leaves, k, i);
    var i := 0;
    while i < count
      invariant 0 <= i <= count && i % 2 == 0
      invariant tree[..up] == below
      invariant forall j: nat | j < i / 2 :: tree[up + j] == NodeAt(leaves, k1, j)
    {
      var parent := up + i / 2;
      assert tree[at + i] == below[at + i] == NodeAt(leaves, k, i);
      assert tree[at + (i + 1)] == below[at + (i + 1)] == NodeAt(leaves, k, i + 1);
      assert NodeAt(leaves, k1, i / 2) == NodeHash(NodeAt(leaves, k, i), NodeAt(leaves, k, i + 1));
      tree[parent] := NodeHash(tree[at + i], tree[at + i + 1]);
      i := i + 2;
    }
  }

  /** Generator of the proof that leaves[start..end] sit at start..end of the tree over n leaves. */
  method ProveRange(leaves: array?<Digest>, n: nat, start: nat, end: nat, proof: RangeProof?) returns (status: Status)
    requires leaves != null ==> n <= leaves.Length
    requires proof != null ==> proof.Valid() && proof.leaves != leaves && proof.siblings != leaves
    modifies proof, if proof != null then {proof.leaves, proof.siblings} else {}
    ensures status == Ok <==> leaves != null && proof != null && start < end <= n <= 128
                              && end - start <= 64
    ensures status == RangeEmpty <==> leaves != null && proof != null && (n == 0 || start >= end)
    ensures status == RangeExceeds <==> leaves != null && proof != null && 0 < n && start < end
                                        && (end > n || Int32(end - start) > 64)
    ensures status != BadProof
    ensures proof != null ==>
              proof.View() == if status == Ok then HonestProof(leaves[..n], start, end) else old(proof.View())
  {
    hide HonestProof, Tree, Depth, FloorLog2, Pow2;
    if leaves == null || proof == null {
      return BadInput;
    }
    if n == 0 {
      return RangeEmpty;
    }
    if start >= end {
      return RangeEmpty;
    }
    if end > n {
      return RangeExceeds;
    }
    if Int32(end - start) > MAX_RANGE_PROOF {
      return RangeExceeds;
    }
    var padded := NextPow2(n);
    ghost var d := Depth(n);
    DepthIsLeast(n, d);
    FitsExactly(n, 7);
    Pow2Values(d);
    if padded > MAX_TREE_PADDED {
      return BadInput;
    }
    var depth := Log2(padded);
    FloorLog2Bounds(padded, d);
    var offsets, tree := BuildTree(leaves, n, padded, depth);
    EmitProof(leaves[..n], n, start, end, padded, depth, offsets[..], tree[..], proof);
    status := Ok;
  }

  lemma FirstOffset(offsets: seq<nat>, d: nat)
    requires |offsets| > 0 && offsets[0] == 0
    ensures Offsets(offsets, d, 1)
  {
  }

  lemma OneMoreOffset(before: seq<nat>, after: seq<nat>, d: nat, k: nat)
    requires 0 < k <= d && k < |before| && Offsets(before, d, k)
    requires after == before[k := before[k - 1] + Pow2(d - (k - 1))]
    ensures Offsets(after, d, k + 1)
  {
    hide Pow2;
    assert before[k - 1] == LevelOffset(d, k - 1);
    assert forall j: nat | j < k :: after[j] == before[j];
  }

  method LevelOffsets(padded: nat, depth: nat) returns (offsets: array<nat>)
    requires depth <= 7 && padded == Pow2(depth)
    ensures fresh(offsets) && offsets.Length == 8
    ensures Offsets(offsets[..], depth, depth + 1)
  {
    hide Offsets, Pow2, ShiftRight, LevelOffset;
    offsets := new nat[8](_ => 0);
    FirstOffset(offsets[..], depth);
    for k := 1 to depth + 1
      invariant Offsets(offsets[..], depth, k)
    {
      ShiftPow2(depth, k - 1);
      ghost var before := offsets[..];
      offsets[k] := offsets[k - 1] + ShiftRight(padded, k - 1);
      OneMoreOffset(before, offsets[..], depth, k);
    }
  }

  method BuildTree(leaves: array<Digest>, n: nat, padded: nat, depth: nat) returns (offsets: array<nat>, tree: array<Digest>)
    requires 0 < n <= leaves.Length
    requires depth == Depth(n) <= 7 && padded == Pow2(depth)
    ensures fresh(offsets) && fresh(tree) && offsets.Length == 8
    ensures Tree(tree[..], offsets[..], leaves[..n], depth)
  {
    offsets := LevelOffsets(padded, depth);
    Pow2Monotonic(depth, 7);
    DepthIsLeast(n, depth);
    tree := new Digest[2 * MAX_TREE_PADDED](_ => ZERO);
    for i := 0 to n
      modifies tree
      invariant forall j | 0 <= j < tree.Length :: tree[j] == (if j < i then leaves[j] else ZERO)
    {
      tree[i] := leaves[i];
    }
    BuildLevels(tree, leaves[..n], padded, depth, offsets);
  }

  /** Levels 0 to k are stored, each at its offset. */
  ghost predicate StoredUpTo(tree: seq<Digest>, leaves: seq<Digest>, d: nat, k: nat) {
    k <= d && forall j: nat | j <= k :: Stored(tree, leaves, d, j, LevelOffset(d, j))
  }

  lemma OneMoreLevel(before: seq<Digest>, after: seq<Digest>, leaves: seq<Digest>, d: nat, k: nat)
    requires k < d && StoredUpTo(before, leaves, d, k) && |before| == |after|
    requires Stored(after, leaves, d, k + 1, LevelOffset(d, k + 1)) && LevelOffset(d, k + 1) <= |before|
    requires before[..LevelOffset(d, k + 1)] == after[..LevelOffset(d, k + 1)]
    ensures StoredUpTo(after, leaves, d, k + 1)
  {
    hide Stored, LevelOffset, Pow2;
    forall j: nat | j <= k + 1 ensures Stored(after, leaves, d, j, LevelOffset(d, j)) {
      if j <= k {
        LevelOffsetsGrow(d, j, k + 1);
        StoredBelow(before, after, leaves, d, j, LevelOffset(d, j), LevelOffset(d, k + 1));
      }
    }
  }

  lemma AllLevelsStored(tree: seq<Digest>, offsets: seq<nat>, leaves: seq<Digest>, d: nat)
    requires StoredUpTo(tree, leaves, d, d) && Offsets(offsets, d, d + 1)
    ensures Tree(tree, offsets, leaves, d)
  {
    hide Stored, LevelOffset;
  }

  lemma LevelFits(d: nat, k: nat)
    requires k < d <= 7
    ensures LevelOffset(d, k + 1) == LevelOffset(d, k) + Pow2(d - k)
    ensures LevelOffset(d, k + 1) + Pow2(d - k) / 2 <= 2 * MAX_TREE_PADDED
  {
    LevelOffsetClosed(d, k + 1);
    Pow2Monotonic(d, 7);
  }

  method BuildLevels(tree: array<Digest>, ghost leaves: seq<Digest>, padded: nat, depth: nat, offsets: array<nat>)
    requires depth <= 7 && padded == Pow2(depth) && offsets.Length == 8 && tree.Length == 2 * MAX_TREE_PADDED
    requires Offsets(offsets[..], depth, depth + 1)
    requires Stored(tree[..], leaves, depth, 0, 0)
    modifies tree
    ensures Tree(tree[..], offsets[..], leaves, depth)
    ensures offsets[..] == old(offsets[..])
  {
    ghost var starts := offsets[..];
    assert StoredUpTo(tree[..], leaves, depth, 0) by {
      hide Stored;
    }
    hide Stored, StoredUpTo, LevelOffset, Pow2, ShiftRight, Tree;
    for k := 0 to depth
      invariant StoredUpTo(tree[..], leaves, depth, k)
      invariant offsets[..] == starts
    {
      ShiftPow2(depth, k);
      LevelFits(depth, k);
      LevelStored(tree[..], leaves, depth, k);
      assert starts[k] == LevelOffset(depth, k) && starts[k + 1] == LevelOffset(depth, k + 1);
      ghost var before := tree[..];
      BuildLevel(tree, leaves, depth, k, ShiftRight(padded, k), offsets[k], offsets[k + 1]);
      OneMoreLevel(before, tree[..], leaves, depth, k);
    }
    AllLevelsStored(tree[..], starts, leaves, depth);
  }

  lemma LevelStored(tree: seq<Digest>, leaves: seq<Digest>, d: nat, k: nat)
    requires StoredUpTo(tree, leaves, d, k)
    ensures Stored(tree, leaves, d, k, LevelOffset(d, k))
  {
    hide Stored, LevelOffset;
  }

  lemma StoredBelow(before: seq<Digest>, after: seq<Digest>, leaves: seq<Digest>, d: nat, k: nat, at: nat, limit: nat)
    requires Stored(before, leaves, d, k, at) && at + Pow2(d - k) <= limit <= |before| == |after|
    requires before[..limit] == after[..limit]
    ensures Stored(after, leaves, d, k, at)
  {
    forall i: nat | i < Pow2(d - k) ensures after[at + i] == NodeAt(leaves, k, i) {
      assert after[at + i] == after[..limit][at + i] == before[..limit][at + i];
    }
  }

  method ClearProof(proof: RangeProof)
    requires proof.Valid()
    modifies proof.leaves, proof.siblings
    ensures proof.leaves[..] == ZeroFilled([], MAX_RANGE_PROOF) && proof.siblings[..] == ZeroFilled([], MAX_DEPTH)
  {
    forall i | 0 <= i < MAX_RANGE_PROOF {
      proof.leaves[i] := ZERO;
    }
    forall i | 0 <= i < MAX_DEPTH {
      proof.siblings[i] := ZERO;
    }
  }

  /** Copies the proved leaves out of the finished tree. */
  method CopyLeaves(ghost leaves: seq<Digest>, start: nat, end: nat, ghost depth: nat,
                    ghost offsets: seq<nat>, tree: seq<Digest>, target: array<Digest>)
    requires start < end <= |leaves| <= Pow2(depth) && end - start <= MAX_RANGE_PROOF == target.Length
    requires Tree(tree, offsets, leaves, depth) && target[..] == ZeroFilled([], MAX_RANGE_PROOF)
    modifies target
    ensures target[..] == ZeroFilled(leaves[start..end], MAX_RANGE_PROOF)
  {
    hide Tree;
    for i := start to end
      invariant forall j | 0 <= j < MAX_RANGE_PROOF :: target[j] == (if j < i - start then leaves[start + j] else ZERO)
    {
      LeafInTree(tree, offsets, leaves, depth, i);
      target[i - start] := tree[i];
    }
  }

  lemma LeafInTree(tree: seq<Digest>, offsets: seq<nat>, leaves: seq<Digest>, depth: nat, i: nat)
    requires Tree(tree, offsets, leaves, depth) && i < |leaves| <= Pow2(depth)
    ensures i < |tree| && tree[i] == leaves[i]
  {
    TreeNode(tree, offsets, leaves, depth, 0, i);
  }

  /** Clears the proof, copies the proved leaves and walks the window up the finished tree. */
  method EmitProof(ghost leaves: seq<Digest>, n: nat, start: nat, end: nat, padded: nat, depth: nat,
                   offsets: seq<nat>, tree: seq<Digest>, proof: RangeProof)
    requires start < end <= n == |leaves| && end - start <= MAX_RANGE_PROOF && proof.Valid()
    requires depth == Depth(|leaves|) <= 7 && padded == Pow2(depth) && Tree(tree, offsets, leaves, depth)
    modifies proof, proof.leaves, proof.siblings
    ensures proof.View() == HonestProof(leaves, start, end)
  {
    DepthIsLeast(|leaves|, depth);
    hide Tree, ZeroFilled, Siblings, Depth;
    ClearProof(proof);
    proof.n, proof.leafCount := n, end - start;
    CopyLeaves(leaves, start, end, depth, offsets, tree, proof.leaves);
    var count := EmitSiblings(leaves, start, end, padded, depth, offsets, tree, proof.siblings);
    proof.siblingCount := count;
  }

  method EmitSiblings(ghost leaves: seq<Digest>, start: nat, end: nat, padded: nat, depth: nat,
                      offsets: seq<nat>, tree: seq<Digest>, siblings: array<Digest>) returns (count: nat)
    requires start < end <= padded == Pow2(depth) && depth <= 7 && Tree(tree, offsets, leaves, depth)
    requires siblings[..] == ZeroFilled([], MAX_DEPTH)
    modifies siblings
    ensures count == |Siblings(leaves, 0, start, end, depth)|
    ensures siblings[..] == ZeroFilled(Siblings(leaves, 0, start, end, depth), MAX_DEPTH)
  {
    hide NodeAt, EndSiblings, Siblings, Tree, ZeroFilled;
    ghost var all := Siblings(leaves, 0, start, end, depth);
    ghost var emitted: seq<Digest> := [];
    var s: nat, e: nat := start, end;
    count := 0;
    assert all == [] + all;
    for k := 0 to depth
      invariant k <= depth && s < e <= Pow2(depth - k)
      invariant count == |emitted| <= 2 * k
      invariant siblings[..] == ZeroFilled(emitted, MAX_DEPTH)
      invariant all == emitted + Siblings(leaves, k, s, e, depth - k)
    {
      ShiftPow2(depth, k);
      ghost var here := EndSiblings(leaves, k, s, e);
      count := EmitLevel(leaves, s, e, k, depth, ShiftRight(padded, k), offsets, tree, siblings, count, emitted);
      SiblingsStep(all, emitted, leaves, k, s, e, depth - k);
      emitted := emitted + here;
      s, e := s / 2, (e + 1) / 2;
    }
    NoSiblings(leaves, depth, s, e);
    assert all == emitted;
  }

  lemma SiblingsStep(all: seq<Digest>, emitted: seq<Digest>, leaves: seq<Digest>, k: nat, s: nat, e: nat, levels: nat)
    requires levels > 0 && all == emitted + Siblings(leaves, k, s, e, levels)
    ensures all == emitted + EndSiblings(leaves, k, s, e) + Siblings(leaves, k + 1, s / 2, (e + 1) / 2, levels - 1)
  {
    hide EndSiblings;
  }

  lemma NoSiblings(leaves: seq<Digest>, k: nat, s: nat, e: nat)
    ensures Siblings(leaves, k, s, e, 0) == []
  {
  }

  method EmitLevel(ghost leaves: seq<Digest>, s: nat, e: nat, k: nat, ghost depth: nat, levelN: nat,
                   offsets: seq<nat>, tree: seq<Digest>, siblings: array<Digest>, count: nat,
                   ghost emitted: seq<Digest>) returns (count': nat)
    requires k < depth && levelN == Pow2(depth - k) && s < e <= levelN && Tree(tree, offsets, leaves, depth)
    requires siblings[..] == ZeroFilled(emitted, MAX_DEPTH) && count == |emitted| < MAX_DEPTH - 1
    modifies siblings
    ensures count' == count + s % 2 + e % 2
    ensures siblings[..] == ZeroFilled(emitted + EndSiblings(leaves, k, s, e), MAX_DEPTH)
  {
    count' := count;
    ghost var left: seq<Digest> := [];
    if s % 2 == 1 {
      TreeNode(tree, offsets, leaves, depth, k, s - 1);
      PushSibling(siblings, count', tree[offsets[k] + s - 1], emitted);
      left := [NodeAt(leaves, k, s - 1)];
      count' := count' + 1;
    }
    assert emitted + left + [NodeAt(leaves, k, e)] == emitted + (left + [NodeAt(leaves, k, e)]);
    if e % 2 == 1 && e < levelN {
      TreeNode(tree, offsets, leaves, depth, k, e);
      PushSibling(siblings, count', tree[offsets[k] + e], emitted + left);
      count' := count' + 1;
    }
    assert emitted + left == emitted + (left + []);
  }

  // ---------------------------------------------------------------- the range verifier

  /** The outcome of a verification: the range checks in order, then the rebuilt root. */
  function Verdict(root: Digest, proof: ProofData, start: nat, end: nat): Status {
    if proof.n <= 0 || start >= end then RangeEmpty
    else if end > proof.n then RangeExceeds
    else if proof.leafCount != Int32(end - start) || end - start > |proof.leaves| then BadProof
    else if Climb(proof.leaves[..end - start], start, Depth(proof.n), proof.siblings, 0).nodes == [root] then Ok
    else BadProof
  }

  /** One pass of the verifier's loop: the nodes of the next level over the window. */
  method ClimbLevel(levelNodes: array<Digest>, nextNodes: array<Digest>, levelCount: nat, s: nat,
                    siblings: seq<Digest>, siblingIdx: nat) returns (nextCount: nat, nextIdx: nat)
    requires levelNodes != nextNodes && 0 < levelCount <= MAX_RANGE_PROOF
    requires levelNodes.Length == nextNodes.Length == MAX_TREE_PADDED
    requires siblingIdx + s % 2 + (s + levelCount) % 2 <= |siblings|
    modifies nextNodes
    ensures nextCount <= MAX_TREE_PADDED
    ensures nextNodes[..nextCount]
            == ParentLevel(levelNodes[..levelCount], s, SiblingAt(siblings, siblingIdx), SiblingAt(siblings, siblingIdx + s % 2))
    ensures nextIdx == siblingIdx + s % 2 + (s + levelCount) % 2
  {
    hide ParentAt, ParentLevel, SiblingAt, NodeHash;
    ghost var left, right := SiblingAt(siblings, siblingIdx), SiblingAt(siblings, siblingIdx + s % 2);
    ghost var nodes := levelNodes[..levelCount];
    ghost var want := ParentLevel(nodes, s, left, right);
    nextCount, nextIdx := 0, siblingIdx;
    var i := 0;
    if s % 2 == 1 {
      ParentEntry(nodes, s, left, right, -1, 0);
      assert left == siblings[nextIdx] by {
        SiblingInside(siblings, nextIdx);
      }
      nextNodes[nextCount] := NodeHash(siblings[nextIdx], levelNodes[0]);
      nextIdx := nextIdx + 1;
      nextCount := nextCount + 1;
      i := 1;
    }
    while i + 1 < levelCount
      invariant i <= levelCount && s + i == 2 * (s / 2 + nextCount)
      invariant levelNodes[..levelCount] == nodes
      invariant nextCount <= |want| && nextNodes[..nextCount] == want[..nextCount]
    {
      ParentEntry(nodes, s, left, right, i, nextCount);
      nextNodes[nextCount] := NodeHash(levelNodes[i], levelNodes[i + 1]);
      nextCount := nextCount + 1;
      i := i + 2;
    }
    if i < levelCount {
      ParentEntry(nodes, s, left, right, i, nextCount);
      assert right == siblings[nextIdx] by {
        SiblingInside(siblings, nextIdx);
      }
      nextNodes[nextCount] := NodeHash(levelNodes[i], siblings[nextIdx]);
      nextIdx := nextIdx + 1;
      nextCount := nextCount + 1;
    }
  }

  /** The parent whose left child is at position i of the window, or just before it. */
  lemma ParentEntry(nodes: seq<Digest>, s: nat, left: Digest, right: Digest, i: int, j: nat)
    requires -1 <= i < |nodes| && nodes != [] && s + i == 2 * (s / 2 + j)
    ensures j < |ParentLevel(nodes, s, left, right)|
    ensures ParentLevel(nodes, s, left, right)[j]
            == NodeHash(if i < 0 then left else nodes[i], if i + 1 < |nodes| then nodes[i + 1] else right)
  {
    hide NodeHash;
    assert ParentLevel(nodes, s, left, right)[j] == ParentAt(nodes, s, left, right, s / 2 + j);
  }

  lemma SiblingInside(siblings: seq<Digest>, i: nat)
    requires i < |siblings|
    ensures SiblingAt(siblings, i) == siblings[i]
  {
  }

  /** The climb that the given proof calls for reads no sibling beyond the array of siblings. */
  ghost predicate InBounds(proof: ProofData, start: nat, end: nat)
    requires proof.leafCount <= MAX_RANGE_PROOF == |proof.leaves|
  {
    0 < proof.n && start < end <= proof.n && end - start == proof.leafCount
    ==> Climb(proof.leaves[..end - start], start, Depth(proof.n), proof.siblings, 0).used <= MAX_DEPTH
  }

  /** The verifier. The caller vouches for what the C code does not check: that the arrays are long enough
      for leafCount and for the siblings of a tree over proof.n leaves. */
  method VerifyRange(root: Digest, proof: RangeProof?, start: nat, end: nat) returns (code: Status, result: Status)
    requires proof != null ==> proof.Valid() && proof.n < 0x8000_0000 && proof.leafCount <= MAX_RANGE_PROOF
    requires proof != null ==> InBounds(proof.View(), start, end)
    ensures code == if proof == null then BadInput else Ok
    ensures proof != null ==> result == Verdict(root, proof.View(), start, end)
  {
    result := BadProof;
    if proof == null {
      return BadInput, result;
    }
    if proof.n <= 0 {
      return Ok, RangeEmpty;
    }
    if start >= end {
      return Ok, RangeEmpty;
    }
    if end > proof.n {
      return Ok, RangeExceeds;
    }
    if proof.leafCount != Int32(end - start) {
      return Ok, BadProof;
    }
    var padded := NextPow2(proof.n);
    var depth := Log2(padded);
    FloorLog2Bounds(padded, Depth(proof.n));
    DepthIsLeast(proof.n, Depth(proof.n));
    Int32Small(end - start);
    var ok := RebuildMatches(root, proof.leaves[..end - start], proof.siblings[..], start, end, depth);
    code, result := Ok, if ok then Ok else BadProof;
  }

  /** What the verdicts other than a match of the roots mean. */
  lemma VerdictCodes(root: Digest, proof: ProofData, start: nat, end: nat)
    ensures Verdict(root, proof, start, end) == RangeEmpty <==> proof.n <= 0 || start >= end
    ensures Verdict(root, proof, start, end) == RangeExceeds <==> 0 < proof.n < end && start < end
    ensures start < end <= proof.n && proof.leafCount != Int32(end - start) ==> Verdict(root, proof, start, end) == BadProof
    ensures Verdict(root, proof, start, end) != BadInput
  {
    hide Climb, Int32;
  }

  lemma ClimbStep(nodes: seq<Digest>, s: nat, depth: nat, siblings: seq<Digest>, used: nat)
    requires depth > 0
    ensures Climb(nodes, s, depth, siblings, used)
            == Climb(ParentLevel(nodes, s, SiblingAt(siblings, used), SiblingAt(siblings, used + s % 2)),
                     s / 2, depth - 1, siblings, used + s % 2 + (s + |nodes|) % 2)
  {
  }

  lemma {:induction false} ClimbReadsOn(nodes: seq<Digest>, s: nat, depth: nat, siblings: seq<Digest>, used: nat)
    ensures Climb(nodes, s, depth, siblings, used).used >= used
    decreases depth
  {
    if depth > 0 {
      ClimbStep(nodes, s, depth, siblings, used);
      ClimbReadsOn(ParentLevel(nodes, s, SiblingAt(siblings, used), SiblingAt(siblings, used + s % 2)),
                   s / 2, depth - 1, siblings, used + s % 2 + (s + |nodes|) % 2);
    }
  }

  lemma ClimbDone(nodes: seq<Digest>, s: nat, siblings: seq<Digest>, used: nat)
    ensures Climb(nodes, s, 0, siblings, used).nodes == nodes
  {
  }

  method RebuildMatches(root: Digest, leaves: seq<Digest>, siblings: seq<Digest>, start: nat, end: nat, depth: nat)
    returns (ok: bool)
    requires 0 < |leaves| == end - start <= MAX_RANGE_PROOF && end <= Pow2(depth)
    requires Climb(leaves, start, depth, siblings, 0).used <= |siblings|
    ensures ok <==> Climb(leaves, start, depth, siblings, 0).nodes == [root]
  {
    hide Climb, ParentLevel, SiblingAt;
    ghost var final := Climb(leaves, start, depth, siblings, 0);
    var levelNodes := new Digest[MAX_TREE_PADDED](_ => ZERO);
    var nextNodes := new Digest[MAX_TREE_PADDED](_ => ZERO);
    var levelCount := end - start;
    for i := 0 to levelCount
      modifies levelNodes
      invariant levelNodes[..i] == leaves[..i]
    {
      levelNodes[i] := leaves[i];
    }
    var siblingIdx: nat, s: nat, e: nat := 0, start, end;
    assert levelNodes[..levelCount] == leaves;
    for k := 0 to depth
      invariant s < e == s + levelCount <= Pow2(depth - k) && levelCount <= MAX_RANGE_PROOF
      invariant final == Climb(levelNodes[..levelCount], s, depth - k, siblings, siblingIdx)
    {
      ClimbStep(levelNodes[..levelCount], s, depth - k, siblings, siblingIdx);
      ClimbReadsOn(ParentLevel(levelNodes[..levelCount], s, SiblingAt(siblings, siblingIdx), SiblingAt(siblings, siblingIdx + s % 2)),
                   s / 2, depth - k - 1, siblings, siblingIdx + s % 2 + (s + levelCount) % 2);
      var nextCount, nextIdx := ClimbLevel(levelNodes, nextNodes, levelCount, s, siblings, siblingIdx);
      CopyNodes(levelNodes, nextNodes, nextCount);
      levelCount, siblingIdx := nextCount, nextIdx;
      s, e := s / 2, (e + 1) / 2;
    }
    ok := levelCount == 1 && levelNodes[0] == root;
    ClimbDone(levelNodes[..levelCount], s, siblings, siblingIdx);
  }

  method CopyNodes(target: array<Digest>, source: array<Digest>, count: nat)
    requires target != source && count <= target.Length && count <= source.Length
    modifies target
    ensures target[..count] == source[..count]
  {
    for j := 0 to count
      invariant target[..j] == source[..j]
    {
      target[j] := source[j];
    }
  }

  // ---------------------------------------------------------------- theorems

  /** The proof carries the tree's leaves start..end. */
  ghost predicate CarriesLeaves(proof: ProofData, leaves: seq<Digest>, start: nat, end: nat) {
    start <= end && end - start <= |proof.leaves|
    && forall j: nat | j < end - start :: proof.leaves[j] == LeafAt(leaves, start + j)
  }

  lemma CarriesWindow(proof: ProofData, leaves: seq<Digest>, start: nat, end: nat)
    requires start <= end && end - start <= |proof.leaves|
    ensures CarriesLeaves(proof, leaves, start, end) <==> InTree(leaves, 0, start, proof.leaves[..end - start])
  {
    if InTree(leaves, 0, start, proof.leaves[..end - start]) {
      forall j: nat | j < end - start ensures proof.leaves[j] == LeafAt(leaves, start + j) {
        assert proof.leaves[..end - start][j] == NodeAt(leaves, 0, start + j);
      }
    }
  }

  /** A proof for a tree of the right padded width is accepted against the root exactly when its leaves are
      the tree's leaves start..end and the siblings it lets the verifier read are the true nodes in order. */
  lemma RangeProofExact(leaves: seq<Digest>, proof: ProofData, start: nat, end: nat)
    requires proof.n > 0 && Depth(proof.n) == Depth(|leaves|)
    requires start < end <= proof.n && proof.leafCount == end - start <= |proof.leaves| && proof.n < 0x8000_0000
    ensures Verdict(Root(leaves), proof, start, end) == Ok
            <==> CarriesLeaves(proof, leaves, start, end)
                 && Reads(proof.siblings, 0, Siblings(leaves, 0, start, end, Depth(|leaves|)))
  {
    hide Climb, Siblings, Reads, NodeAt, CarriesLeaves;
    var d := Depth(|leaves|);
    DepthIsLeast(proof.n, d);
    Int32Small(end - start);
    ClimbExact(leaves, 0, proof.leaves[..end - start], start, d, proof.siblings, 0);
    CarriesWindow(proof, leaves, start, end);
  }

  /** Soundness: an accepted proof carries the leaves of the tree. */
  lemma RangeProofSound(leaves: seq<Digest>, proof: ProofData, start: nat, end: nat)
    requires 0 < proof.n < 0x8000_0000 && Depth(proof.n) == Depth(|leaves|) && end <= |leaves|
    requires Verdict(Root(leaves), proof, start, end) == Ok
    ensures start < end <= proof.n && proof.leafCount == end - start
    ensures proof.leaves[..end - start] == leaves[start..end]
    ensures Reads(proof.siblings, 0, Siblings(leaves, 0, start, end, Depth(|leaves|)))
  {
    hide Climb, Siblings, Reads, NodeAt;
    Int32Small(end - start);
    RangeProofExact(leaves, proof, start, end);
    assert proof.leaves[..end - start] == leaves[start..end];
  }

  /** Completeness: the generated proof is accepted, and the verifier reads exactly the siblings emitted. */
  lemma RangeProofComplete(leaves: seq<Digest>, start: nat, end: nat)
    requires start < end <= |leaves| <= 128 && end - start <= 64
    ensures var proof := HonestProof(leaves, start, end);
            && Verdict(Root(leaves), proof, start, end) == Ok
            && Climb(proof.leaves[..end - start], start, Depth(|leaves|), proof.siblings, 0).used == proof.siblingCount
            && proof.n == |leaves| && proof.leafCount == end - start && proof.leaves[..end - start] == leaves[start..end]
            && proof.siblingCount <= 32
            && proof.siblings[..proof.siblingCount] == Siblings(leaves, 0, start, end, Depth(|leaves|))
  {
    hide Climb, Siblings, Reads, NodeAt, CarriesLeaves;
    var d := Depth(|leaves|);
    var proof := HonestProof(leaves, start, end);
    FitsExactly(|leaves|, 7);
    DepthIsLeast(|leaves|, d);
    HonestProofIsTrue(leaves, start, end);
    RangeProofExact(leaves, proof, start, end);
    ClimbCount(leaves, 0, proof.leaves[..end - start], start, d, proof.siblings, 0);
  }

  lemma HonestProofIsTrue(leaves: seq<Digest>, start: nat, end: nat)
    requires start < end <= |leaves| && end - start <= MAX_RANGE_PROOF && Depth(|leaves|) <= 7
    ensures var proof := HonestProof(leaves, start, end);
            var siblings := Siblings(leaves, 0, start, end, Depth(|leaves|));
            && CarriesLeaves(proof, leaves, start, end)
            && Reads(proof.siblings, 0, siblings)
            && proof.siblingCount == |siblings| <= MAX_DEPTH
            && proof.siblings[..|siblings|] == siblings
  {
    var siblings := Siblings(leaves, 0, start, end, Depth(|leaves|));
    forall i: nat | i < |siblings|
      ensures SiblingAt(HonestProof(leaves, start, end).siblings, 0 + i) == siblings[i]
    {
    }
  }

  // ---------------------------------------------------------------- the single-leaf verifier

  datatype Step = Step(sibling: Digest, direction: nat)

  /** The value a path of siblings leads to; no value once a direction is neither 0 nor 1. */
  function PathValue(leaf: Digest, path: seq<Step>): Digest
    requires forall i :: 0 <= i < |path| ==> path[i].direction <= 1
  {
    if path == [] then leaf
    else
      var below := PathValue(leaf, path[..|path| - 1]);
      var last := path[|path| - 1];
      if last.direction == 0 then PlainPairHash(last.sibling, below) else PlainPairHash(below, last.sibling)
  }

  method VerifySingle(root: Digest, leaf: Digest, path: seq<Step>, depth: int) returns (status: Status)
    requires |path| == MAX_DEPTH
    ensures status == BadInput <==> depth <= 0 || depth > 32
    ensures 0 < depth <= 32 ==>
              (status == Ok <==> (forall i :: 0 <= i < depth ==> path[i].direction <= 1)
                                 && PathValue(leaf, path[..depth]) == root)
    ensures status == Ok || status == BadInput || status == BadProof
  {
    if depth <= 0 || depth > MAX_DEPTH {
      return BadInput;
    }
    var current := leaf;
    for i := 0 to depth
      invariant forall j :: 0 <= j < i ==> path[j].direction <= 1
      invariant current == PathValue(leaf, path[..i])
    {
      var direction := path[i].direction;
      assert path[..i + 1][..i] == path[..i];
      if direction == 0 {
        current := PlainPairHash(path[i].sibling, current);
      } else if direction == 1 {
        current := PlainPairHash(current, path[i].sibling);
      } else {
        return BadProof;
      }
    }
    status := if current == root then Ok else BadProof;
  }

  /** The other node of the pair that node j of its level belongs to. */
  function Partner(j: nat): nat {
    if j % 2 == 0 then j + 1 else j - 1
  }

  /** The directions say which leaf the path belongs to: at an even node its partner comes second. */
  ghost predicate DirectsTo(path: seq<Step>, i: nat) {
    forall k: nat {:trigger path[k]} | k < |path| :: path[k].direction == if ShiftRight(i, k) % 2 == 0 then 1 else 0
  }

  /** Every sibling on the path is the true node of its level. */
  ghost predicate TrueSiblings(leaves: seq<Digest>, path: seq<Step>, i: nat) {
    forall k: nat {:trigger path[k]} | k < |path| :: path[k].sibling == PlainNode(leaves, k, Partner(ShiftRight(i, k)))
  }

  /** One pair: the hash is the parent's exactly when both halves are the true nodes. */
  lemma PairExactly(leaves: seq<Digest>, k: nat, q: nat, x: Digest, sibling: Digest)
    ensures (if q % 2 == 0 then PlainPairHash(x, sibling) else PlainPairHash(sibling, x)) == PlainNode(leaves, k + 1, q / 2)
            <==> x == PlainNode(leaves, k, q) && sibling == PlainNode(leaves, k, Partner(q))
  {
    assert q == 2 * (q / 2) + q % 2;
    assert PlainNode(leaves, k + 1, q / 2)
           == PlainPairHash(PlainNode(leaves, k, 2 * (q / 2)), PlainNode(leaves, k, 2 * (q / 2) + 1));
    hide PlainNode;
  }

  lemma TrueSiblingsStep(leaves: seq<Digest>, path: seq<Step>, i: nat)
    requires path != []
    ensures var k := |path| - 1;
            TrueSiblings(leaves, path, i)
            <==> TrueSiblings(leaves, path[..k], i) && path[k].sibling == PlainNode(leaves, k, Partner(ShiftRight(i, k)))
  {
    hide PlainNode, ShiftRight, Partner;
    var k := |path| - 1;
    assert forall j: nat | j < k :: path[..k][j] == path[j];
  }

  lemma DirectsStep(path: seq<Step>, i: nat)
    requires path != [] && DirectsTo(path, i)
    ensures var k := |path| - 1;
            DirectsTo(path[..k], i) && path[k].direction == if ShiftRight(i, k) % 2 == 0 then 1 else 0
  {
    hide ShiftRight;
  }

  lemma {:induction false} PathExactlyAt(leaves: seq<Digest>, i: nat, leaf: Digest, path: seq<Step>)
    requires DirectsTo(path, i) && forall k :: 0 <= k < |path| ==> path[k].direction <= 1
    ensures PathValue(leaf, path) == PlainNode(leaves, |path|, ShiftRight(i, |path|))
            <==> leaf == LeafAt(leaves, i) && TrueSiblings(leaves, path, i)
  {
    if path != [] {
      hide TrueSiblings, DirectsTo, LeafAt, PlainNode, PlainPairHash, Partner;
      var k := |path| - 1;
      var q := ShiftRight(i, k);
      DirectsStep(path, i);
      TrueSiblingsStep(leaves, path, i);
      PathExactlyAt(leaves, i, leaf, path[..k]);
      PairExactly(leaves, k, q, PathValue(leaf, path[..k]), path[k].sibling);
      assert ShiftRight(i, k + 1) == q / 2;
    }
  }

  /** The single-leaf verifier against the tree of 2^d leaves without prefixes: a path with the directions of place i
      leads from a leaf to the root exactly when the leaf is the one at that place and all siblings are true nodes. */
  lemma PathExactly(leaves: seq<Digest>, i: nat, leaf: Digest, path: seq<Step>)
    requires |leaves| == Pow2(|path|) && i < |leaves| && DirectsTo(path, i)
    requires forall k :: 0 <= k < |path| ==> path[k].direction <= 1
    ensures PathValue(leaf, path) == PlainSplitHash(leaves) <==> leaf == leaves[i] && TrueSiblings(leaves, path, i)
  {
    var d := |path|;
    FirstLeafStep(d, 0);
    PlainNodeIsSplitHash(leaves, d, 0, leaves);
    ShiftedOut(i, d);
    PathExactlyAt(leaves, i, leaf, path);
  }

  lemma {:induction false} ShiftedOut(i: nat, d: nat)
    requires i < Pow2(d)
    ensures ShiftRight(i, d) == 0
  {
    ShiftBelow(i, d, d);
  }

  lemma {:induction false} ShiftBelow(i: nat, d: nat, k: nat)
    requires i < Pow2(d) && k <= d
    ensures ShiftRight(i, k) < Pow2(d - k)
  {
    if k > 0 {
      ShiftBelow(i, d, k - 1);
    }
  }

  /** The two verifiers are not interchangeable: the single-leaf one hashes pairs without the 0x01 prefix, so
      for a tree of two or more leaves no path at all leads to its root. */
  lemma NoPathLeadsToTreeRoot(leaves: seq<Digest>, leaf: Digest, path: seq<Step>)
    requires |leaves| >= 2 && path != []
    requires forall i :: 0 <= i < |path| ==> path[i].direction <= 1
    ensures PathValue(leaf, path) != Root(leaves)
  {
    assert PathValue(leaf, path).preimage.Block?;
    assert Depth(|leaves|) > 0;
    assert Root(leaves).preimage.Octet?;
  }
}
