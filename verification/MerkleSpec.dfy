/**
  Hash trees of the C core: an independent definition of what every node of the padded tree is,
  and of what a range proof consists of. Nothing here follows the loops of the C file.
 */
module MerkleSpec {

  /** A 32-byte string: either raw bytes or the SHA-256 value of a preimage. The hash is ideal, so the
      preimage of a digest is unique and no raw string is a digest. */
  datatype Digest = Raw(id: nat) | Sha256(preimage: Preimage)

  /** What was fed to the hash, in order: single octets and 32-byte strings. */
  datatype Preimage = End | Octet(value: nat, next: Preimage) | Block(digest: Digest, next: Preimage)

  /** The all-zero string that fills the leaves up to a power of two. */
  const ZERO := Raw(0)

  function Octets(data: seq<nat>): Preimage {
    if data == [] then End else Octet(data[0], Octets(data[1..]))
  }

  function LeafHash(data: seq<nat>): Digest {
    Sha256(Octet(0x00, Octets(data)))
  }

  function NodeHash(left: Digest, right: Digest): Digest {
    Sha256(Octet(0x01, Block(left, Block(right, End))))
  }

  /** The unprefixed pair hash, used only by the single-leaf verifier. */
  function PlainPairHash(left: Digest, right: Digest): Digest {
    Sha256(Block(left, Block(right, End)))
  }

  // ---------------------------------------------------------------- powers of two

  function Pow2(k: nat): (r: nat)
    ensures r >= 1
  {
    if k == 0 then 1 else 2 * Pow2(k - 1)
  }

  lemma {:induction false} Pow2Monotonic(j: nat, k: nat)
    requires j <= k
    ensures Pow2(j) <= Pow2(k)
    decreases k
  {
    if j < k {
      Pow2Monotonic(j, k - 1);
    }
  }

  /** Depth of the tree over n leaves once they are padded to a power of two. */
  function Depth(n: nat): nat {
    if n <= 1 then 0 else 1 + Depth((n + 1) / 2)
  }

  /** The padded width Pow2(Depth(n)) is the least power of two that holds n leaves. */
  lemma {:induction false} DepthIsLeast(n: nat, d: nat)
    ensures d == Depth(n) <==> n <= Pow2(d) && (d == 0 || Pow2(d - 1) < n)
  {
    if n <= 1 {
      if d > 0 {
        assert Pow2(d - 1) >= 1;
      }
    } else if d > 0 {
      DepthIsLeast((n + 1) / 2, d - 1);
    }
  }

  /** n >> k */
  function ShiftRight(n: nat, k: nat): nat {
    if k == 0 then n else ShiftRight(n, k - 1) / 2
  }

  lemma {:induction false} ShiftPow2(d: nat, k: nat)
    requires k <= d
    ensures ShiftRight(Pow2(d), k) == Pow2(d - k)
  {
    if k > 0 {
      ShiftPow2(d, k - 1);
    }
  }

  // ---------------------------------------------------------------- the tree

  /** Leaf i of the zero-padded tree. */
  function LeafAt(leaves: seq<Digest>, i: nat): Digest {
    if i < |leaves| then leaves[i] else ZERO
  }

  /** Node i of level k; level 0 holds the padded leaves. */
  function NodeAt(leaves: seq<Digest>, k: nat, i: nat): Digest {
    if k == 0 then LeafAt(leaves, i)
    else NodeHash(NodeAt(leaves, k - 1, 2 * i), NodeAt(leaves, k - 1, 2 * i + 1))
  }

  function Root(leaves: seq<Digest>): Digest {
    NodeAt(leaves, Depth(|leaves|), 0)
  }

  /** The leaves followed by zeros up to the padded width. */
  function Padded(leaves: seq<Digest>): seq<Digest> {
    seq(Pow2(Depth(|leaves|)), i requires 0 <= i => LeafAt(leaves, i))
  }

  /** The textbook definition: split a sequence in the middle and hash the two halves. */
  function SplitHash(s: seq<Digest>): Digest
    requires s != []
  {
    if |s| == 1 then s[0]
    else NodeHash(SplitHash(s[..|s| / 2]), SplitHash(s[|s| / 2..]))
  }

  /** Position of the leftmost leaf below node i of level k. */
  function FirstLeaf(k: nat, i: nat): nat
    decreases k
  {
    if k == 0 then i else FirstLeaf(k - 1, 2 * i)
  }

  lemma {:induction false} FirstLeafStep(k: nat, i: nat)
    ensures FirstLeaf(k, i + 1) == FirstLeaf(k, i) + Pow2(k)
    ensures FirstLeaf(k, 0) == 0
    decreases k
  {
    if k > 0 {
      FirstLeafStep(k - 1, 2 * i);
      FirstLeafStep(k - 1, 2 * i + 1);
    }
  }

  /** s is what the padded leaves hold from position lo on. */
  ghost predicate Holds(leaves: seq<Digest>, lo: nat, s: seq<Digest>) {
    forall j: nat | j < |s| :: s[j] == LeafAt(leaves, lo + j)
  }

  lemma {:induction false} NodeIsSplitHash(leaves: seq<Digest>, k: nat, i: nat, s: seq<Digest>)
    requires |s| == Pow2(k) && Holds(leaves, FirstLeaf(k, i), s)
    ensures SplitHash(s) == NodeAt(leaves, k, i)
    decreases k
  {
    if k == 0 {
      assert s[0] == LeafAt(leaves, i + 0);
    } else {
      var h := Pow2(k - 1);
      var lo := FirstLeaf(k - 1, 2 * i);
      FirstLeafStep(k - 1, 2 * i);
      assert Holds(leaves, lo + h, s[h..]) by {
        forall j: nat | j < h ensures s[h..][j] == LeafAt(leaves, lo + h + j) {
          assert s[h + j] == LeafAt(leaves, lo + (h + j));
        }
      }
      NodeIsSplitHash(leaves, k - 1, 2 * i, s[..h]);
      NodeIsSplitHash(leaves, k - 1, 2 * i + 1, s[h..]);
    }
  }

  /** The root is the split hash of the padded leaves. */
  lemma RootIsSplitHash(leaves: seq<Digest>)
    ensures Root(leaves) == SplitHash(Padded(leaves))
  {
    FirstLeafStep(Depth(|leaves|), 0);
    NodeIsSplitHash(leaves, Depth(|leaves|), 0, Padded(leaves));
  }

  lemma {:induction false} NodeBindsLeaves(a: seq<Digest>, b: seq<Digest>, k: nat, i: nat, j: nat)
    requires NodeAt(a, k, i) == NodeAt(b, k, i)
    requires FirstLeaf(k, i) <= j < FirstLeaf(k, i + 1)
    ensures LeafAt(a, j) == LeafAt(b, j)
    decreases k
  {
    if k > 0 {
      NodeBindsLeaves(a, b, k - 1, if j < FirstLeaf(k - 1, 2 * i + 1) then 2 * i else 2 * i + 1, j);
    }
  }

  /** Leaves lo..hi of the two padded trees coincide. */
  ghost predicate Agree(a: seq<Digest>, b: seq<Digest>, lo: nat, hi: nat) {
    forall j: nat | lo <= j < hi :: LeafAt(a, j) == LeafAt(b, j)
  }

  lemma {:induction false} NodeDependsOnLeaves(a: seq<Digest>, b: seq<Digest>, k: nat, i: nat)
    requires Agree(a, b, FirstLeaf(k, i), FirstLeaf(k, i + 1))
    ensures NodeAt(a, k, i) == NodeAt(b, k, i)
    decreases k
  {
    if k == 0 {
      assert LeafAt(a, i) == LeafAt(b, i);
    } else {
      FirstLeafStep(k - 1, 2 * i);
      FirstLeafStep(k - 1, 2 * i + 1);
      NodeDependsOnLeaves(a, b, k - 1, 2 * i);
      NodeDependsOnLeaves(a, b, k - 1, 2 * i + 1);
    }
  }

  /** Binding: at one padded width, equal roots mean equal padded leaves, and conversely. */
  lemma RootBindsPaddedLeaves(a: seq<Digest>, b: seq<Digest>)
    requires Depth(|a|) == Depth(|b|)
    ensures Root(a) == Root(b) <==> Padded(a) == Padded(b)
  {
    var d := Depth(|a|);
    FirstLeafStep(d, 0);
    var p, q := Padded(a), Padded(b);
    if Root(a) == Root(b) {
      forall j: nat | j < Pow2(d) ensures p[j] == q[j] {
        NodeBindsLeaves(a, b, d, 0, j);
      }
    }
    if p == q {
      forall j: nat | j < Pow2(d) ensures LeafAt(a, j) == LeafAt(b, j) {
        assert p[j] == LeafAt(a, j) && q[j] == LeafAt(b, j);
      }
      NodeDependsOnLeaves(a, b, d, 0);
    }
  }

  // ---------------------------------------------------------------- what a root binds across widths

  /** The leaves below node i of level k of the narrower tree are nodes of level `up` of the wider one. */
  ghost predicate LeavesAreNodes(a: seq<Digest>, b: seq<Digest>, up: nat, k: nat, i: nat) {
    forall j: nat | FirstLeaf(k, i) <= j < FirstLeaf(k, i + 1) :: LeafAt(a, j) == NodeAt(b, up, j)
  }

  lemma {:induction false} NodesEqualExactly(a: seq<Digest>, b: seq<Digest>, up: nat, k: nat, i: nat)
    ensures NodeAt(a, k, i) == NodeAt(b, k + up, i) <==> LeavesAreNodes(a, b, up, k, i)
    decreases k
  {
    if k == 0 {
      assert FirstLeaf(0, i) == i && FirstLeaf(0, i + 1) == i + 1;
    } else {
      NodesEqualExactly(a, b, up, k - 1, 2 * i);
      NodesEqualExactly(a, b, up, k - 1, 2 * i + 1);
      FirstLeafStep(k - 1, 2 * i);
      FirstLeafStep(k - 1, 2 * i + 1);
    }
  }

  /** Whatever the lists are, their roots are equal exactly when the padded leaves of the narrower tree are, place by
      place, nodes of the wider one. */
  lemma RootsEqualExactly(a: seq<Digest>, b: seq<Digest>)
    requires Depth(|a|) <= Depth(|b|)
    ensures Root(a) == Root(b)
            <==> forall j: nat | j < |Padded(a)| :: Padded(a)[j] == NodeAt(b, Depth(|b|) - Depth(|a|), j)
  {
    hide NodeAt;
    var d, up := Depth(|a|), Depth(|b|) - Depth(|a|);
    FirstLeafStep(d, 0);
    NodesEqualExactly(a, b, up, d, 0);
    assert forall j: nat | j < Pow2(d) :: Padded(a)[j] == LeafAt(a, j);
  }

  predicate IsNodeHash(x: Digest) {
    match x
    case Sha256(Octet(value, Block(_, Block(_, End)))) => value == 0x01
    case _ => false
  }

  /** No leaf is itself the hash of two nodes, and the last leaf is not the padding. */
  predicate Distinct(leaves: seq<Digest>) {
    && leaves != []
    && (forall i :: 0 <= i < |leaves| ==> !IsNodeHash(leaves[i]))
    && leaves[|leaves| - 1] != ZERO
  }

  /** On such lists a root binds everything: the width, the number of leaves and every leaf. */
  lemma RootBindsLeaves(a: seq<Digest>, b: seq<Digest>)
    requires Distinct(a) && Distinct(b)
    ensures Root(a) == Root(b) <==> a == b
  {
    if Root(a) == Root(b) {
      if Depth(|a|) <= Depth(|b|) {
        EqualRootsEqualLeaves(a, b);
      } else {
        EqualRootsEqualLeaves(b, a);
      }
    }
  }

  lemma EqualRootsEqualLeaves(a: seq<Digest>, b: seq<Digest>)
    requires Distinct(a) && Distinct(b) && Depth(|a|) <= Depth(|b|) && Root(a) == Root(b)
    ensures a == b
  {
    hide Root;
    RootsEqualExactly(a, b);
    DepthIsLeast(|a|, Depth(|a|));
    DepthIsLeast(|b|, Depth(|b|));
    assert Padded(a)[0] == a[0];
    assert Depth(|a|) == Depth(|b|);
    hide Depth, NodeAt;
    LevelZero(b);
    assert forall j: nat | j < |Padded(a)| :: LeafAt(a, j) == Padded(a)[j] == LeafAt(b, j);
    SameLeaves(a, b, |Padded(a)|);
  }

  lemma SameLeaves(a: seq<Digest>, b: seq<Digest>, n: nat)
    requires Distinct(a) && Distinct(b) && |a| <= n && |b| <= n
    requires forall j: nat | j < n :: LeafAt(a, j) == LeafAt(b, j)
    ensures a == b
  {
    assert LeafAt(a, |b| - 1) == LeafAt(b, |b| - 1) && LeafAt(a, |a| - 1) == LeafAt(b, |a| - 1);
    assert forall j: nat | j < |a| :: a[j] == LeafAt(a, j) == LeafAt(b, j);
  }

  lemma LevelZero(leaves: seq<Digest>)
    ensures forall j: nat :: NodeAt(leaves, 0, j) == LeafAt(leaves, j)
  {
  }

  /** Both halves of that condition are needed: the root of any tree of two or more leaves is also the root of the
      list of that one node, and any list that does not fill its width has the root it would have with a zero leaf. */
  lemma RootDoesNotBindCount(a: seq<Digest>)
    ensures |a| >= 2 ==> Root([Root(a)]) == Root(a) && IsNodeHash(Root(a)) && [Root(a)] != a
    ensures 0 < |a| < Pow2(Depth(|a|)) ==> Root(a + [ZERO]) == Root(a)
  {
    if 0 < |a| < Pow2(Depth(|a|)) {
      var d, b := Depth(|a|), a + [ZERO];
      DepthIsLeast(|a|, d);
      DepthIsLeast(|b|, d);
      assert Padded(a) == Padded(b);
      RootBindsPaddedLeaves(a, b);
    }
  }

  // ---------------------------------------------------------------- lists of hashed data

  function LeafHashes(data: seq<seq<nat>>): (r: seq<Digest>)
    ensures |r| == |data|
  {
    seq(|data|, i requires 0 <= i < |data| => LeafHash(data[i]))
  }

  lemma {:induction false} OctetsInjective(x: seq<nat>, y: seq<nat>)
    requires Octets(x) == Octets(y)
    ensures x == y
  {
    if x != [] && y != [] {
      OctetsInjective(x[1..], y[1..]);
      assert x == [x[0]] + x[1..] && y == [y[0]] + y[1..];
    }
  }

  /** Hashed with the leaf prefix, data of any number of entries is bound by the root of its tree. */
  lemma RootBindsData(x: seq<seq<nat>>, y: seq<seq<nat>>)
    requires x != [] && y != []
    ensures Root(LeafHashes(x)) == Root(LeafHashes(y)) <==> x == y
  {
    hide Root;
    RootBindsLeaves(LeafHashes(x), LeafHashes(y));
    if LeafHashes(x) == LeafHashes(y) {
      forall i | 0 <= i < |x| ensures x[i] == y[i] {
        assert LeafHashes(x)[i] == LeafHashes(y)[i];
        OctetsInjective(x[i], y[i]);
      }
    }
  }

  // ---------------------------------------------------------------- range proofs

  /** `nodes` are the nodes of level k from position s on. */
  ghost predicate InTree(leaves: seq<Digest>, k: nat, s: nat, nodes: seq<Digest>) {
    forall j: nat | j < |nodes| :: nodes[j] == NodeAt(leaves, k, s + j)
  }

  /** Nodes of level k that complete the odd ends of the window s..e, left before right. */
  function EndSiblings(leaves: seq<Digest>, k: nat, s: nat, e: nat): (w: seq<Digest>)
    ensures |w| == s % 2 + e % 2
  {
    (if s % 2 == 1 then [NodeAt(leaves, k, s - 1)] else []) + (if e % 2 == 1 then [NodeAt(leaves, k, e)] else [])
  }

  /** Nodes outside the window that climbing from level k needs, bottom level first. */
  function Siblings(leaves: seq<Digest>, k: nat, s: nat, e: nat, depth: nat): (w: seq<Digest>)
    ensures |w| <= 2 * depth
    decreases depth
  {
    if depth == 0 then []
    else EndSiblings(leaves, k, s, e) + Siblings(leaves, k + 1, s / 2, (e + 1) / 2, depth - 1)
  }

  /** The digest standing at position i of a level of which `nodes` covers s..s+|nodes|. */
  function ChildAt(nodes: seq<Digest>, s: nat, left: Digest, right: Digest, i: nat): Digest {
    if i < s then left else if i < s + |nodes| then nodes[i - s] else right
  }

  /** The parent at position p of the next level. */
  function ParentAt(nodes: seq<Digest>, s: nat, left: Digest, right: Digest, p: nat): Digest {
    NodeHash(ChildAt(nodes, s, left, right, 2 * p), ChildAt(nodes, s, left, right, 2 * p + 1))
  }

  /** The next level over the same window, with `left` and `right` completing odd ends. */
  function ParentLevel(nodes: seq<Digest>, s: nat, left: Digest, right: Digest): (r: seq<Digest>)
    ensures s / 2 + |r| == (s + |nodes| + 1) / 2
  {
    seq((s + |nodes| + 1) / 2 - s / 2, j requires 0 <= j => ParentAt(nodes, s, left, right, s / 2 + j))
  }

  function SiblingAt(siblings: seq<Digest>, i: nat): Digest {
    if i < |siblings| then siblings[i] else ZERO
  }

  datatype Climbed = Climbed(nodes: seq<Digest>, used: nat)

  /** Climb `depth` levels, taking siblings from position `used` on. */
  function Climb(nodes: seq<Digest>, s: nat, depth: nat, siblings: seq<Digest>, used: nat): Climbed
    decreases depth
  {
    if depth == 0 then Climbed(nodes, used)
    else
      var usedL := used + s % 2;
      var usedR := usedL + (s + |nodes|) % 2;
      Climb(ParentLevel(nodes, s, SiblingAt(siblings, used), SiblingAt(siblings, usedL)),
            s / 2, depth - 1, siblings, usedR)
  }

  /** `nodes` and the siblings its odd ends call for are true nodes of level k. */
  ghost predicate TrueLevel(leaves: seq<Digest>, k: nat, nodes: seq<Digest>, s: nat, left: Digest, right: Digest) {
    && InTree(leaves, k, s, nodes)
    && (s % 2 == 1 ==> left == NodeAt(leaves, k, s - 1))
    && ((s + |nodes|) % 2 == 1 ==> right == NodeAt(leaves, k, s + |nodes|))
  }

  lemma NodeIsHash(leaves: seq<Digest>, k: nat, p: nat)
    ensures NodeAt(leaves, k + 1, p) == NodeHash(NodeAt(leaves, k, 2 * p), NodeAt(leaves, k, 2 * p + 1))
  {
  }

  /** Within the completed window every child is the true node at its position. */
  lemma TrueChild(leaves: seq<Digest>, k: nat, nodes: seq<Digest>, s: nat, left: Digest, right: Digest, i: nat)
    requires TrueLevel(leaves, k, nodes, s, left, right)
    requires 2 * (s / 2) <= i < 2 * ((s + |nodes| + 1) / 2)
    ensures ChildAt(nodes, s, left, right, i) == NodeAt(leaves, k, i)
  {
    hide NodeAt;
    if s <= i < s + |nodes| {
      assert nodes[i - s] == NodeAt(leaves, k, s + (i - s));
    }
  }

  lemma TrueParent(leaves: seq<Digest>, k: nat, nodes: seq<Digest>, s: nat, left: Digest, right: Digest, p: nat)
    requires TrueLevel(leaves, k, nodes, s, left, right) && s / 2 <= p < (s + |nodes| + 1) / 2
    ensures ParentAt(nodes, s, left, right, p) == NodeAt(leaves, k + 1, p)
  {
    hide NodeAt, ChildAt, TrueLevel;
    TrueChild(leaves, k, nodes, s, left, right, 2 * p);
    TrueChild(leaves, k, nodes, s, left, right, 2 * p + 1);
    NodeIsHash(leaves, k, p);
  }

  /** One level up: true children give true parents. */
  lemma ParentLevelComplete(leaves: seq<Digest>, k: nat, nodes: seq<Digest>, s: nat, left: Digest, right: Digest)
    requires nodes != [] && TrueLevel(leaves, k, nodes, s, left, right)
    ensures InTree(leaves, k + 1, s / 2, ParentLevel(nodes, s, left, right))
  {
    hide NodeAt, ParentAt, TrueLevel;
    var up := ParentLevel(nodes, s, left, right);
    forall j: nat | j < |up| ensures up[j] == NodeAt(leaves, k + 1, s / 2 + j) {
      TrueParent(leaves, k, nodes, s, left, right, s / 2 + j);
    }
  }

  lemma TrueParentHasTrueChildren(leaves: seq<Digest>, k: nat, nodes: seq<Digest>, s: nat,
                                  left: Digest, right: Digest, i: nat)
    requires InTree(leaves, k + 1, s / 2, ParentLevel(nodes, s, left, right))
    requires 2 * (s / 2) <= i < 2 * ((s + |nodes| + 1) / 2)
    ensures ChildAt(nodes, s, left, right, i) == NodeAt(leaves, k, i)
  {
    var p := i / 2;
    var j := p - s / 2;
    assert ParentLevel(nodes, s, left, right)[j] == NodeAt(leaves, k + 1, s / 2 + j);
    assert ParentAt(nodes, s, left, right, p) == NodeHash(NodeAt(leaves, k, 2 * p), NodeAt(leaves, k, 2 * p + 1));
    assert i == 2 * p || i == 2 * p + 1;
  }

  /** One level up: true parents come only from true children, since the node hash is injective. */
  lemma ParentLevelSound(leaves: seq<Digest>, k: nat, nodes: seq<Digest>, s: nat, left: Digest, right: Digest)
    requires nodes != [] && InTree(leaves, k + 1, s / 2, ParentLevel(nodes, s, left, right))
    ensures TrueLevel(leaves, k, nodes, s, left, right)
  {
    var e := s + |nodes|;
    forall j: nat | j < |nodes| ensures nodes[j] == NodeAt(leaves, k, s + j) {
      TrueParentHasTrueChildren(leaves, k, nodes, s, left, right, s + j);
    }
    if s % 2 == 1 {
      TrueParentHasTrueChildren(leaves, k, nodes, s, left, right, s - 1);
    }
    if e % 2 == 1 {
      TrueParentHasTrueChildren(leaves, k, nodes, s, left, right, e);
    }
  }

  ghost predicate Reads(siblings: seq<Digest>, used: nat, expected: seq<Digest>) {
    forall i: nat | i < |expected| :: SiblingAt(siblings, used + i) == expected[i]
  }

  lemma ReadsSplit(siblings: seq<Digest>, used: nat, a: seq<Digest>, b: seq<Digest>)
    ensures Reads(siblings, used, a + b) <==> Reads(siblings, used, a) && Reads(siblings, used + |a|, b)
  {
    if Reads(siblings, used, a + b) {
      forall i: nat | i < |a| ensures SiblingAt(siblings, used + i) == a[i] {
        assert (a + b)[i] == a[i];
      }
      forall i: nat | i < |b| ensures SiblingAt(siblings, used + |a| + i) == b[i] {
        assert (a + b)[|a| + i] == b[i];
      }
    }
    if Reads(siblings, used, a) && Reads(siblings, used + |a|, b) {
      forall i: nat | i < |a + b| ensures SiblingAt(siblings, used + i) == (a + b)[i] {
        if i >= |a| {
          assert SiblingAt(siblings, used + |a| + (i - |a|)) == b[i - |a|];
        }
      }
    }
  }

  lemma ReadsOne(siblings: seq<Digest>, used: nat, x: Digest)
    ensures Reads(siblings, used, [x]) <==> SiblingAt(siblings, used) == x
  {
    if Reads(siblings, used, [x]) {
      assert SiblingAt(siblings, used + 0) == [x][0];
    }
  }

  /** What one level of Siblings says about the cursor: the two optional siblings, then the rest. */
  lemma ReadsLevel(leaves: seq<Digest>, k: nat, s: nat, e: nat, siblings: seq<Digest>, used: nat, rest: seq<Digest>)
    ensures Reads(siblings, used, EndSiblings(leaves, k, s, e) + rest)
            <==> (s % 2 == 1 ==> SiblingAt(siblings, used) == NodeAt(leaves, k, s - 1))
                 && (e % 2 == 1 ==> SiblingAt(siblings, used + s % 2) == NodeAt(leaves, k, e))
                 && Reads(siblings, used + s % 2 + e % 2, rest)
  {
    var l := if s % 2 == 1 then [NodeAt(leaves, k, s - 1)] else [];
    var r := if e % 2 == 1 then [NodeAt(leaves, k, e)] else [];
    ReadsSplit(siblings, used, l + r, rest);
    ReadsSplit(siblings, used, l, r);
    ReadsOne(siblings, used, NodeAt(leaves, k, if s > 0 then s - 1 else 0));
    ReadsOne(siblings, used + s % 2, NodeAt(leaves, k, e));
  }

  /** The climb narrows the window to one node, and consumes as many siblings as there are to consume. */
  lemma {:induction false} ClimbCount(leaves: seq<Digest>, k: nat, nodes: seq<Digest>, s: nat, depth: nat,
                                      siblings: seq<Digest>, used: nat)
    requires nodes != [] && s + |nodes| <= Pow2(depth)
    ensures |Climb(nodes, s, depth, siblings, used).nodes| == 1
    ensures Climb(nodes, s, depth, siblings, used).used == used + |Siblings(leaves, k, s, s + |nodes|, depth)|
    decreases depth
  {
    hide ParentLevel, NodeAt, SiblingAt;
    if depth > 0 {
      var usedL := used + s % 2;
      var up := ParentLevel(nodes, s, SiblingAt(siblings, used), SiblingAt(siblings, usedL));
      ClimbCount(leaves, k + 1, up, s / 2, depth - 1, siblings, usedL + (s + |nodes|) % 2);
    }
  }

  /** The window is true, and every sibling the climb will read is the true one, in the order listed. */
  ghost predicate TrueClimb(leaves: seq<Digest>, k: nat, nodes: seq<Digest>, s: nat, depth: nat,
                            siblings: seq<Digest>, used: nat) {
    InTree(leaves, k, s, nodes) && Reads(siblings, used, Siblings(leaves, k, s, s + |nodes|, depth))
  }

  lemma TrueClimbStep(leaves: seq<Digest>, k: nat, nodes: seq<Digest>, s: nat, e: nat, depth: nat,
                      siblings: seq<Digest>, used: nat, up: seq<Digest>)
    requires nodes != [] && depth > 0 && e == s + |nodes|
    requires up == ParentLevel(nodes, s, SiblingAt(siblings, used), SiblingAt(siblings, used + s % 2))
    ensures TrueClimb(leaves, k, nodes, s, depth, siblings, used)
            <==> TrueClimb(leaves, k + 1, up, s / 2, depth - 1, siblings, used + s % 2 + e % 2)
  {
    hide InTree, Reads, NodeAt, ParentLevel, EndSiblings, SiblingAt;
    var left, right := SiblingAt(siblings, used), SiblingAt(siblings, used + s % 2);
    ReadsLevel(leaves, k, s, e, siblings, used, Siblings(leaves, k + 1, s / 2, s / 2 + |up|, depth - 1));
    if InTree(leaves, k + 1, s / 2, up) {
      ParentLevelSound(leaves, k, nodes, s, left, right);
    } else if TrueLevel(leaves, k, nodes, s, left, right) {
      ParentLevelComplete(leaves, k, nodes, s, left, right);
    }
  }

  /** The climb ends in the true node exactly when everything it started from and read is true. */
  lemma {:induction false} ClimbExact(leaves: seq<Digest>, k: nat, nodes: seq<Digest>, s: nat, depth: nat,
                                      siblings: seq<Digest>, used: nat)
    requires nodes != [] && s + |nodes| <= Pow2(depth)
    ensures Climb(nodes, s, depth, siblings, used).nodes == [NodeAt(leaves, k + depth, 0)]
            <==> TrueClimb(leaves, k, nodes, s, depth, siblings, used)
    decreases depth
  {
    hide ParentLevel, SiblingAt;
    if depth == 0 {
      assert s == 0 && nodes == [nodes[0]];
      assert InTree(leaves, k, 0, nodes) <==> nodes[0] == NodeAt(leaves, k, 0 + 0);
    } else {
      var usedL := used + s % 2;
      var up := ParentLevel(nodes, s, SiblingAt(siblings, used), SiblingAt(siblings, usedL));
      TrueClimbStep(leaves, k, nodes, s, s + |nodes|, depth, siblings, used, up);
      ClimbExact(leaves, k + 1, up, s / 2, depth - 1, siblings, usedL + (s + |nodes|) % 2);
    }
  }

  // ---------------------------------------------------------------- the tree without prefixes

  /** The textbook definition over a list of 2^k digests, pairs hashed without a prefix. */
  function PlainSplitHash(s: seq<Digest>): Digest
    requires s != []
  {
    if |s| == 1 then s[0]
    else PlainPairHash(PlainSplitHash(s[..|s| / 2]), PlainSplitHash(s[|s| / 2..]))
  }

  /** Node j of level k over such a list. */
  function PlainNode(leaves: seq<Digest>, k: nat, j: nat): Digest {
    if k == 0 then LeafAt(leaves, j)
    else PlainPairHash(PlainNode(leaves, k - 1, 2 * j), PlainNode(leaves, k - 1, 2 * j + 1))
  }

  lemma {:induction false} PlainNodeIsSplitHash(leaves: seq<Digest>, k: nat, j: nat, s: seq<Digest>)
    requires |s| == Pow2(k) && Holds(leaves, FirstLeaf(k, j), s)
    ensures PlainSplitHash(s) == PlainNode(leaves, k, j)
    decreases k
  {
    if k == 0 {
      assert s[0] == LeafAt(leaves, j + 0);
    } else {
      var h := Pow2(k - 1);
      var lo := FirstLeaf(k - 1, 2 * j);
      FirstLeafStep(k - 1, 2 * j);
      assert Holds(leaves, lo + h, s[h..]) by {
        forall m: nat | m < h ensures s[h..][m] == LeafAt(leaves, lo + h + m) {
          assert s[h + m] == LeafAt(leaves, lo + (h + m));
        }
      }
      PlainNodeIsSplitHash(leaves, k - 1, 2 * j, s[..h]);
      PlainNodeIsSplitHash(leaves, k - 1, 2 * j + 1, s[h..]);
    }
  }
}
