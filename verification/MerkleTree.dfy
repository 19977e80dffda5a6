/** The RFC 6962 Merkle tree of the Key Transparency log: roots, audit paths and the
    verifier, with completeness, soundness and binding. */
module MerkleTree {
  import opened Bytes

  // ------------------------------------------------------------------------
  // The split point
  // ------------------------------------------------------------------------

  ghost predicate IsPowerOfTwo(k: nat)
  {
    k == 1 || (k > 0 && k % 2 == 0 && IsPowerOfTwo(k / 2))
  }

  /** The doubling search for the split point, started at `k`. */
  function SplitFrom(k: nat, n: nat): (r: nat)
    requires k > 0
    ensures k < n ==> k <= r < n
    ensures k >= n ==> r == k / 2
    decreases n - k
  {
    if k < n then SplitFrom(2 * k, n) else k / 2
  }

  /** Where a tree of `n` leaves is split. Total: the search gives 0 below two leaves. */
  function Split(n: nat): (k: nat)
    ensures n >= 2 ==> 1 <= k < n
    ensures n <= 1 ==> k == 0
  {
    SplitFrom(1, n)
  }

  lemma {:induction false} SplitFromIsPower(k: nat, n: nat)
    requires IsPowerOfTwo(k) && k < n
    ensures IsPowerOfTwo(SplitFrom(k, n)) && n <= 2 * SplitFrom(k, n)
    decreases n - k
  {
    if 2 * k < n {
      assert IsPowerOfTwo(2 * k);
      SplitFromIsPower(2 * k, n);
    }
  }

  lemma {:induction false} PowersAreApart(a: nat, b: nat)
    requires IsPowerOfTwo(a) && IsPowerOfTwo(b) && a < b
    ensures 2 * a <= b
  {
    if a != 1 {
      PowersAreApart(a / 2, b / 2);
    }
  }

  /** For two or more leaves the split is the one power of two `k` with `k < n <= 2k`. */
  lemma SplitIsTheUniquePower(n: nat, k: nat)
    requires n >= 2
    ensures k == Split(n) <==> IsPowerOfTwo(k) && k < n <= 2 * k
  {
    SplitFromIsPower(1, n);
    if IsPowerOfTwo(k) && k < n <= 2 * k && k != Split(n) {
      if k < Split(n) {
        PowersAreApart(k, Split(n));
      } else {
        PowersAreApart(Split(n), k);
      }
    }
  }

  /** The source's loop. */
  method ComputeSplit(n: nat) returns (k: nat)
    ensures k == Split(n)
    ensures n >= 2 ==> IsPowerOfTwo(k) && k < n <= 2 * k
  {
    k := 1;
    while k < n
      invariant IsPowerOfTwo(k)
      invariant k == 1 || k / 2 < n
      invariant SplitFrom(k, n) == Split(n)
    {
      k := 2 * k;
    }
    k := k / 2;
    if n >= 2 {
      SplitIsTheUniquePower(n, k);
    }
  }

  // ------------------------------------------------------------------------
  // Roots
  // ------------------------------------------------------------------------

  const NODE_TAG: byte := 0x01

  function NodeInput(left: Digest, right: Digest): Bytes {
    [NODE_TAG] + left + right
  }

  lemma NodeInputInjective(l: Digest, r: Digest, l': Digest, r': Digest)
    requires NodeInput(l, r) == NodeInput(l', r')
    ensures l == l' && r == r'
  {
    assert NodeInput(l, r) == [NODE_TAG] + (l + r) && NodeInput(l', r') == [NODE_TAG] + (l' + r');
    SplitConcat([NODE_TAG], l + r, [NODE_TAG], l' + r');
    SplitConcat(l, r, l', r');
  }

  function NodeHash(h: Hash, left: Digest, right: Digest): Digest {
    h(NodeInput(left, right))
  }

  function MerkleRoot(h: Hash, leaves: seq<Digest>): Digest
    decreases |leaves|
  {
    if |leaves| == 0 then h([])
    else if |leaves| == 1 then leaves[0]
    else
      var k := Split(|leaves|);
      NodeHash(h, MerkleRoot(h, leaves[..k]), MerkleRoot(h, leaves[k..]))
  }

  // ------------------------------------------------------------------------
  // The same root, level by level
  // ------------------------------------------------------------------------

  /** One level up the tree: hash neighbours in pairs, carry an odd last node up unchanged. The
      hash input is spelled out: the tag, the left node, the right node. */
  function PairUp(h: Hash, level: seq<Digest>): (up: seq<Digest>)
    ensures |up| == (|level| + 1) / 2
  {
    if |level| < 2 then level
    else [h([0x01] + level[0] + level[1])] + PairUp(h, level[2..])
  }

  /** An independent reference for the root, with no split point: climb until one node is left. */
  function RootByLevels(h: Hash, level: seq<Digest>): Digest
    decreases |level|
  {
    if level == [] then h([])
    else if |level| == 1 then level[0]
    else RootByLevels(h, PairUp(h, level))
  }

  lemma {:induction false} PairUpConcat(h: Hash, a: seq<Digest>, b: seq<Digest>)
    requires |a| % 2 == 0
    ensures PairUp(h, a + b) == PairUp(h, a) + PairUp(h, b)
  {
    if a == [] {
      assert a + b == b;
    } else {
      assert (a + b)[2..] == a[2..] + b;
      PairUpConcat(h, a[2..], b);
    }
  }

  /** Above two leaves the split is even, and halving the leaves halves it. */
  lemma SplitHalves(n: nat)
    requires n > 2
    ensures Split(n) % 2 == 0 && Split(n) / 2 == Split((n + 1) / 2)
  {
    var k := Split(n);
    SplitIsTheUniquePower(n, k);
    SplitIsTheUniquePower((n + 1) / 2, k / 2);
  }

  lemma PairUpOfTwo(h: Hash, a: Digest, b: Digest)
    ensures PairUp(h, [a, b]) == [h([0x01] + a + b)]
    ensures MerkleRoot(h, [a, b]) == NodeHash(h, a, b)
  {
    assert [a, b][2..] == [];
    assert Split(2) == 1;
    assert [a, b][..1] == [a] && [a, b][1..] == [b];
  }

  lemma RootOfHalves(h: Hash, leaves: seq<Digest>, l: seq<Digest>, r: seq<Digest>)
    requires |leaves| >= 2 && leaves[..Split(|leaves|)] == l && leaves[Split(|leaves|)..] == r
    ensures MerkleRoot(h, leaves) == NodeHash(h, MerkleRoot(h, l), MerkleRoot(h, r))
  {
  }

  lemma HalvesOfConcat<T>(l: seq<T>, r: seq<T>)
    ensures (l + r)[..|l|] == l && (l + r)[|l|..] == r
  {
  }

  lemma PairUpOfConcat(h: Hash, l: seq<Digest>, r: seq<Digest>, all: seq<Digest>)
    requires |l| % 2 == 0 && all == l + r
    ensures PairUp(h, all)[..|l| / 2] == PairUp(h, l) && PairUp(h, all)[|l| / 2..] == PairUp(h, r)
  {
    PairUpConcat(h, l, r);
    HalvesOfConcat(PairUp(h, l), PairUp(h, r));
  }

  lemma ConcatOfHalves<T>(s: seq<T>, k: nat)
    requires k <= |s|
    ensures s == s[..k] + s[k..]
  {
  }

  lemma {:induction false} PairUpKeepsRoot(h: Hash, leaves: seq<Digest>)
    requires leaves != []
    ensures MerkleRoot(h, PairUp(h, leaves)) == MerkleRoot(h, leaves)
    decreases |leaves|
  {
    if |leaves| == 2 {
      assert leaves == [leaves[0], leaves[1]];
      PairUpOfTwo(h, leaves[0], leaves[1]);
    } else if |leaves| > 2 {
      var k := Split(|leaves|);
      var l, r, up := leaves[..k], leaves[k..], PairUp(h, leaves);
      PairUpKeepsRoot(h, l);
      PairUpKeepsRoot(h, r);
      SplitHalves(|leaves|);
      ConcatOfHalves(leaves, k);
      PairUpOfConcat(h, l, r, leaves);
      RootOfHalves(h, leaves, l, r);
      RootOfHalves(h, up, PairUp(h, l), PairUp(h, r));
    }
  }

  /** The recursive root is the root of the level-by-level tree, for every log. */
  lemma {:induction false} RootIsLevelRoot(h: Hash, leaves: seq<Digest>)
    ensures MerkleRoot(h, leaves) == RootByLevels(h, leaves)
    decreases |leaves|
  {
    if |leaves| >= 2 {
      PairUpKeepsRoot(h, leaves);
      RootIsLevelRoot(h, PairUp(h, leaves));
    }
  }

  // ------------------------------------------------------------------------
  // Audit paths and the verifier
  // ------------------------------------------------------------------------

  /** The siblings of leaf `index`, innermost first. */
  function InclusionPath(h: Hash, leaves: seq<Digest>, index: nat): seq<Digest>
    requires index < |leaves|
    decreases |leaves|
  {
    if |leaves| == 1 then []
    else
      var k := Split(|leaves|);
      if index < k then
        InclusionPath(h, leaves[..k], index) + [MerkleRoot(h, leaves[k..])]
      else
        InclusionPath(h, leaves[k..], index - k) + [MerkleRoot(h, leaves[..k])]
  }

  /** The audit path and the root; none when there is no such leaf. */
  function GenerateInclusionProof(h: Hash, leaves: seq<Digest>, index: nat): Option<(seq<Digest>, Digest)> {
    if index >= |leaves| then None
    else Some((InclusionPath(h, leaves, index), MerkleRoot(h, leaves)))
  }

  function Reconstruct(h: Hash, leaf: Digest, proof: seq<Digest>, index: nat, size: nat): Option<Digest>
    decreases |proof|
  {
    if proof == [] then
      if size == 1 && index == 0 then Some(leaf) else None
    else
      var k := Split(size);
      var sibling := proof[|proof| - 1];
      var inner := proof[..|proof| - 1];
      if index < k then
        match Reconstruct(h, leaf, inner, index, k)
        case None => None
        case Some(left) => Some(NodeHash(h, left, sibling))
      else
        match Reconstruct(h, leaf, inner, index - k, size - k)
        case None => None
        case Some(right) => Some(NodeHash(h, sibling, right))
  }

  predicate VerifyInclusion(h: Hash, leaf: Digest, proof: seq<Digest>, index: nat, size: nat, root: Digest) {
    size != 0 && index < size && Reconstruct(h, leaf, proof, index, size) == Some(root)
  }

  // ------------------------------------------------------------------------
  // Completeness
  // ------------------------------------------------------------------------

  /** One level of the verifier. */
  lemma ReconstructLevel(h: Hash, leaf: Digest, inner: seq<Digest>, sibling: Digest, index: nat, size: nat)
    ensures index < Split(size) && Reconstruct(h, leaf, inner, index, Split(size)).Some? ==>
              Reconstruct(h, leaf, inner + [sibling], index, size)
              == Some(NodeHash(h, Reconstruct(h, leaf, inner, index, Split(size)).value, sibling))
    ensures index >= Split(size) && Reconstruct(h, leaf, inner, index - Split(size), size - Split(size)).Some? ==>
              Reconstruct(h, leaf, inner + [sibling], index, size)
              == Some(NodeHash(h, sibling, Reconstruct(h, leaf, inner, index - Split(size), size - Split(size)).value))
  {
    var proof := inner + [sibling];
    assert proof[..|proof| - 1] == inner && proof[|proof| - 1] == sibling;
  }

  lemma {:induction false} PathReconstructsRoot(h: Hash, leaves: seq<Digest>, index: nat)
    requires index < |leaves|
    ensures Reconstruct(h, leaves[index], InclusionPath(h, leaves, index), index, |leaves|)
         == Some(MerkleRoot(h, leaves))
    decreases |leaves|
  {
    if |leaves| > 1 {
      var k := Split(|leaves|);
      var l, r := leaves[..k], leaves[k..];
      if index < k {
        PathReconstructsRoot(h, l, index);
        ReconstructLevel(h, leaves[index], InclusionPath(h, l, index), MerkleRoot(h, r), index, |leaves|);
      } else {
        PathReconstructsRoot(h, r, index - k);
        ReconstructLevel(h, leaves[index], InclusionPath(h, r, index - k), MerkleRoot(h, l), index, |leaves|);
      }
    }
  }

  /** A generated proof is found for exactly the positions of the log, and it verifies. */
  lemma InclusionCompleteness(h: Hash, leaves: seq<Digest>, index: nat)
    ensures GenerateInclusionProof(h, leaves, index).Some? <==> index < |leaves|
    ensures index < |leaves| ==>
              var (proof, root) := GenerateInclusionProof(h, leaves, index).value;
              root == MerkleRoot(h, leaves) && VerifyInclusion(h, leaves[index], proof, index, |leaves|, root)
  {
    if index < |leaves| {
      PathReconstructsRoot(h, leaves, index);
    }
  }

  function Pow2(e: nat): (p: nat)
    ensures p > 0
  {
    if e == 0 then 1 else 2 * Pow2(e - 1)
  }

  /** The ceiling of the base-two logarithm of `n`: the least `e` with `n <= 2^e`. */
  ghost predicate IsCeilLog2(n: nat, e: nat) {
    n <= Pow2(e) && (e > 0 ==> Pow2(e - 1) < n)
  }

  lemma {:induction false} PathLength(h: Hash, leaves: seq<Digest>, index: nat, e: nat)
    requires index < |leaves| <= Pow2(e)
    ensures |InclusionPath(h, leaves, index)| <= e
    decreases |leaves|
  {
    if |leaves| > 1 {
      var k := Split(|leaves|);
      SplitIsTheUniquePower(|leaves|, k);
      SplitFitsHalf(|leaves|, e);
      if index < k {
        PathLength(h, leaves[..k], index, e - 1);
      } else {
        PathLength(h, leaves[k..], index - k, e - 1);
      }
    }
  }

  lemma {:induction false} Pow2IsPower(e: nat)
    ensures IsPowerOfTwo(Pow2(e))
  {
    if e > 0 {
      Pow2IsPower(e - 1);
    }
  }

  /** Both halves of a tree of at most `2^e` leaves have at most `2^(e-1)`. */
  lemma SplitFitsHalf(n: nat, e: nat)
    requires 2 <= n <= Pow2(e)
    ensures e > 0 && Split(n) <= Pow2(e - 1) && n - Split(n) <= Pow2(e - 1)
  {
    SplitIsTheUniquePower(n, Split(n));
    Pow2IsPower(e - 1);
    if Pow2(e - 1) < Split(n) {
      PowersAreApart(Pow2(e - 1), Split(n));
    }
  }

  lemma {:induction false} FirstPathLength(h: Hash, leaves: seq<Digest>, e: nat)
    requires |leaves| > 0 && IsCeilLog2(|leaves|, e)
    ensures |InclusionPath(h, leaves, 0)| == e
    decreases |leaves|
  {
    if |leaves| > 1 {
      var k := Split(|leaves|);
      SplitIsTheUniquePower(|leaves|, k);
      SplitFitsHalf(|leaves|, e);
      Pow2IsPower(e - 1);
      if k < Pow2(e - 1) {
        PowersAreApart(k, Pow2(e - 1));
      }
      if e - 1 > 0 {
        assert Pow2(e - 2) < k;
      }
      FirstPathLength(h, leaves[..k], e - 1);
    }
  }

  /** No path is longer than the ceiling of log2 of the log's size, and one is that long. */
  lemma PathLengthBound(h: Hash, leaves: seq<Digest>, e: nat)
    requires |leaves| > 0 && IsCeilLog2(|leaves|, e)
    ensures forall i: nat | i < |leaves| :: |InclusionPath(h, leaves, i)| <= e
    ensures |InclusionPath(h, leaves, 0)| == e
  {
    forall i: nat | i < |leaves|
      ensures |InclusionPath(h, leaves, i)| <= e
    {
      PathLength(h, leaves, i, e);
    }
    FirstPathLength(h, leaves, e);
  }

  // ------------------------------------------------------------------------
  // Logs of tagged leaves
  // ------------------------------------------------------------------------

  /** The inputs of a log's leaf hashes; none of them can be read as a node's input. */
  ghost predicate Tagged(inputs: seq<Bytes>) {
    forall i | 0 <= i < |inputs| :: inputs[i] != [] && inputs[i][0] != NODE_TAG
  }

  function LeafHashes(h: Hash, inputs: seq<Bytes>): (leaves: seq<Digest>)
    ensures |leaves| == |inputs|
    ensures forall i | 0 <= i < |inputs| :: leaves[i] == h(inputs[i])
  {
    seq(|inputs|, i requires 0 <= i < |inputs| => h(inputs[i]))
  }

  function LogRoot(h: Hash, inputs: seq<Bytes>): Digest {
    MerkleRoot(h, LeafHashes(h, inputs))
  }

  /** The root of a log of two or more leaves, over the roots of its two halves. */
  lemma LogRootSplits(h: Hash, inputs: seq<Bytes>)
    requires |inputs| >= 2
    ensures var k := Split(|inputs|);
            && LeafHashes(h, inputs)[..k] == LeafHashes(h, inputs[..k])
            && LeafHashes(h, inputs)[k..] == LeafHashes(h, inputs[k..])
            && LogRoot(h, inputs) == NodeHash(h, LogRoot(h, inputs[..k]), LogRoot(h, inputs[k..]))
  {
    var k := Split(|inputs|);
    assert LeafHashes(h, inputs)[..k] == LeafHashes(h, inputs[..k]);
    assert LeafHashes(h, inputs)[k..] == LeafHashes(h, inputs[k..]);
  }

  // ------------------------------------------------------------------------
  // Soundness
  // ------------------------------------------------------------------------

  /** The pair of hash inputs that an accepted proof of a wrong leaf gives away. */
  ghost function ProofCollision(h: Hash, inputs: seq<Bytes>, leaf: Digest, proof: seq<Digest>, index: nat): Collision
    requires index < |inputs|
    decreases |proof|
  {
    if proof == [] then Collision([], [])
    else
      var n := |inputs|;
      var k := Split(n);
      var sibling := proof[|proof| - 1];
      var inner := proof[..|proof| - 1];
      if index < k then
        var left := Reconstruct(h, leaf, inner, index, k);
        if left == Some(LogRoot(h, inputs[..k])) && sibling == LogRoot(h, inputs[k..]) then
          ProofCollision(h, inputs[..k], leaf, inner, index)
        else if left.Some? then
          Collision(NodeInput(left.value, sibling), NodeInput(LogRoot(h, inputs[..k]), LogRoot(h, inputs[k..])))
        else Collision([], [])
      else
        var right := Reconstruct(h, leaf, inner, index - k, n - k);
        if n == 1 then
          if right.Some? then Collision(NodeInput(sibling, right.value), inputs[0]) else Collision([], [])
        else if right == Some(LogRoot(h, inputs[k..])) && sibling == LogRoot(h, inputs[..k]) then
          ProofCollision(h, inputs[k..], leaf, inner, index - k)
        else if right.Some? then
          Collision(NodeInput(sibling, right.value), NodeInput(LogRoot(h, inputs[..k]), LogRoot(h, inputs[k..])))
        else Collision([], [])
  }

  /** Two different pairs of children under one node hash are a collision. */
  lemma NodeCollision(h: Hash, l: Digest, r: Digest, l': Digest, r': Digest)
    requires NodeHash(h, l, r) == NodeHash(h, l', r')
    requires l != l' || r != r'
    ensures Collides(h, Collision(NodeInput(l, r), NodeInput(l', r')))
  {
    if NodeInput(l, r) == NodeInput(l', r') {
      NodeInputInjective(l, r, l', r');
    }
  }

  lemma {:induction false} ReconstructSoundness(
      h: Hash, inputs: seq<Bytes>, leaf: Digest, proof: seq<Digest>, index: nat)
    requires Tagged(inputs) && index < |inputs|
    requires Reconstruct(h, leaf, proof, index, |inputs|) == Some(LogRoot(h, inputs))
    ensures leaf == h(inputs[index]) || Collides(h, ProofCollision(h, inputs, leaf, proof, index))
    decreases |proof|
  {
    var n := |inputs|;
    if proof != [] {
      var k := Split(n);
      var sibling := proof[|proof| - 1];
      var inner := proof[..|proof| - 1];
      if n >= 2 {
        LogRootSplits(h, inputs);
        var l, r := LogRoot(h, inputs[..k]), LogRoot(h, inputs[k..]);
        if index < k {
          var left := Reconstruct(h, leaf, inner, index, k).value;
          if left == l && sibling == r {
            ReconstructSoundness(h, inputs[..k], leaf, inner, index);
          } else {
            NodeCollision(h, left, sibling, l, r);
          }
        } else {
          var right := Reconstruct(h, leaf, inner, index - k, n - k).value;
          if right == r && sibling == l {
            ReconstructSoundness(h, inputs[k..], leaf, inner, index - k);
          } else {
            NodeCollision(h, sibling, right, l, r);
          }
        }
      } else {
        var right := Reconstruct(h, leaf, inner, index, n).value;
        assert NodeInput(sibling, right)[0] == NODE_TAG;
      }
    }
  }

  /** Inclusion soundness, for proofs of any length: a proof accepted against a log's size
      and root proves the log's own leaf, or yields two inputs with one hash. */
  lemma InclusionSoundness(h: Hash, inputs: seq<Bytes>, leaf: Digest, proof: seq<Digest>, index: nat)
    requires Tagged(inputs)
    requires VerifyInclusion(h, leaf, proof, index, |inputs|, LogRoot(h, inputs))
    ensures leaf == h(inputs[index]) || Collides(h, ProofCollision(h, inputs, leaf, proof, index))
  {
    ReconstructSoundness(h, inputs, leaf, proof, index);
  }

  // ------------------------------------------------------------------------
  // Binding
  // ------------------------------------------------------------------------

  /** What the root of `inputs` is the hash of. */
  ghost function RootInput(h: Hash, inputs: seq<Bytes>): Bytes {
    if inputs == [] then []
    else if |inputs| == 1 then inputs[0]
    else
      var k := Split(|inputs|);
      NodeInput(LogRoot(h, inputs[..k]), LogRoot(h, inputs[k..]))
  }

  lemma RootIsHashOfInput(h: Hash, inputs: seq<Bytes>)
    ensures LogRoot(h, inputs) == h(RootInput(h, inputs))
  {
    if |inputs| >= 2 {
      LogRootSplits(h, inputs);
    }
  }

  /** The collision that two different logs under one root give away. */
  ghost function LogCollision(h: Hash, a: seq<Bytes>, b: seq<Bytes>): Collision
    decreases |a|
  {
    if |a| < 2 || |b| < 2 || RootInput(h, a) != RootInput(h, b) then
      Collision(RootInput(h, a), RootInput(h, b))
    else
      var j, k := Split(|a|), Split(|b|);
      if a[..j] != b[..k] then LogCollision(h, a[..j], b[..k]) else LogCollision(h, a[j..], b[k..])
  }

  /** A root commits to one log of tagged leaves: the same length and the same leaf inputs,
      or a collision. */
  lemma {:induction false} RootBindsLog(h: Hash, a: seq<Bytes>, b: seq<Bytes>)
    requires Tagged(a) && Tagged(b)
    requires LogRoot(h, a) == LogRoot(h, b)
    ensures a == b || Collides(h, LogCollision(h, a, b))
    decreases |a|
  {
    RootIsHashOfInput(h, a);
    RootIsHashOfInput(h, b);
    if RootInput(h, a) == RootInput(h, b) {
      if |a| >= 2 && |b| >= 2 {
        var j, k := Split(|a|), Split(|b|);
        NodeInputInjective(LogRoot(h, a[..j]), LogRoot(h, a[j..]), LogRoot(h, b[..k]), LogRoot(h, b[k..]));
        assert a == a[..j] + a[j..] && b == b[..k] + b[k..];
        if a[..j] != b[..k] {
          RootBindsLog(h, a[..j], b[..k]);
        } else {
          RootBindsLog(h, a[j..], b[k..]);
        }
      }
    }
  }
}
