/**
 * Verification of a consistency proof between two tree heads, as in section
 * 2.1.4.2 of RFC 9162, behind the guards the Merkle library applies before it
 * (sizes that shrink, equal sizes, an empty first tree, an empty proof).
 *
 * The algorithm keeps two running hashes: fr rebuilds the old root and sr the
 * new one, while fn and sn walk up the tree exactly as in inclusion
 * verification. `ConsistencyWalk` is that iteration as a function and
 * `VerifyConsistencyProof` is the loop itself. `WalkProjection` shows that
 * (fn, sn, sr) moves exactly as the inclusion walk does, so the new root is
 * checked as an inclusion proof of the seed node (`SecondRootIsInclusion`).
 *
 * `RootsFromProof` reads a seeded proof top-down, following the RFC 6962
 * definition of SUBPROOF, and yields both roots. The verifier accepts exactly
 * the proofs this reading maps to the two given roots
 * (`VerifyMatchesRootsReference`). From that, PROOF(m, D[n]) is accepted
 * (`ConsistencyComplete`), and an accepted proof between MTH(D1) and MTH(D2)
 * shows D1 to be a prefix of D2 unless it yields a SHA-256 collision
 * (`ConsistencySound`).
 */
module Consistency {
  import opened Wrappers
  import opened Merkle
  import opened Inclusion

  /** Step 4: right-shift fn and sn equally while LSB(fn) is set. */
  function ShiftWhileOdd(fn: nat, sn: nat): (r: (nat, nat))
    ensures r.0 % 2 == 0
    decreases fn
  {
    if fn % 2 == 1 then ShiftWhileOdd(fn / 2, sn / 2) else (fn, sn)
  }

  /** The variables (fn, sn, fr, sr) of the walk, or the failure of step 6: sn reached 0 with hashes left. */
  datatype ConsistencyState = Both(fn: nat, sn: nat, fr: Bytes, sr: Bytes) | Stopped

  /** One iteration of step 6 of section 2.1.4.2, for the proof element c. */
  function ConsistencyStep(h: Sha256, s: ConsistencyState, c: Bytes): ConsistencyState {
    match s
    case Stopped => Stopped
    case Both(fn, sn, fr, sr) =>
      if sn == 0 then Stopped
      else if fn % 2 == 1 || fn == sn then
        var (f, s') := ShiftUntilOdd(fn, sn);
        Both(f / 2, s' / 2, HashChildren(h, c, fr), HashChildren(h, c, sr))
      else
        Both(fn / 2, sn / 2, fr, HashChildren(h, sr, c))
  }

  /** The walk over the whole proof, one `ConsistencyStep` per element, first to last. */
  function ConsistencyWalk(h: Sha256, s: ConsistencyState, path: seq<Bytes>): ConsistencyState
    decreases |path|
  {
    if path == [] then s else ConsistencyStep(h, ConsistencyWalk(h, s, path[..|path| - 1]), path[|path| - 1])
  }

  /** Step 2: when the old size is an exact power of two, the old root is the first node of the path. */
  function SeededPath(size1: nat, proof: seq<Bytes>, root1: Bytes): (path: seq<Bytes>)
    ensures |path| >= |proof|
    ensures proof != [] ==> path != []
  {
    if IsPow2(size1) then [root1] + proof else proof
  }

  /**
   * The verdict of the Merkle library on a consistency proof from a tree of size1
   * leaves with root root1 to a tree of size2 leaves with root root2.
   */
  function VerifyConsistency(h: Sha256, size1: nat, size2: nat, proof: seq<Bytes>, root1: Bytes, root2: Bytes)
    : Outcome<ProofError>
  {
    if size2 < size1 then Fail(SizeDecreased)
    else if size1 == size2 then
      if proof != [] then Fail(NonEmptyProof)
      else if root1 != root2 then Fail(RootMismatch)
      else Pass
    else if size1 == 0 then
      if proof != [] then Fail(NonEmptyProof) else Pass
    else if proof == [] then Fail(EmptyProof)
    else
      var path := SeededPath(size1, proof, root1);
      var (fn, sn) := ShiftWhileOdd(size1 - 1, size2 - 1);
      match ConsistencyWalk(h, Both(fn, sn, path[0], path[0]), path[1..])
      case Stopped => Fail(WrongProofSize)
      case Both(_, sn', fr, sr) =>
        if sn' != 0 then Fail(WrongProofSize)
        else if fr != root1 then Fail(FirstRootMismatch)
        else if sr != root2 then Fail(RootMismatch)
        else Pass
  }

  /** The library's guards followed by the loop of section 2.1.4.2. */
  method VerifyConsistencyProof(h: Sha256, size1: nat, size2: nat, proof: seq<Bytes>, root1: Bytes, root2: Bytes)
    returns (result: Outcome<ProofError>)
    ensures result == VerifyConsistency(h, size1, size2, proof, root1, root2)
  {
    if size2 < size1 {
      return Fail(SizeDecreased);
    }
    if size1 == size2 {
      if |proof| > 0 {
        return Fail(NonEmptyProof);
      }
      if root1 != root2 {
        return Fail(RootMismatch);
      }
      return Pass;
    }
    if size1 == 0 {
      if |proof| > 0 {
        return Fail(NonEmptyProof);
      }
      return Pass;
    }
    if |proof| == 0 {
      return Fail(EmptyProof);
    }
    var path := proof;
    if IsPow2(size1) {
      path := [root1] + proof;
    }
    var fn: nat, sn: nat := size1 - 1, size2 - 1;
    while fn % 2 == 1
      invariant ShiftWhileOdd(fn, sn) == ShiftWhileOdd(size1 - 1, size2 - 1)
      decreases fn
    {
      fn, sn := fn / 2, sn / 2;
    }
    ghost var start := Both(fn, sn, path[0], path[0]);
    var fr, sr := path[0], path[0];
    var rest := path[1..];
    for i := 0 to |rest|
      invariant ConsistencyWalk(h, start, rest[..i]) == Both(fn, sn, fr, sr)
    {
      assert rest[..i + 1][..i] == rest[..i];
      if sn == 0 {
        StoppedPrefix(h, start, rest, i + 1);
        return Fail(WrongProofSize);
      }
      var c := rest[i];
      if fn % 2 == 1 || fn == sn {
        fr := HashChildren(h, c, fr);
        sr := HashChildren(h, c, sr);
        ghost var f0, s0 := fn, sn;
        while fn % 2 == 0 && fn != 0
          invariant ShiftUntilOdd(fn, sn) == ShiftUntilOdd(f0, s0)
          decreases fn
        {
          fn, sn := fn / 2, sn / 2;
        }
      } else {
        sr := HashChildren(h, sr, c);
      }
      fn, sn := fn / 2, sn / 2;
    }
    assert rest[..|rest|] == rest;
    if sn != 0 {
      return Fail(WrongProofSize);
    }
    if fr != root1 {
      return Fail(FirstRootMismatch);
    }
    if sr != root2 {
      return Fail(RootMismatch);
    }
    return Pass;
  }

  // ---------------------------------------------------------------------------
  // Algebra of the walk
  // ---------------------------------------------------------------------------

  lemma {:induction false} ConsistencyWalkAppend(h: Sha256, s: ConsistencyState, p: seq<Bytes>, q: seq<Bytes>)
    ensures ConsistencyWalk(h, s, p + q) == ConsistencyWalk(h, ConsistencyWalk(h, s, p), q)
    decreases |q|
  {
    if q == [] {
      assert p + q == p;
    } else {
      var q' := q[..|q| - 1];
      assert (p + q)[..|p + q| - 1] == p + q';
      ConsistencyWalkAppend(h, s, p, q');
    }
  }

  lemma {:induction false} StoppedSticks(h: Sha256, path: seq<Bytes>)
    ensures ConsistencyWalk(h, Stopped, path) == Stopped
    decreases |path|
  {
    if path != [] {
      StoppedSticks(h, path[..|path| - 1]);
    }
  }

  /** A walk stopped on a prefix of the path stays stopped over the whole path. */
  lemma StoppedPrefix(h: Sha256, s: ConsistencyState, path: seq<Bytes>, i: nat)
    requires i <= |path| && ConsistencyWalk(h, s, path[..i]) == Stopped
    ensures ConsistencyWalk(h, s, path) == Stopped
  {
    assert path == path[..i] + path[i..];
    ConsistencyWalkAppend(h, s, path[..i], path[i..]);
    StoppedSticks(h, path[i..]);
  }

  // ---------------------------------------------------------------------------
  // The new root is checked as an inclusion proof
  // ---------------------------------------------------------------------------

  /** Forgets fr: what is left is the state of an inclusion walk. */
  function Project(s: ConsistencyState): WalkState {
    match s
    case Stopped => Overrun
    case Both(fn, sn, _, sr) => At(fn, sn, sr)
  }

  /** fn, sn and sr move exactly as in the inclusion walk of section 2.1.3.2, whatever fr holds. */
  lemma {:induction false} WalkProjection(h: Sha256, s: ConsistencyState, path: seq<Bytes>)
    ensures Project(ConsistencyWalk(h, s, path)) == Walk(h, Project(s), path)
    decreases |path|
  {
    if path != [] {
      WalkProjection(h, s, path[..|path| - 1]);
    }
  }

  /**
   * A proof accepted from size1 to size2 is, after its seed, an inclusion proof of the
   * seed node: node fn of the level where the walk starts, in a tree whose last node
   * on that level is sn.
   */
  lemma SecondRootIsInclusion(h: Sha256, size1: nat, size2: nat, proof: seq<Bytes>, root1: Bytes, root2: Bytes)
    requires 0 < size1 < size2 && proof != []
    requires VerifyConsistency(h, size1, size2, proof, root1, root2) == Pass
    ensures var path := SeededPath(size1, proof, root1);
      var (fn, sn) := ShiftWhileOdd(size1 - 1, size2 - 1);
      fn <= sn && VerifyInclusion(h, fn, sn + 1, path[0], path[1..], root2) == Pass
  {
    var path := SeededPath(size1, proof, root1);
    var (fn, sn) := ShiftWhileOdd(size1 - 1, size2 - 1);
    StartOrdered(size1, size2);
    var start := Both(fn, sn, path[0], path[0]);
    var w := ConsistencyWalk(h, start, path[1..]);
    assert w.Both? && w.sn == 0 && w.sr == root2;
    WalkProjection(h, start, path[1..]);
    assert Walk(h, At(fn, sn, path[0]), path[1..]) == At(w.fn, 0, root2);
  }

  /** The walk between trees of size1 <= size2 leaves starts with fn <= sn. */
  lemma StartOrdered(size1: nat, size2: nat)
    requires 0 < size1 <= size2
    ensures ShiftWhileOdd(size1 - 1, size2 - 1).0 <= ShiftWhileOdd(size1 - 1, size2 - 1).1
  {
    ShiftWhileOddOrdered(size1 - 1, size2 - 1);
  }

  lemma {:induction false} ShiftWhileOddOrdered(fn: nat, sn: nat)
    requires fn <= sn
    ensures ShiftWhileOdd(fn, sn).0 <= ShiftWhileOdd(fn, sn).1
    decreases fn
  {
    if fn % 2 == 1 {
      ShiftWhileOddOrdered(fn / 2, sn / 2);
    }
  }

  // ---------------------------------------------------------------------------
  // The guards
  // ---------------------------------------------------------------------------

  /** A second tree smaller than the first is rejected, whatever the proof and roots. */
  lemma ShrinkingRejected(h: Sha256, size1: nat, size2: nat, proof: seq<Bytes>, root1: Bytes, root2: Bytes)
    requires size2 < size1
    ensures VerifyConsistency(h, size1, size2, proof, root1, root2) == Fail(SizeDecreased)
  {
  }

  /** Equal sizes: accepted exactly when there is no proof and the roots are equal. */
  lemma EqualSizes(h: Sha256, size: nat, proof: seq<Bytes>, root1: Bytes, root2: Bytes)
    ensures VerifyConsistency(h, size, size, proof, root1, root2) == Pass <==> proof == [] && root1 == root2
  {
  }

  /** Every tree extends the empty tree; the proof must then be empty. */
  lemma FromEmptyTree(h: Sha256, size2: nat, proof: seq<Bytes>, root1: Bytes, root2: Bytes)
    requires 0 < size2
    ensures VerifyConsistency(h, 0, size2, proof, root1, root2) == Pass <==> proof == []
  {
  }

  /** Between two non-empty trees of different sizes, an empty proof never passes. */
  lemma EmptyProofRejected(h: Sha256, size1: nat, size2: nat, root1: Bytes, root2: Bytes)
    requires 0 < size1 < size2
    ensures VerifyConsistency(h, size1, size2, [], root1, root2) == Fail(EmptyProof)
  {
  }
  // ---------------------------------------------------------------------------
  // The reference reading of a consistency proof: RFC 6962 section 2.1.2, top down
  // ---------------------------------------------------------------------------

  /** Number of hashes in SUBPROOF(m, D[n], false), the seeded proof from m to n leaves. */
  function ProofLen(m: nat, n: nat): (l: nat)
    requires 0 < m <= n
    ensures l >= 1
    decreases n
  {
    if m == n then 1
    else
      var k := Split(n);
      if m <= k then 1 + ProofLen(m, k) else 1 + ProofLen(m - k, n - k)
  }

  /**
   * The (old, new) roots that a seeded proof yields for trees of m <= n leaves, read
   * top down: the last hash is the sibling subtree at the top split k of the new tree;
   * the old tree lies within the left subtree when m <= k and covers it otherwise.
   */
  function RootsFromProof(h: Sha256, m: nat, n: nat, path: seq<Bytes>): Option<(Bytes, Bytes)>
    requires 0 < m <= n
    decreases n
  {
    if m == n then (if |path| == 1 then Some((path[0], path[0])) else None)
    else if path == [] then None
    else
      var k := Split(n);
      var last := path[|path| - 1];
      var init := path[..|path| - 1];
      if m <= k then
        match RootsFromProof(h, m, k, init)
        case None => None
        case Some((a, b)) => Some((a, HashChildren(h, b, last)))
      else
        match RootsFromProof(h, m - k, n - k, init)
        case None => None
        case Some((a, b)) => Some((HashChildren(h, last, a), HashChildren(h, last, b)))
  }

  /** The reference reading accepts exactly the proofs of the right length. */
  lemma {:induction false} RootsFromProofDefined(h: Sha256, m: nat, n: nat, path: seq<Bytes>)
    requires 0 < m <= n
    ensures RootsFromProof(h, m, n, path).Some? <==> |path| == ProofLen(m, n)
    decreases n
  {
    if m < n && path != [] {
      var k := Split(n);
      if m <= k {
        RootsFromProofDefined(h, m, k, path[..|path| - 1]);
      } else {
        RootsFromProofDefined(h, m - k, n - k, path[..|path| - 1]);
      }
    }
  }

  lemma {:induction false} SubProofLen(h: Sha256, m: nat, d: seq<Bytes>)
    requires 0 < m <= |d|
    ensures |SubProof(h, m, d, false)| == ProofLen(m, |d|)
    decreases |d|
  {
    if m < |d| {
      if m <= Split(|d|) {
        SubProofLen(h, m, d[..Split(|d|)]);
      } else {
        SubProofLen(h, m - Split(|d|), d[Split(|d|)..]);
      }
    }
  }

  /** SUBPROOF(m, D[n], false) yields the roots of the first m leaves and of all of D[n]. */
  lemma {:induction false} SubProofRoots(h: Sha256, m: nat, d: seq<Bytes>)
    requires 0 < m <= |d|
    ensures RootsFromProof(h, m, |d|, SubProof(h, m, d, false)) == Some((MTH(h, d[..m]), MTH(h, d)))
    decreases |d|, 1
  {
    if m == |d| {
      assert d[..m] == d;
    } else if m <= Split(|d|) {
      SubProofRootsLeft(h, m, d);
    } else {
      SubProofRootsRight(h, m, d, Split(|d|));
    }
  }

  lemma {:induction false} SubProofRootsLeft(h: Sha256, m: nat, d: seq<Bytes>)
    requires 1 < |d| && 0 < m <= Split(|d|)
    ensures RootsFromProof(h, m, |d|, SubProof(h, m, d, false)) == Some((MTH(h, d[..m]), MTH(h, d)))
    decreases |d|, 0
  {
    var k := Split(|d|);
    var e := d[..k];
    var p := SubProof(h, m, e, false);
    SubProofRoots(h, m, e);
    assert e[..m] == d[..m];
    MTHSplit(h, d);
    assert SubProof(h, m, d, false) == p + [MTH(h, d[k..])];
    assert (p + [MTH(h, d[k..])])[..|p|] == p;
  }

  lemma {:induction false} SubProofRootsRight(h: Sha256, m: nat, d: seq<Bytes>, k: nat)
    requires 1 < |d| && k == Split(|d|) && k < m < |d|
    ensures RootsFromProof(h, m, |d|, SubProof(h, m, d, false)) == Some((MTH(h, d[..m]), MTH(h, d)))
    decreases |d|, 0
  {
    SubProofRoots(h, m - k, d[k..]);
    SubProofRootsJoinRight(h, m, d, k, d[k..]);
  }

  /** The step of SubProofRootsRight once the roots of the right subtree's proof are known. */
  lemma SubProofRootsJoinRight(h: Sha256, m: nat, d: seq<Bytes>, k: nat, e: seq<Bytes>)
    requires 1 < |d| && k == Split(|d|) && k < m < |d| && e == d[k..]
    requires RootsFromProof(h, m - k, |e|, SubProof(h, m - k, e, false)) == Some((MTH(h, e[..m - k]), MTH(h, e)))
    ensures RootsFromProof(h, m, |d|, SubProof(h, m, d, false)) == Some((MTH(h, d[..m]), MTH(h, d)))
  {
    var p := SubProof(h, m - k, e, false);
    var last := MTH(h, d[..k]);
    assert SubProof(h, m, d, false) == p + [last];
    RootsFromProofRightSplit(h, m, |d|, k, m - k, |e|, p, last, MTH(h, e[..m - k]), MTH(h, e));
    MTHSplit(h, d);
    OldRootRight(h, m, d);
  }

  /** An old tree that reaches past the top split k is the left subtree joined to the first m - k leaves after it. */
  lemma OldRootRight(h: Sha256, m: nat, d: seq<Bytes>)
    requires 1 < |d| && Split(|d|) < m < |d|
    ensures MTH(h, d[..m]) == HashChildren(h, MTH(h, d[..Split(|d|)]), MTH(h, d[Split(|d|)..][..m - Split(|d|)]))
  {
    SplitExpUnique(m, SplitExp(|d|));
    MTHSplit(h, d[..m]);
    assert d[..m][..Split(|d|)] == d[..Split(|d|)];
    assert d[..m][Split(|d|)..] == d[Split(|d|)..][..m - Split(|d|)];
  }

  lemma SubProofNonEmpty(h: Sha256, m: nat, d: seq<Bytes>)
    requires 0 < m < |d|
    ensures SubProof(h, m, d, true) != []
  {
  }

  /** An old size above the top split of a larger tree is never a power of two. */
  lemma NotPow2AboveSplit(m: nat, n: nat)
    requires 1 < n && Split(n) < m < n
    ensures !IsPow2(m)
  {
    if IsPow2(m) {
      var em := IsPow2IsSomePow2(m);
      var ek := SplitExp(n);
      if em < ek {
        Pow2Monotone(em, ek);
      } else if ek < em {
        Pow2Monotone(ek, em);
      }
    }
  }

  /**
   * The seed of step 2 of section 2.1.4.2 restores the node that SUBPROOF drops: with
   * the flag false, SUBPROOF differs from PROOF exactly by the old root in front, and
   * only when the old size is a power of two.
   */
  lemma {:induction false} SeedRestoresSubProof(h: Sha256, m: nat, d: seq<Bytes>)
    requires 0 < m <= |d| && (m < |d| || IsPow2(m))
    ensures SubProof(h, m, d, false)
      == if IsPow2(m) then [MTH(h, d[..m])] + SubProof(h, m, d, true) else SubProof(h, m, d, true)
    decreases |d|, 1
  {
    if m == |d| {
      assert d[..m] == d;
    } else if m <= Split(|d|) {
      SeedRestoresSubProofLeft(h, m, d);
    } else {
      NotPow2AboveSplit(m, |d|);
    }
  }

  lemma {:induction false} SeedRestoresSubProofLeft(h: Sha256, m: nat, d: seq<Bytes>)
    requires 1 < |d| && 0 < m <= Split(|d|)
    ensures SubProof(h, m, d, false)
      == if IsPow2(m) then [MTH(h, d[..m])] + SubProof(h, m, d, true) else SubProof(h, m, d, true)
    decreases |d|, 0
  {
    var k := Split(|d|);
    var e := d[..k];
    var y := MTH(h, d[k..]);
    if m == k {
      Pow2IsPow2(SplitExp(|d|));
    }
    SeedRestoresSubProof(h, m, e);
    var pt := SubProof(h, m, e, true);
    assert SubProof(h, m, d, true) == pt + [y];
    assert SubProof(h, m, d, false) == SubProof(h, m, e, false) + [y];
    if IsPow2(m) {
      assert e[..m] == d[..m];
      assert ([MTH(h, d[..m])] + pt) + [y] == [MTH(h, d[..m])] + (pt + [y]);
    }
  }

  // ---------------------------------------------------------------------------
  // The walk agrees with the reference reading
  // ---------------------------------------------------------------------------

  lemma ConsistencyWalkFront(h: Sha256, s: ConsistencyState, path: seq<Bytes>)
    requires path != []
    ensures ConsistencyWalk(h, s, path) == ConsistencyWalk(h, ConsistencyStep(h, s, path[0]), path[1..])
  {
    assert path == [path[0]] + path[1..];
    ConsistencyWalkAppend(h, s, [path[0]], path[1..]);
    assert ConsistencyWalk(h, s, [path[0]]) == ConsistencyStep(h, ConsistencyWalk(h, s, []), path[0]);
  }

  /** The walk over init + [last] is the walk over init followed by one step on last. */
  lemma ConsistencyWalkBack(h: Sha256, s: ConsistencyState, init: seq<Bytes>, last: Bytes)
    ensures ConsistencyWalk(h, s, init + [last]) == ConsistencyStep(h, ConsistencyWalk(h, s, init), last)
  {
    assert (init + [last])[..|init|] == init;
  }

  /** A walk that does not stop starts with sn above 0. */
  lemma ConsistencyFirstStepLive(h: Sha256, fn: nat, sn: nat, fr: Bytes, sr: Bytes, path: seq<Bytes>)
    requires path != [] && ConsistencyWalk(h, Both(fn, sn, fr, sr), path).Both?
    ensures sn != 0
  {
    if sn == 0 {
      ConsistencyWalkFront(h, Both(fn, sn, fr, sr), path);
      StoppedSticks(h, path[1..]);
    }
  }

  /** One step of the consistency walk projects onto one step of the inclusion walk. */
  lemma ProjectStep(h: Sha256, s: ConsistencyState, x: Bytes)
    ensures Project(ConsistencyStep(h, s, x)) == Step(h, Project(s), x)
  {
  }

  /**
   * Shifting from the last leaves of a perfect subtree of 2^e leaves: fn is shifted
   * alike whether sn is the last leaf of the subtree or a leaf beyond it in the next
   * subtree, and both stay in the same bands for the perfect subtree of 2^d nodes
   * where the shifting stops.
   */
  lemma {:induction false} ShiftWhileOddBand(fn: nat, s1: nat, s2: nat, e: nat) returns (d: nat)
    requires fn < Pow2(e) && s1 == Pow2(e) - 1 && Pow2(e) <= s2 < 2 * Pow2(e)
    ensures ShiftWhileOdd(fn, s1).0 == ShiftWhileOdd(fn, s2).0 < Pow2(d)
    ensures ShiftWhileOdd(fn, s1).1 == Pow2(d) - 1
    ensures Pow2(d) <= ShiftWhileOdd(fn, s2).1 < 2 * Pow2(d)
    decreases fn
  {
    if fn % 2 == 1 {
      assert e >= 1 && Pow2(e) == 2 * Pow2(e - 1);
      d := ShiftWhileOddBand(fn / 2, s1 / 2, s2 / 2, e - 1);
    } else {
      d := e;
    }
  }

  lemma {:induction false} ShiftWhileOddDiagonal(x: nat)
    ensures ShiftWhileOdd(x, x).0 == ShiftWhileOdd(x, x).1
    decreases x
  {
    if x % 2 == 1 {
      ShiftWhileOddDiagonal(x / 2);
    }
  }

  /** Shifting a node index and a last index that both carry one extra high bit c (fc = fn + c, sc = sn + c). */
  lemma {:induction false} ShiftWhileOddOffset(fn: nat, sn: nat, c: nat, fc: nat, sc: nat) returns (c': nat)
    requires IsPow2(c) && fn < sn < c && fc == fn + c && sc == sn + c
    ensures IsPow2(c') && ShiftWhileOdd(fn, sn).1 < c'
    ensures ShiftWhileOdd(fc, sc).0 == ShiftWhileOdd(fn, sn).0 + c'
    ensures ShiftWhileOdd(fc, sc).1 == ShiftWhileOdd(fn, sn).1 + c'
    decreases fn
  {
    assert c >= 2 && c % 2 == 0;
    if fn % 2 == 1 {
      assert fc / 2 == fn / 2 + c / 2 && sc / 2 == sn / 2 + c / 2;
      assert fc % 2 == 1;
      c' := ShiftWhileOddOffset(fn / 2, sn / 2, c / 2, fc / 2, sc / 2);
    } else {
      assert fc % 2 == 0;
      c' := c;
    }
  }

  /**
   * Inside a perfect subtree of 2^d nodes both running hashes turn on the bits of fn
   * alone: sn only has to lie in [2^d - 1, 2^(d+1)).
   */
  lemma {:induction false} PerfectConsistencyWalk(h: Sha256, fn: nat, s1: nat, s2: nat, fr: Bytes, sr: Bytes, path: seq<Bytes>, d: nat)
    returns (fr': Bytes, sr': Bytes)
    requires fn < Pow2(d) && |path| == d
    requires Pow2(d) - 1 <= s1 < 2 * Pow2(d)
    requires Pow2(d) - 1 <= s2 < 2 * Pow2(d)
    ensures ConsistencyWalk(h, Both(fn, s1, fr, sr), path) == Both(0, if s1 >= Pow2(d) then 1 else 0, fr', sr')
    ensures ConsistencyWalk(h, Both(fn, s2, fr, sr), path) == Both(0, if s2 >= Pow2(d) then 1 else 0, fr', sr')
    decreases d
  {
    if d == 0 {
      fr', sr' := fr, sr;
    } else {
      ConsistencyWalkFront(h, Both(fn, s1, fr, sr), path);
      ConsistencyWalkFront(h, Both(fn, s2, fr, sr), path);
      PerfectConsistencyStep(h, fn, s1, fr, sr, path[0], d);
      PerfectConsistencyStep(h, fn, s2, fr, sr, path[0], d);
      fr', sr' := PerfectConsistencyWalk(h, fn / 2, s1 / 2, s2 / 2,
        if fn % 2 == 1 then HashChildren(h, path[0], fr) else fr,
        if fn % 2 == 1 then HashChildren(h, path[0], sr) else HashChildren(h, sr, path[0]),
        path[1..], d - 1);
    }
  }

  /** One step inside a perfect subtree of 2^d nodes, d > 0: the bit of fn alone decides the side. */
  lemma PerfectConsistencyStep(h: Sha256, fn: nat, sn: nat, fr: Bytes, sr: Bytes, x: Bytes, d: nat)
    requires 0 < d && fn < Pow2(d) && Pow2(d) - 1 <= sn < 2 * Pow2(d)
    ensures fn / 2 < Pow2(d - 1) && Pow2(d - 1) - 1 <= sn / 2 < 2 * Pow2(d - 1)
    ensures ConsistencyStep(h, Both(fn, sn, fr, sr), x)
      == Both(fn / 2, sn / 2, if fn % 2 == 1 then HashChildren(h, x, fr) else fr,
              if fn % 2 == 1 then HashChildren(h, x, sr) else HashChildren(h, sr, x))
  {
    assert Pow2(d) == 2 * Pow2(d - 1);
  }

  /** Adding a power of two c > 1 keeps the parity of fn. */
  lemma OffsetParity(fn: nat, c: nat)
    requires IsPow2(c) && c > 1
    ensures (fn + c) % 2 == fn % 2
  {
    assert c % 2 == 0;
  }

  /** One step from (fc, sc) = (fn + c, sn + c) mirrors the step from (fn, sn), with the extra bit shifted along. */
  lemma ConsistencyStepOffset(h: Sha256, fn: nat, sn: nat, fr: Bytes, sr: Bytes, x: Bytes, c: nat, fc: nat, sc: nat)
    returns (fn': nat, sn': nat, fr': Bytes, sr': Bytes, c': nat, fc': nat, sc': nat)
    requires IsPow2(c) && fn <= sn < c && sn != 0 && fc == fn + c && sc == sn + c
    ensures IsPow2(c') && fn' <= sn' < c' && fc' == fn' + c' && sc' == sn' + c'
    ensures ConsistencyStep(h, Both(fn, sn, fr, sr), x) == Both(fn', sn', fr', sr')
    ensures ConsistencyStep(h, Both(fc, sc, fr, sr), x) == Both(fc', sc', fr', sr')
  {
    fn', sn', sr', c' := StepOffset(h, fn, sn, sr, x, c);
    OffsetParity(fn, c);
    fc', sc' := fn' + c', sn' + c';
    fr' := if fn % 2 == 1 || fn == sn then HashChildren(h, x, fr) else fr;
    ProjectStep(h, Both(fn, sn, fr, sr), x);
    ProjectStep(h, Both(fc, sc, fr, sr), x);
    assert At(fc, sc, sr) == At(fn + c, sn + c, sr);
  }

  /**
   * A walk from (fc, sc) = (fn + c, sn + c), where c is a power of two above sn, computes
   * the same two hashes as the walk from (fn, sn), as long as the latter does not stop.
   */
  lemma {:induction false} ConsistencyOffsetWalk(h: Sha256, fn: nat, sn: nat, fr: Bytes, sr: Bytes, path: seq<Bytes>, c: nat, fc: nat, sc: nat)
    returns (c': nat)
    requires IsPow2(c) && fn <= sn < c && fc == fn + c && sc == sn + c
    requires ConsistencyWalk(h, Both(fn, sn, fr, sr), path).Both?
    ensures var w := ConsistencyWalk(h, Both(fn, sn, fr, sr), path);
      IsPow2(c') && w.sn < c'
      && ConsistencyWalk(h, Both(fc, sc, fr, sr), path) == Both(w.fn + c', w.sn + c', w.fr, w.sr)
    decreases |path|
  {
    if path == [] {
      c' := c;
    } else {
      ConsistencyFirstStepLive(h, fn, sn, fr, sr, path);
      var fn', sn', fr', sr', c2, fc', sc' := ConsistencyStepOffset(h, fn, sn, fr, sr, path[0], c, fc, sc);
      ConsistencyWalkFront(h, Both(fn, sn, fr, sr), path);
      ConsistencyWalkFront(h, Both(fc, sc, fr, sr), path);
      c' := ConsistencyOffsetWalk(h, fn', sn', fr', sr', path[1..], c2, fc', sc');
    }
  }

  /** From fn = sn = a power of two, one step hashes the proof element on the left of both roots and stops. */
  lemma ConsistencyStepAtTop(h: Sha256, c: nat, fr: Bytes, sr: Bytes, x: Bytes)
    requires IsPow2(c)
    ensures ConsistencyStep(h, Both(c, c, fr, sr), x) == Both(0, 0, HashChildren(h, x, fr), HashChildren(h, x, sr))
  {
    ProjectStep(h, Both(c, c, fr, sr), x);
    StepAtTop(h, c, sr, x);
  }

  /** One level below the top, on the left spine, a step hashes the proof element on the right of the new root only. */
  lemma ConsistencyStepBelowTop(h: Sha256, fr: Bytes, sr: Bytes, x: Bytes)
    ensures ConsistencyStep(h, Both(0, 1, fr, sr), x) == Both(0, 0, fr, HashChildren(h, sr, x))
  {
  }

  /**
   * On a proof of the right length the walk ends at sn = 0 with the two reference roots.
   * i1 and i2 are the indices m - 1 and n - 1 of the last leaves of the two trees.
   */
  lemma {:induction false} WalkMatchesRoots(h: Sha256, m: nat, n: nat, i1: nat, i2: nat, path: seq<Bytes>) returns (a: Bytes, b: Bytes)
    requires 0 < m < n && i1 + 1 == m && i2 + 1 == n && |path| == ProofLen(m, n)
    ensures RootsFromProof(h, m, n, path) == Some((a, b))
    ensures ConsistencyWalk(h, Both(ShiftWhileOdd(i1, i2).0, ShiftWhileOdd(i1, i2).1, path[0], path[0]), path[1..])
      == Both(0, 0, a, b)
    decreases n, 1
  {
    var k := Split(n);
    var init, last := path[..|path| - 1], path[|path| - 1];
    assert path == init + [last];
    assert |init| >= 1 by {
      if m <= k {
        assert |init| == ProofLen(m, k);
      } else {
        assert |init| == ProofLen(m - k, n - k);
      }
    }
    assert path[0] == init[0] && path[1..] == init[1..] + [last];
    if m < k {
      a, b := WalkMatchesRootsLeft(h, m, n, k, i1, i2, k - 1, init, last);
    } else if m == k {
      a, b := WalkMatchesRootsSpine(h, m, n, i1, i2, init, last);
    } else {
      a, b := WalkMatchesRootsRight(h, m, n, k, m - k, n - k, i1, i2, m - k - 1, n - k - 1, init, last);
    }
  }

  lemma Pow2Parity(d: nat)
    ensures d == 0 || Pow2(d) % 2 == 0
  {
  }

  /** The old tree is the whole left subtree of the top split: the proof is its root and its sibling. */
  lemma {:induction false} WalkMatchesRootsSpine(h: Sha256, m: nat, n: nat, i1: nat, i2: nat, init: seq<Bytes>, last: Bytes)
    returns (a: Bytes, b: Bytes)
    requires 1 < n && m == Split(n) && i1 + 1 == m && i2 + 1 == n && |init + [last]| == ProofLen(m, n)
    ensures RootsFromProof(h, m, n, init + [last]) == Some((a, b))
    ensures ConsistencyWalk(h, Both(ShiftWhileOdd(i1, i2).0, ShiftWhileOdd(i1, i2).1, init[0], init[0]), [last])
      == Both(0, 0, a, b)
  {
    assert init == [init[0]];
    var d := ShiftWhileOddBand(i1, i1, i2, SplitExp(n));
    ShiftWhileOddDiagonal(i1);
    Pow2Parity(d);
    assert ShiftWhileOdd(i1, i2) == (0, 1);
    ConsistencyWalkBack(h, Both(0, 1, init[0], init[0]), [], last);
    assert [] + [last] == [last];
    assert (init + [last])[..1] == [init[0]];
    a, b := init[0], HashChildren(h, init[0], last);
  }

  /** The old tree lies strictly inside the left, perfect subtree of the top split (k1 = k - 1). */
  lemma {:induction false} WalkMatchesRootsLeft(h: Sha256, m: nat, n: nat, k: nat, i1: nat, i2: nat, k1: nat, init: seq<Bytes>, last: Bytes)
    returns (a: Bytes, b: Bytes)
    requires 1 < n && k == Split(n) && 0 < m < k && i1 + 1 == m && i2 + 1 == n && k1 + 1 == k
    requires |init + [last]| == ProofLen(m, n)
    ensures RootsFromProof(h, m, n, init + [last]) == Some((a, b))
    ensures ConsistencyWalk(h, Both(ShiftWhileOdd(i1, i2).0, ShiftWhileOdd(i1, i2).1, init[0], init[0]), init[1..] + [last])
      == Both(0, 0, a, b)
    decreases n, 0
  {
    var a', b' := WalkMatchesRoots(h, m, k, i1, k1, init);
    LeftSubtreeThenTop(h, i1, k1, i2, SplitExp(n), init[0], init[1..], last, a', b');
    RootsFromProofLeftSplit(h, m, n, k, init, last, a', b');
    a, b := a', HashChildren(h, b', last);
  }

  /**
   * The walk of the left subtree of 2^e leaves, started with the last index s2 of the
   * whole tree, then one more step with the root of the right subtree.
   */
  lemma LeftSubtreeThenTop(h: Sha256, fn: nat, s1: nat, s2: nat, e: nat, x: Bytes, rest: seq<Bytes>, last: Bytes, a: Bytes, b: Bytes)
    requires fn < Pow2(e) && s1 == Pow2(e) - 1 && Pow2(e) <= s2 < 2 * Pow2(e)
    requires ConsistencyWalk(h, Both(ShiftWhileOdd(fn, s1).0, ShiftWhileOdd(fn, s1).1, x, x), rest) == Both(0, 0, a, b)
    ensures ConsistencyWalk(h, Both(ShiftWhileOdd(fn, s2).0, ShiftWhileOdd(fn, s2).1, x, x), rest + [last])
      == Both(0, 0, a, HashChildren(h, b, last))
  {
    var d := ShiftWhileOddBand(fn, s1, s2, e);
    LeftSubtreeWalk(h, d, ShiftWhileOdd(fn, s1).0, ShiftWhileOdd(fn, s1).1, ShiftWhileOdd(fn, s2).1, x, rest, a, b);
    ConsistencyWalkBack(h, Both(ShiftWhileOdd(fn, s2).0, ShiftWhileOdd(fn, s2).1, x, x), rest, last);
    ConsistencyStepBelowTop(h, a, b, last);
  }

  /**
   * The walk of the left, perfect subtree of 2^d nodes, started with the last index sn
   * of the whole tree instead of that of the subtree, ends one level below the top.
   */
  lemma LeftSubtreeWalk(h: Sha256, d: nat, f: nat, s1: nat, s2: nat, x: Bytes, rest: seq<Bytes>, a: Bytes, b: Bytes)
    requires f < Pow2(d) && s1 == Pow2(d) - 1 && Pow2(d) <= s2 < 2 * Pow2(d)
    requires ConsistencyWalk(h, Both(f, s1, x, x), rest) == Both(0, 0, a, b)
    ensures ConsistencyWalk(h, Both(f, s2, x, x), rest) == Both(0, 1, a, b)
  {
    WalkProjection(h, Both(f, s1, x, x), rest);
    PerfectWalkLength(h, f, Pow2(d), d, x, rest, b);
    var fr', sr' := PerfectConsistencyWalk(h, f, s1, s2, x, x, rest, d);
  }

  /** A walk of a perfect subtree of 2^d nodes that ends at the top took exactly d steps. */
  lemma PerfectWalkLength(h: Sha256, f: nat, n: nat, d: nat, x: Bytes, rest: seq<Bytes>, r: Bytes)
    requires n == Pow2(d) && f < n
    requires Walk(h, At(f, n - 1, x), rest) == At(0, 0, r)
    ensures |rest| == d
  {
    PerfectPathLen(f, d);
    if |rest| < PathLen(f, n) {
      ShortPathStops(h, f, n, x, rest);
    } else if |rest| > PathLen(f, n) {
      LongPathOverruns(h, f, n, x, rest);
    }
  }

  lemma RootsFromProofLeftSplit(h: Sha256, m: nat, n: nat, k: nat, init: seq<Bytes>, last: Bytes, a: Bytes, b: Bytes)
    requires 1 < n && k == Split(n) && 0 < m < k
    requires RootsFromProof(h, m, k, init) == Some((a, b))
    ensures RootsFromProof(h, m, n, init + [last]) == Some((a, HashChildren(h, b, last)))
  {
    assert (init + [last])[..|init|] == init;
  }

  /**
   * The old tree covers the left subtree of the top split and part of the right one;
   * j1 and nk1 are the indices of the last leaves of the two trees inside the right subtree.
   */
  lemma {:induction false} WalkMatchesRootsRight(h: Sha256, m: nat, n: nat, k: nat, j: nat, nk: nat, i1: nat, i2: nat, j1: nat, nk1: nat,
                                                 init: seq<Bytes>, last: Bytes)
    returns (a: Bytes, b: Bytes)
    requires 1 < n && k == Split(n) && k < m < n && j == m - k && nk == n - k
    requires i1 + 1 == m && i2 + 1 == n && j1 + 1 == j && nk1 + 1 == nk && |init + [last]| == ProofLen(m, n)
    ensures RootsFromProof(h, m, n, init + [last]) == Some((a, b))
    ensures ConsistencyWalk(h, Both(ShiftWhileOdd(i1, i2).0, ShiftWhileOdd(i1, i2).1, init[0], init[0]), init[1..] + [last])
      == Both(0, 0, a, b)
    decreases n, 0
  {
    assert |init| == ProofLen(j, nk);
    var a', b' := WalkMatchesRoots(h, j, nk, j1, nk1, init);
    Pow2IsPow2(SplitExp(n));
    var c := RightSubtreeWalkTop(h, k, j1, nk1, i1, i2, init[0], init[1..], a', b');
    ConsistencyStepAtTop(h, c, a', b', last);
    ConsistencyWalkBack(h, Both(ShiftWhileOdd(i1, i2).0, ShiftWhileOdd(i1, i2).1, init[0], init[0]), init[1..], last);
    RootsFromProofRightSplit(h, m, n, k, j, nk, init, last, a', b');
    a, b := HashChildren(h, last, a'), HashChildren(h, last, b');
  }

  /**
   * The walk of the right subtree, started from the indices i1 = j1 + k and i2 = nk1 + k of
   * the whole tree, ends at fn = sn = the extra high bit.
   */
  lemma RightSubtreeWalkTop(h: Sha256, k: nat, j1: nat, nk1: nat, i1: nat, i2: nat, x: Bytes, rest: seq<Bytes>, a: Bytes, b: Bytes)
    returns (c: nat)
    requires IsPow2(k) && j1 < nk1 < k && i1 == j1 + k && i2 == nk1 + k
    requires ConsistencyWalk(h, Both(ShiftWhileOdd(j1, nk1).0, ShiftWhileOdd(j1, nk1).1, x, x), rest) == Both(0, 0, a, b)
    ensures IsPow2(c)
    ensures ConsistencyWalk(h, Both(ShiftWhileOdd(i1, i2).0, ShiftWhileOdd(i1, i2).1, x, x), rest) == Both(c, c, a, b)
  {
    var c1 := ShiftWhileOddOffset(j1, nk1, k, i1, i2);
    ShiftWhileOddOrdered(j1, nk1);
    c := ConsistencyOffsetWalk(h, ShiftWhileOdd(j1, nk1).0, ShiftWhileOdd(j1, nk1).1, x, x, rest, c1, ShiftWhileOdd(i1, i2).0, ShiftWhileOdd(i1, i2).1);
  }

  lemma RootsFromProofRightSplit(h: Sha256, m: nat, n: nat, k: nat, j: nat, nk: nat, init: seq<Bytes>, last: Bytes, a: Bytes, b: Bytes)
    requires 1 < n && k == Split(n) && k < m < n && j == m - k && nk == n - k
    requires RootsFromProof(h, j, nk, init) == Some((a, b))
    ensures RootsFromProof(h, m, n, init + [last]) == Some((HashChildren(h, last, a), HashChildren(h, last, b)))
  {
    assert (init + [last])[..|init|] == init;
  }

  // ---------------------------------------------------------------------------
  // Completeness
  // ---------------------------------------------------------------------------

  /**
   * Every consistency proof built as in section 2.1.2 of RFC 6962, PROOF(m, D[n]),
   * passes between the honest roots MTH(D[0:m]) and MTH(D[n]).
   */
  lemma ConsistencyComplete(h: Sha256, m: nat, d: seq<Bytes>)
    requires 0 < m < |d|
    ensures VerifyConsistency(h, m, |d|, ConsistencyProof(h, m, d), MTH(h, d[..m]), MTH(h, d)) == Pass
  {
    SeededProofIsSubProof(h, m, d);
    SubProofLen(h, m, d);
    SubProofRoots(h, m, d);
    AcceptedByReference(h, m, |d|, ConsistencyProof(h, m, d), SubProof(h, m, d, false), MTH(h, d[..m]), MTH(h, d));
  }

  /** A proof whose seeded path the reference reads as (root1, root2) is accepted between those roots. */
  lemma AcceptedByReference(h: Sha256, m: nat, n: nat, proof: seq<Bytes>, path: seq<Bytes>, root1: Bytes, root2: Bytes)
    requires 0 < m < n && proof != [] && path == SeededPath(m, proof, root1)
    requires |path| == ProofLen(m, n) && RootsFromProof(h, m, n, path) == Some((root1, root2))
    ensures VerifyConsistency(h, m, n, proof, root1, root2) == Pass
  {
    var i1, i2 := m - 1, n - 1;
    var a, b := WalkMatchesRoots(h, m, n, i1, i2, path);
    AcceptedAtRoots(h, m, n, i1, i2, proof, root1, root2, path);
  }

  /** PROOF(m, D[n]) is not empty and, once seeded, is SUBPROOF(m, D[n], false). */
  lemma SeededProofIsSubProof(h: Sha256, m: nat, d: seq<Bytes>)
    requires 0 < m < |d|
    ensures ConsistencyProof(h, m, d) != []
    ensures SeededPath(m, ConsistencyProof(h, m, d), MTH(h, d[..m])) == SubProof(h, m, d, false)
  {
    SeedRestoresSubProof(h, m, d);
    SubProofNonEmpty(h, m, d);
  }

  /** The verdict is Pass once the walk over the seeded path ends at sn = 0 with both roots. */
  lemma AcceptedAtRoots(h: Sha256, m: nat, n: nat, i1: nat, i2: nat, proof: seq<Bytes>, root1: Bytes, root2: Bytes, path: seq<Bytes>)
    requires 0 < m < n && i1 + 1 == m && i2 + 1 == n
    requires proof != []
    requires path == SeededPath(m, proof, root1)
    requires ConsistencyWalk(h, Both(ShiftWhileOdd(i1, i2).0, ShiftWhileOdd(i1, i2).1, path[0], path[0]), path[1..])
      == Both(0, 0, root1, root2)
    ensures VerifyConsistency(h, m, n, proof, root1, root2) == Pass
  {
  }

  // ---------------------------------------------------------------------------
  // Soundness: the old tree is a prefix of the new one
  // ---------------------------------------------------------------------------

  /** An accepted proof walks from the shifted last indices to sn = 0 with the two roots. */
  lemma AcceptedWalk(h: Sha256, m: nat, n: nat, i1: nat, i2: nat, proof: seq<Bytes>, root1: Bytes, root2: Bytes)
    requires 0 < m < n && i1 + 1 == m && i2 + 1 == n
    requires VerifyConsistency(h, m, n, proof, root1, root2) == Pass
    ensures proof != [] && ShiftWhileOdd(i1, i2).0 <= ShiftWhileOdd(i1, i2).1
    ensures var path := SeededPath(m, proof, root1);
      var w := ConsistencyWalk(h, Both(ShiftWhileOdd(i1, i2).0, ShiftWhileOdd(i1, i2).1, path[0], path[0]), path[1..]);
      w.Both? && w.sn == 0 && w.fr == root1 && w.sr == root2
  {
    ShiftWhileOddOrdered(i1, i2);
  }

  /** A walk from (fn, sn) that ends at sn = 0 has consumed exactly the hashes of an audit path. */
  lemma ConsistencyWalkLength(h: Sha256, fn: nat, sn: nat, x: Bytes, rest: seq<Bytes>)
    requires fn <= sn
    requires ConsistencyWalk(h, Both(fn, sn, x, x), rest).Both? && ConsistencyWalk(h, Both(fn, sn, x, x), rest).sn == 0
    ensures |rest| == PathLen(fn, sn + 1)
  {
    WalkProjection(h, Both(fn, sn, x, x), rest);
    WalkLengthAtZero(h, fn, sn, sn + 1, x, rest);
  }

  /** A seeded proof of the length of SUBPROOF walks to sn = 0. */
  lemma ProofLenWalkEnds(h: Sha256, m: nat, n: nat, i1: nat, i2: nat, fn: nat, sn: nat, path: seq<Bytes>)
    requires 0 < m < n && i1 + 1 == m && i2 + 1 == n && |path| == ProofLen(m, n)
    requires fn == ShiftWhileOdd(i1, i2).0 && sn == ShiftWhileOdd(i1, i2).1
    ensures ConsistencyWalk(h, Both(fn, sn, path[0], path[0]), path[1..]).Both?
    ensures ConsistencyWalk(h, Both(fn, sn, path[0], path[0]), path[1..]).sn == 0
  {
    var a, b := WalkMatchesRoots(h, m, n, i1, i2, path);
  }

  /** Any proof of a given length: the walk's shape does not depend on the hashes. */
  function Blanks(len: nat): (path: seq<Bytes>)
    ensures |path| == len
  {
    if len == 0 then [] else Blanks(len - 1) + [[]]
  }

  /** SUBPROOF is, after its seed, as long as an audit path of the seed node. */
  lemma ProofLenIsPathLen(h: Sha256, m: nat, n: nat, i1: nat, i2: nat, fn: nat, sn: nat)
    requires 0 < m < n && i1 + 1 == m && i2 + 1 == n
    requires fn == ShiftWhileOdd(i1, i2).0 && sn == ShiftWhileOdd(i1, i2).1 && fn <= sn
    ensures ProofLen(m, n) == PathLen(fn, sn + 1) + 1
  {
    var path := Blanks(ProofLen(m, n));
    ProofLenWalkEnds(h, m, n, i1, i2, fn, sn, path);
    ConsistencyWalkLength(h, fn, sn, path[0], path[1..]);
  }

  /** A walk from the shifted last indices that ends at sn = 0 has read a proof of the length of SUBPROOF. */
  lemma WalkLength(h: Sha256, m: nat, n: nat, i1: nat, i2: nat, fn: nat, sn: nat, x: Bytes, rest: seq<Bytes>)
    requires 0 < m < n && i1 + 1 == m && i2 + 1 == n
    requires fn == ShiftWhileOdd(i1, i2).0 && sn == ShiftWhileOdd(i1, i2).1 && fn <= sn
    requires ConsistencyWalk(h, Both(fn, sn, x, x), rest).Both? && ConsistencyWalk(h, Both(fn, sn, x, x), rest).sn == 0
    ensures |rest| + 1 == ProofLen(m, n)
  {
    ConsistencyWalkLength(h, fn, sn, x, rest);
    ProofLenIsPathLen(h, m, n, i1, i2, fn, sn);
  }

  /** The reference reading of an accepted proof gives the two roots it was accepted between. */
  lemma AcceptedReadsRoots(h: Sha256, m: nat, n: nat, proof: seq<Bytes>, root1: Bytes, root2: Bytes)
    requires 0 < m < n && VerifyConsistency(h, m, n, proof, root1, root2) == Pass
    ensures RootsFromProof(h, m, n, SeededPath(m, proof, root1)) == Some((root1, root2))
  {
    var i1, i2 := m - 1, n - 1;
    AcceptedWalk(h, m, n, i1, i2, proof, root1, root2);
    WalkLength(h, m, n, i1, i2, ShiftWhileOdd(i1, i2).0, ShiftWhileOdd(i1, i2).1,
      SeededPath(m, proof, root1)[0], SeededPath(m, proof, root1)[1..]);
    var a, b := WalkMatchesRoots(h, m, n, i1, i2, SeededPath(m, proof, root1));
  }

  /**
   * Between non-empty trees of different sizes, the verifier accepts a proof exactly
   * when the reference reading of its seeded path gives the two roots.
   */
  lemma VerifyMatchesRootsReference(h: Sha256, m: nat, n: nat, proof: seq<Bytes>, root1: Bytes, root2: Bytes)
    requires 0 < m < n
    ensures VerifyConsistency(h, m, n, proof, root1, root2) == Pass
      <==> RootsFromProof(h, m, n, SeededPath(m, proof, root1)) == Some((root1, root2))
  {
    var path := SeededPath(m, proof, root1);
    if VerifyConsistency(h, m, n, proof, root1, root2) == Pass {
      AcceptedReadsRoots(h, m, n, proof, root1, root2);
    } else if RootsFromProof(h, m, n, path) == Some((root1, root2)) {
      RootsFromProofDefined(h, m, n, path);
      AcceptedByReference(h, m, n, proof, path, root1, root2);
    }
  }

  /** Below the top split, the reading is that of the left subtree followed by the last hash on the right. */
  lemma RootsFromProofLeftParts(h: Sha256, m: nat, n: nat, k: nat, path: seq<Bytes>, r1: Bytes, r2: Bytes)
    returns (init: seq<Bytes>, last: Bytes, b: Bytes)
    requires 1 < n && k == Split(n) && 0 < m <= k
    requires |r1| == DigestSize && RootsFromProof(h, m, n, path) == Some((r1, r2))
    ensures path == init + [last] && |b| == DigestSize
    ensures RootsFromProof(h, m, k, init) == Some((r1, b)) && r2 == HashChildren(h, b, last)
  {
    init, last := path[..|path| - 1], path[|path| - 1];
    assert path == init + [last];
    b := RootsFromProof(h, m, k, init).value.1;
  }

  /** Above the top split, the reading is that of the right subtree with the last hash on the left of both roots. */
  lemma RootsFromProofRightParts(h: Sha256, m: nat, n: nat, k: nat, j: nat, nk: nat, path: seq<Bytes>, r1: Bytes, r2: Bytes)
    returns (init: seq<Bytes>, last: Bytes, a: Bytes, b: Bytes)
    requires 1 < n && k == Split(n) && k < m < n && j == m - k && nk == n - k
    requires RootsFromProof(h, m, n, path) == Some((r1, r2))
    ensures path == init + [last] && |b| == DigestSize
    ensures RootsFromProof(h, j, nk, init) == Some((a, b))
    ensures r1 == HashChildren(h, last, a) && r2 == HashChildren(h, last, b)
  {
    init, last := path[..|path| - 1], path[|path| - 1];
    assert path == init + [last];
    a, b := RootsFromProof(h, j, nk, init).value.0, RootsFromProof(h, j, nk, init).value.1;
  }

  /**
   * If the reference reading of a path gives MTH(D1) and MTH(D2), then D1 is the first
   * |D1| entries of D2 and the path is SUBPROOF(|D1|, D2, false) -- or the lemma
   * returns a SHA-256 collision.
   */
  lemma {:induction false} RootsFromProofSound(h: Sha256, d1: seq<Bytes>, d2: seq<Bytes>, path: seq<Bytes>)
    returns (x: Bytes, y: Bytes)
    requires 0 < |d1| <= |d2|
    requires RootsFromProof(h, |d1|, |d2|, path) == Some((MTH(h, d1), MTH(h, d2)))
    ensures (d1 == d2[..|d1|] && path == SubProof(h, |d1|, d2, false)) || IsCollision(h, x, y)
    decreases |d2|, 2
  {
    if |d1| == |d2| {
      x, y := MTHSound(h, d1, d2);
      assert d2[..|d1|] == d2;
    } else if |d1| <= Split(|d2|) {
      x, y := RootsFromProofSoundLeft(h, d1, d2, Split(|d2|), path);
    } else {
      x, y := RootsFromProofSoundRight(h, d1, d2, Split(|d2|), path);
    }
  }

  lemma {:induction false} RootsFromProofSoundLeft(h: Sha256, d1: seq<Bytes>, d2: seq<Bytes>, k: nat, path: seq<Bytes>)
    returns (x: Bytes, y: Bytes)
    requires 0 < |d1| < |d2| && k == Split(|d2|) && |d1| <= k
    requires RootsFromProof(h, |d1|, |d2|, path) == Some((MTH(h, d1), MTH(h, d2)))
    ensures (d1 == d2[..|d1|] && path == SubProof(h, |d1|, d2, false)) || IsCollision(h, x, y)
    decreases |d2|, 1
  {
    var init, last, b := RootsFromProofLeftParts(h, |d1|, |d2|, k, path, MTH(h, d1), MTH(h, d2));
    var left, right := MTH(h, d2[..k]), MTH(h, d2[k..]);
    MTHSplit(h, d2);
    if b == left && last == right {
      x, y := SubtreeRootsSoundLeft(h, d1, d2, k, path, init);
    } else {
      x, y := [NodePrefix] + b + last, [NodePrefix] + left + right;
      assert x != y by {
        if x == y {
          NodeInputSplit(b, last, left, right);
        }
      }
    }
  }

  lemma {:induction false} SubtreeRootsSoundLeft(h: Sha256, d1: seq<Bytes>, d2: seq<Bytes>, k: nat, path: seq<Bytes>, init: seq<Bytes>)
    returns (x: Bytes, y: Bytes)
    requires 0 < |d1| < |d2| && k == Split(|d2|) && |d1| <= k
    requires path == init + [MTH(h, d2[k..])]
    requires RootsFromProof(h, |d1|, k, init) == Some((MTH(h, d1), MTH(h, d2[..k])))
    ensures (d1 == d2[..|d1|] && path == SubProof(h, |d1|, d2, false)) || IsCollision(h, x, y)
    decreases |d2|, 0
  {
    var e := d2[..k];
    assert |e| == k && e[..|d1|] == d2[..|d1|];
    x, y := RootsFromProofSound(h, d1, e, init);
  }

  lemma {:induction false} RootsFromProofSoundRight(h: Sha256, d1: seq<Bytes>, d2: seq<Bytes>, k: nat, path: seq<Bytes>)
    returns (x: Bytes, y: Bytes)
    requires 0 < |d1| < |d2| && k == Split(|d2|) && k < |d1|
    requires RootsFromProof(h, |d1|, |d2|, path) == Some((MTH(h, d1), MTH(h, d2)))
    ensures (d1 == d2[..|d1|] && path == SubProof(h, |d1|, d2, false)) || IsCollision(h, x, y)
    decreases |d2|, 1
  {
    var e1, e2 := d1[k..], d2[k..];
    var init, last, a, b := RootsFromProofRightParts(h, |d1|, |d2|, k, |e1|, |e2|, path, MTH(h, d1), MTH(h, d2));
    SplitExpUnique(|d1|, SplitExp(|d2|));
    var l1, r1 := MTH(h, d1[..k]), MTH(h, e1);
    var l2, r2 := MTH(h, d2[..k]), MTH(h, e2);
    MTHSplit(h, d1);
    MTHSplit(h, d2);
    if !(last == l2 && b == r2) {
      x, y := [NodePrefix] + last + b, [NodePrefix] + l2 + r2;
      assert x != y by {
        if x == y {
          NodeInputSplit(last, b, l2, r2);
        }
      }
    } else if !(last == l1 && a == r1) {
      x, y := [NodePrefix] + last + a, [NodePrefix] + l1 + r1;
      assert x != y by {
        if x == y {
          NodeInputSplit(last, a, l1, r1);
        }
      }
    } else {
      x, y := SubtreeRootsSoundRight(h, d1, d2, k, e1, e2, path, init);
    }
  }

  lemma {:induction false} SubtreeRootsSoundRight(h: Sha256, d1: seq<Bytes>, d2: seq<Bytes>, k: nat, e1: seq<Bytes>, e2: seq<Bytes>,
                                                  path: seq<Bytes>, init: seq<Bytes>)
    returns (x: Bytes, y: Bytes)
    requires 0 < |d1| < |d2| && k == Split(|d2|) && k < |d1| && e1 == d1[k..] && e2 == d2[k..]
    requires path == init + [MTH(h, d2[..k])]
    requires MTH(h, d1[..k]) == MTH(h, d2[..k])
    requires RootsFromProof(h, |e1|, |e2|, init) == Some((MTH(h, e1), MTH(h, e2)))
    ensures (d1 == d2[..|d1|] && path == SubProof(h, |d1|, d2, false)) || IsCollision(h, x, y)
    decreases |d2|, 0
  {
    var x1, y1 := MTHSound(h, d1[..k], d2[..k]);
    x, y := RootsFromProofSound(h, e1, e2, init);
    if IsCollision(h, x1, y1) {
      x, y := x1, y1;
    } else if e1 == e2[..|e1|] && init == SubProof(h, |e1|, e2, false) {
      JoinRight(d1, d2, k, e1, e2);
      SubProofRightSplit(h, |d1|, d2, k, |e1|, e2);
    }
  }

  /** Equal left parts and a right part that is a prefix make the whole a prefix. */
  lemma JoinRight(d1: seq<Bytes>, d2: seq<Bytes>, k: nat, e1: seq<Bytes>, e2: seq<Bytes>)
    requires k < |d1| <= |d2| && e1 == d1[k..] && e2 == d2[k..]
    requires d1[..k] == d2[..k] && e1 == e2[..|e1|]
    ensures d1 == d2[..|d1|]
  {
    assert d1 == d1[..k] + e1;
    assert d2[..|d1|] == d2[..k] + e2[..|e1|];
  }

  /** Above the top split, SUBPROOF(m, D[n], false) is that of the right subtree followed by the left subtree's root. */
  lemma SubProofRightSplit(h: Sha256, m: nat, d: seq<Bytes>, k: nat, j: nat, e: seq<Bytes>)
    requires 1 < |d| && k == Split(|d|) && k < m < |d| && j == m - k && e == d[k..]
    ensures SubProof(h, m, d, false) == SubProof(h, j, e, false) + [MTH(h, d[..k])]
  {
  }

  /**
   * Append-only: a proof accepted between MTH(D1) and MTH(D2), with 0 < |D1| <= |D2|,
   * shows that D1 is the first |D1| entries of D2 and that the proof is PROOF(|D1|, D2)
   * -- unless the returned pair is a SHA-256 collision.
   */
  lemma ConsistencySound(h: Sha256, d1: seq<Bytes>, d2: seq<Bytes>, proof: seq<Bytes>) returns (x: Bytes, y: Bytes)
    requires 0 < |d1| <= |d2|
    requires VerifyConsistency(h, |d1|, |d2|, proof, MTH(h, d1), MTH(h, d2)) == Pass
    ensures (d1 == d2[..|d1|] && proof == ConsistencyProof(h, |d1|, d2)) || IsCollision(h, x, y)
  {
    if |d1| == |d2| {
      x, y := MTHSound(h, d1, d2);
      assert d2[..|d1|] == d2;
    } else {
      x, y := SeededPathSound(h, d1, d2, proof);
    }
  }

  lemma SeededPathSound(h: Sha256, d1: seq<Bytes>, d2: seq<Bytes>, proof: seq<Bytes>) returns (x: Bytes, y: Bytes)
    requires 0 < |d1| < |d2|
    requires VerifyConsistency(h, |d1|, |d2|, proof, MTH(h, d1), MTH(h, d2)) == Pass
    ensures (d1 == d2[..|d1|] && proof == ConsistencyProof(h, |d1|, d2)) || IsCollision(h, x, y)
  {
    var m := |d1|;
    var path := SeededPath(m, proof, MTH(h, d1));
    AcceptedReadsRoots(h, m, |d2|, proof, MTH(h, d1), MTH(h, d2));
    x, y := RootsFromProofSound(h, d1, d2, path);
    if d1 == d2[..m] && path == SubProof(h, m, d2, false) {
      SeededProofIsSubProof(h, m, d2);
      if IsPow2(m) {
        assert proof == path[1..];
        assert ConsistencyProof(h, m, d2) == ([MTH(h, d1)] + ConsistencyProof(h, m, d2))[1..];
      }
    }
  }
}
