/**
 * Verification of an inclusion proof, as in section 2.1.3.2 of RFC 9162.
 *
 * The algorithm walks the audit path from the leaf upwards, keeping fn (the
 * index of the current node on its level), sn (the index of the last node on
 * that level) and r (the hash computed so far). `Walk` is that iteration as a
 * function, `VerifyInclusionProof` is the loop itself, and `RootFromPath` is an
 * independent, top-down reading of the same proof that follows the recursive
 * definition of the tree in section 2.1 of RFC 6962. The main theorems are
 * that the two readings agree (`VerifyMatchesReference`), that the audit path
 * PATH(m, D[n]) of RFC 6962 is accepted against MTH(D[n]) (`InclusionComplete`),
 * and that any accepted proof is that audit path for that leaf unless SHA-256
 * has a collision (`InclusionSound`).
 */
module Inclusion {
  import opened Wrappers
  import opened Merkle

  /** Why the Merkle library rejects a proof. */
  datatype ProofError =
    | IndexBeyondSize     // the leaf index is not smaller than the tree size
    | WrongProofSize      // the proof has too few or too many hashes
    | RootMismatch        // the recomputed root differs from the expected one
    | SizeDecreased       // consistency: the second tree is smaller than the first
    | NonEmptyProof       // consistency: a proof was given where none is expected
    | EmptyProof          // consistency: no proof was given where one is needed
    | FirstRootMismatch   // consistency: the recomputed old root differs from the old root

  /** The variables of the walk (fn, sn, r), or the failure of step 4a: sn reached 0 with hashes left. */
  datatype WalkState = At(fn: nat, sn: nat, r: Bytes) | Overrun

  /** "Right-shift both fn and sn equally until either LSB(fn) is set or fn is 0." */
  function ShiftUntilOdd(fn: nat, sn: nat): (nat, nat)
    decreases fn
  {
    if fn % 2 == 1 || fn == 0 then (fn, sn) else ShiftUntilOdd(fn / 2, sn / 2)
  }

  /** One iteration of step 4 of section 2.1.3.2, for the path element p. */
  function Step(h: Sha256, s: WalkState, p: Bytes): WalkState {
    match s
    case Overrun => Overrun
    case At(fn, sn, r) =>
      if sn == 0 then Overrun
      else if fn % 2 == 1 || fn == sn then
        var (f, s') := ShiftUntilOdd(fn, sn);
        At(f / 2, s' / 2, HashChildren(h, p, r))
      else
        At(fn / 2, sn / 2, HashChildren(h, r, p))
  }

  /** The walk over the whole path, one `Step` per element, from the first element to the last. */
  function Walk(h: Sha256, s: WalkState, path: seq<Bytes>): WalkState
    decreases |path|
  {
    if path == [] then s else Step(h, Walk(h, s, path[..|path| - 1]), path[|path| - 1])
  }

  /** Section 2.1.3.2 as a decision: steps 1 (index check) and 5 (sn is 0 and r is the root). */
  function VerifyInclusion(h: Sha256, index: nat, size: nat, leafHash: Bytes, path: seq<Bytes>, root: Bytes)
    : Outcome<ProofError>
  {
    if index >= size then Fail(IndexBeyondSize)
    else
      match Walk(h, At(index, size - 1, leafHash), path)
      case Overrun => Fail(WrongProofSize)
      case At(_, sn, r) =>
        if sn != 0 then Fail(WrongProofSize)
        else if r != root then Fail(RootMismatch)
        else Pass
  }

  /** The loop of section 2.1.3.2, running over the audit path in order. */
  method VerifyInclusionProof(h: Sha256, index: nat, size: nat, leafHash: Bytes, path: seq<Bytes>, root: Bytes)
    returns (result: Outcome<ProofError>)
    ensures result == VerifyInclusion(h, index, size, leafHash, path, root)
  {
    if index >= size {
      return Fail(IndexBeyondSize);
    }
    ghost var start := At(index, size - 1, leafHash);
    var fn: nat, sn: nat, r: Bytes := index, size - 1, leafHash;
    for i := 0 to |path|
      invariant Walk(h, start, path[..i]) == At(fn, sn, r)
    {
      assert path[..i + 1][..i] == path[..i];
      if sn == 0 {
        OverrunPrefix(h, start, path, i + 1);
        return Fail(WrongProofSize);
      }
      var p := path[i];
      if fn % 2 == 1 || fn == sn {
        r := HashChildren(h, p, r);
        ghost var f0, s0 := fn, sn;
        while fn % 2 == 0 && fn != 0
          invariant ShiftUntilOdd(fn, sn) == ShiftUntilOdd(f0, s0)
          decreases fn
        {
          fn, sn := fn / 2, sn / 2;
        }
      } else {
        r := HashChildren(h, r, p);
      }
      fn, sn := fn / 2, sn / 2;
    }
    assert path[..|path|] == path;
    if sn != 0 {
      return Fail(WrongProofSize);
    }
    if r != root {
      return Fail(RootMismatch);
    }
    return Pass;
  }

  // ---------------------------------------------------------------------------
  // Algebra of the walk
  // ---------------------------------------------------------------------------

  lemma {:induction false} WalkAppend(h: Sha256, s: WalkState, p: seq<Bytes>, q: seq<Bytes>)
    ensures Walk(h, s, p + q) == Walk(h, Walk(h, s, p), q)
    decreases |q|
  {
    if q == [] {
      assert p + q == p;
    } else {
      var q' := q[..|q| - 1];
      assert (p + q)[..|p + q| - 1] == p + q';
      WalkAppend(h, s, p, q');
    }
  }

  /** The walk over [x] + rest is one step on x followed by the walk over rest. */
  lemma WalkFront(h: Sha256, s: WalkState, path: seq<Bytes>)
    requires path != []
    ensures Walk(h, s, path) == Walk(h, Step(h, s, path[0]), path[1..])
  {
    assert path == [path[0]] + path[1..];
    WalkAppend(h, s, [path[0]], path[1..]);
    assert Walk(h, s, [path[0]]) == Step(h, Walk(h, s, []), path[0]);
  }

  /** A walk that does not overrun starts with sn above 0. */
  lemma FirstStepLive(h: Sha256, fn: nat, sn: nat, r: Bytes, path: seq<Bytes>)
    requires path != [] && Walk(h, At(fn, sn, r), path).At?
    ensures sn != 0
  {
    if sn == 0 {
      WalkFront(h, At(fn, sn, r), path);
      OverrunSticks(h, path[1..]);
    }
  }

  /** WalkFront, for a first step whose result is already known. */
  lemma WalkFrontStep(h: Sha256, s: WalkState, t: WalkState, path: seq<Bytes>)
    requires path != [] && Step(h, s, path[0]) == t
    ensures Walk(h, s, path) == Walk(h, t, path[1..])
  {
    WalkFront(h, s, path);
  }

  lemma {:induction false} OverrunSticks(h: Sha256, path: seq<Bytes>)
    ensures Walk(h, Overrun, path) == Overrun
    decreases |path|
  {
    if path != [] {
      OverrunSticks(h, path[..|path| - 1]);
    }
  }

  /** Once a prefix of the path overruns, the whole path does. */
  lemma OverrunPrefix(h: Sha256, s: WalkState, path: seq<Bytes>, i: nat)
    requires i <= |path| && Walk(h, s, path[..i]) == Overrun
    ensures Walk(h, s, path) == Overrun
  {
    assert path == path[..i] + path[i..];
    WalkAppend(h, s, path[..i], path[i..]);
    OverrunSticks(h, path[i..]);
  }

  /** A walk that ends in a state (not an overrun) had sn != 0 before its last step. */
  lemma LiveBeforeLastStep(h: Sha256, s: WalkState, path: seq<Bytes>, i: nat)
    requires i < |path| && Walk(h, s, path).At?
    ensures Walk(h, s, path[..i]).At? && Walk(h, s, path[..i]).sn != 0
  {
    var rest := path[i..];
    assert path == path[..i] + rest;
    WalkAppend(h, s, path[..i], rest);
    WalkFront(h, Walk(h, s, path[..i]), rest);
    if Step(h, Walk(h, s, path[..i]), rest[0]) == Overrun {
      OverrunSticks(h, rest[1..]);
    }
  }

  lemma {:induction false} ShiftUntilOddOrdered(fn: nat, sn: nat)
    requires fn <= sn
    ensures ShiftUntilOdd(fn, sn).0 <= ShiftUntilOdd(fn, sn).1
    decreases fn
  {
    if !(fn % 2 == 1 || fn == 0) {
      ShiftUntilOddOrdered(fn / 2, sn / 2);
    }
  }

  lemma {:induction false} ShiftUntilOddPow2(c: nat)
    requires IsPow2(c)
    ensures ShiftUntilOdd(c, c) == (1, 1)
    decreases c
  {
    if c != 1 {
      ShiftUntilOddPow2(c / 2);
    }
  }

  // ---------------------------------------------------------------------------
  // The reference reading of a proof: RFC 6962 section 2.1, top down
  // ---------------------------------------------------------------------------

  /** Number of hashes in the audit path of leaf m in a tree of n leaves. */
  function PathLen(m: nat, n: nat): nat
    requires m < n
    decreases n
  {
    if n == 1 then 0
    else
      var k := Split(n);
      if m < k then 1 + PathLen(m, k) else 1 + PathLen(m - k, n - k)
  }

  /**
   * The root that `path` proves for the leaf hash `leaf` at index m of a tree of n
   * leaves, read top down: the last hash of the path is the sibling of the subtree
   * that holds the leaf at the top split of section 2.1 of RFC 6962.
   */
  function RootFromPath(h: Sha256, m: nat, n: nat, leaf: Bytes, path: seq<Bytes>): (r: Option<Bytes>)
    requires m < n
    ensures r.Some? && n > 1 ==> |r.value| == DigestSize
    decreases n
  {
    if n == 1 then (if path == [] then Some(leaf) else None)
    else if path == [] then None
    else
      var k := Split(n);
      var last := path[|path| - 1];
      var init := path[..|path| - 1];
      if m < k then
        match RootFromPath(h, m, k, leaf, init)
        case None => None
        case Some(sub) => Some(HashChildren(h, sub, last))
      else
        match RootFromPath(h, m - k, n - k, leaf, init)
        case None => None
        case Some(sub) => Some(HashChildren(h, last, sub))
  }

  /** The reference reading accepts exactly the paths of the right length. */
  lemma {:induction false} RootFromPathDefined(h: Sha256, m: nat, n: nat, leaf: Bytes, path: seq<Bytes>)
    requires m < n
    ensures RootFromPath(h, m, n, leaf, path).Some? <==> |path| == PathLen(m, n)
    decreases n
  {
    if n > 1 && path != [] {
      var k := Split(n);
      if m < k {
        RootFromPathDefined(h, m, k, leaf, path[..|path| - 1]);
      } else {
        RootFromPathDefined(h, m - k, n - k, leaf, path[..|path| - 1]);
      }
    } else if n > 1 {
      var k := Split(n);
      assert PathLen(m, n) >= 1;
    }
  }

  lemma {:induction false} PerfectPathLen(m: nat, d: nat)
    requires m < Pow2(d)
    ensures PathLen(m, Pow2(d)) == d
  {
    if d > 0 {
      SplitExpUnique(Pow2(d), d - 1);
      if m < Pow2(d - 1) {
        PerfectPathLen(m, d - 1);
      } else {
        PerfectPathLen(m - Pow2(d - 1), d - 1);
      }
    }
  }

  // ---------------------------------------------------------------------------
  // The walk agrees with the reference reading
  // ---------------------------------------------------------------------------

  /**
   * Inside a perfect subtree of 2^d leaves the walk turns left or right on the bits
   * of fn alone: the value of sn does not matter as long as it lies in [2^d - 1, 2^(d+1)).
   */
  lemma {:induction false} PerfectWalk(h: Sha256, fn: nat, s1: nat, s2: nat, r: Bytes, path: seq<Bytes>, d: nat)
    returns (root: Bytes)
    requires fn < Pow2(d) && |path| == d
    requires Pow2(d) - 1 <= s1 < 2 * Pow2(d)
    requires Pow2(d) - 1 <= s2 < 2 * Pow2(d)
    ensures Walk(h, At(fn, s1, r), path) == At(0, if s1 >= Pow2(d) then 1 else 0, root)
    ensures Walk(h, At(fn, s2, r), path) == At(0, if s2 >= Pow2(d) then 1 else 0, root)
  {
    if d == 0 {
      root := r;
    } else {
      var x := path[0];
      WalkFront(h, At(fn, s1, r), path);
      WalkFront(h, At(fn, s2, r), path);
      var r' := if fn % 2 == 1 then HashChildren(h, x, r) else HashChildren(h, r, x);
      assert Step(h, At(fn, s1, r), x) == At(fn / 2, s1 / 2, r');
      assert Step(h, At(fn, s2, r), x) == At(fn / 2, s2 / 2, r');
      root := PerfectWalk(h, fn / 2, s1 / 2, s2 / 2, r', path[1..], d - 1);
    }
  }

  /** Shifting a node index and a last index that both carry one extra high bit c. */
  lemma {:induction false} ShiftUntilOddOffset(fn: nat, sn: nat, c: nat) returns (c': nat)
    requires IsPow2(c) && 1 <= fn <= sn < c
    ensures IsPow2(c') && c' >= 2 && ShiftUntilOdd(fn, sn).1 < c'
    ensures ShiftUntilOdd(fn + c, sn + c) == (ShiftUntilOdd(fn, sn).0 + c', ShiftUntilOdd(fn, sn).1 + c')
    decreases fn
  {
    if fn % 2 == 1 {
      c' := c;
    } else {
      assert (fn + c) / 2 == fn / 2 + c / 2 && (sn + c) / 2 == sn / 2 + c / 2;
      c' := ShiftUntilOddOffset(fn / 2, sn / 2, c / 2);
    }
  }

  /** One step from (fn + c, sn + c) mirrors the step from (fn, sn), with the extra bit shifted along. */
  lemma StepOffset(h: Sha256, fn: nat, sn: nat, r: Bytes, x: Bytes, c: nat) returns (fn': nat, sn': nat, r': Bytes, c': nat)
    requires IsPow2(c) && fn <= sn < c && sn != 0
    ensures IsPow2(c') && fn' <= sn' < c'
    ensures Step(h, At(fn, sn, r), x) == At(fn', sn', r')
    ensures Step(h, At(fn + c, sn + c, r), x) == At(fn' + c', sn' + c', r')
  {
    if fn % 2 == 0 && fn == sn {
      fn', sn', r', c' := StepOffsetShift(h, fn, sn, r, x, c);
    } else {
      assert c >= 2 && c % 2 == 0;
      assert (fn + c) / 2 == fn / 2 + c / 2 && (sn + c) / 2 == sn / 2 + c / 2;
      assert (fn + c) % 2 == fn % 2;
      fn', sn', c' := fn / 2, sn / 2, c / 2;
      r' := if fn % 2 == 1 then HashChildren(h, x, r) else HashChildren(h, r, x);
    }
  }

  /** StepOffset where fn = sn is even: both walks shift until fn is odd, then hash on the left. */
  lemma StepOffsetShift(h: Sha256, fn: nat, sn: nat, r: Bytes, x: Bytes, c: nat) returns (fn': nat, sn': nat, r': Bytes, c': nat)
    requires IsPow2(c) && fn <= sn < c && sn != 0 && fn % 2 == 0 && fn == sn
    ensures IsPow2(c') && fn' <= sn' < c'
    ensures Step(h, At(fn, sn, r), x) == At(fn', sn', r')
    ensures Step(h, At(fn + c, sn + c, r), x) == At(fn' + c', sn' + c', r')
  {
    var c2 := ShiftUntilOddOffset(fn, sn, c);
    var (f, s) := ShiftUntilOdd(fn, sn);
    ShiftUntilOddOrdered(fn, sn);
    assert (f + c2) / 2 == f / 2 + c2 / 2 && (s + c2) / 2 == s / 2 + c2 / 2;
    assert (fn + c) % 2 == 0 && fn + c == sn + c;
    fn', sn', r', c' := f / 2, s / 2, HashChildren(h, x, r), c2 / 2;
  }

  /**
   * A walk from (fn + c, sn + c), where c is a power of two above sn, makes the same
   * turns and computes the same hash as the walk from (fn, sn), as long as the latter
   * does not overrun: the extra bit only travels along.
   */
  lemma {:induction false} OffsetWalk(h: Sha256, fn: nat, sn: nat, r: Bytes, path: seq<Bytes>, c: nat)
    returns (c': nat)
    requires IsPow2(c) && fn <= sn < c
    requires Walk(h, At(fn, sn, r), path).At?
    ensures var w := Walk(h, At(fn, sn, r), path);
      IsPow2(c') && w.sn < c' && Walk(h, At(fn + c, sn + c, r), path) == At(w.fn + c', w.sn + c', w.r)
    decreases |path|
  {
    if path == [] {
      c' := c;
    } else {
      var fn', sn', r', c2 := OffsetFront(h, fn, sn, r, path, c);
      c' := OffsetWalk(h, fn', sn', r', path[1..], c2);
    }
  }

  /** The first step of OffsetWalk: both walks take the same turn on path[0]. */
  lemma OffsetFront(h: Sha256, fn: nat, sn: nat, r: Bytes, path: seq<Bytes>, c: nat)
    returns (fn': nat, sn': nat, r': Bytes, c': nat)
    requires IsPow2(c) && fn <= sn < c && path != []
    requires Walk(h, At(fn, sn, r), path).At?
    ensures IsPow2(c') && fn' <= sn' < c'
    ensures Walk(h, At(fn, sn, r), path) == Walk(h, At(fn', sn', r'), path[1..])
    ensures Walk(h, At(fn + c, sn + c, r), path) == Walk(h, At(fn' + c', sn' + c', r'), path[1..])
  {
    FirstStepLive(h, fn, sn, r, path);
    fn', sn', r', c' := StepOffset(h, fn, sn, r, path[0], c);
    WalkFrontStep(h, At(fn, sn, r), At(fn', sn', r'), path);
    WalkFrontStep(h, At(fn + c, sn + c, r), At(fn' + c', sn' + c', r'), path);
  }

  /** On a path of the right length the walk ends at sn = 0 with the reference root. */
  lemma {:induction false} WalkMatchesRoot(h: Sha256, m: nat, n: nat, leaf: Bytes, path: seq<Bytes>)
    requires m < n && |path| == PathLen(m, n)
    ensures RootFromPath(h, m, n, leaf, path).Some?
    ensures Walk(h, At(m, n - 1, leaf), path) == At(0, 0, RootFromPath(h, m, n, leaf, path).value)
    decreases n, 1
  {
    RootFromPathDefined(h, m, n, leaf, path);
    if n > 1 {
      if m < Split(n) {
        WalkMatchesRootLeft(h, m, n, leaf, path);
      } else {
        WalkMatchesRootRight(h, m, n, leaf, path);
      }
    }
  }

  /** The leaf lies in the left, perfect subtree of the top split. */
  lemma {:induction false} WalkMatchesRootLeft(h: Sha256, m: nat, n: nat, leaf: Bytes, path: seq<Bytes>)
    requires 1 < n && m < Split(n) && |path| == PathLen(m, n)
    ensures RootFromPath(h, m, n, leaf, path).Some?
    ensures Walk(h, At(m, n - 1, leaf), path) == At(0, 0, RootFromPath(h, m, n, leaf, path).value)
    decreases n, 0
  {
    var d := SplitExp(n);
    var k := Split(n);
    var last := path[|path| - 1];
    var init := path[..|path| - 1];
    WalkMatchesRoot(h, m, k, leaf, init);
    var sub := RootFromPath(h, m, k, leaf, init).value;
    PerfectPathLen(m, d);
    var root := PerfectWalk(h, m, n - 1, k - 1, leaf, init, d);
    assert Walk(h, At(m, n - 1, leaf), init) == At(0, 1, sub);
    assert Walk(h, At(m, n - 1, leaf), path) == Step(h, At(0, 1, sub), last);
    assert RootFromPath(h, m, n, leaf, path) == Some(HashChildren(h, sub, last));
  }

  /** The leaf lies in the right subtree of the top split. */
  lemma {:induction false} WalkMatchesRootRight(h: Sha256, m: nat, n: nat, leaf: Bytes, path: seq<Bytes>)
    requires 1 < n && Split(n) <= m < n && |path| == PathLen(m, n)
    ensures RootFromPath(h, m, n, leaf, path).Some?
    ensures Walk(h, At(m, n - 1, leaf), path) == At(0, 0, RootFromPath(h, m, n, leaf, path).value)
    decreases n, 0
  {
    var k := Split(n);
    var last := path[|path| - 1];
    var init := path[..|path| - 1];
    var j: nat, nk: nat := m - k, n - k;
    assert |init| == PathLen(j, nk);
    WalkMatchesRoot(h, j, nk, leaf, init);
    var sub := RootFromPath(h, j, nk, leaf, init).value;
    assert RootFromPath(h, j, nk, leaf, init) == Some(sub);
    var c' := RightSubtreeWalk(h, m, n, k, j, nk, leaf, init, sub);
    assert Walk(h, At(m, n - 1, leaf), path) == At(0, 0, HashChildren(h, last, sub)) by {
      assert Walk(h, At(m, n - 1, leaf), path) == Step(h, At(c', c', sub), last);
      StepAtTop(h, c', sub, last);
    }
    assert path == init + [last];
    RootFromPathRightSplit(h, m, n, k, j, nk, leaf, init, last, sub);
  }

  /** From fn = sn = a power of two, one step hashes the path element on the left and stops. */
  lemma StepAtTop(h: Sha256, c: nat, r: Bytes, x: Bytes)
    requires IsPow2(c)
    ensures Step(h, At(c, c, r), x) == At(0, 0, HashChildren(h, x, r))
  {
    if c % 2 == 0 {
      ShiftUntilOddPow2(c);
    } else {
      assert c == 1;
    }
  }

  /**
   * Walking the right subtree of the top split from inside the whole tree ends at the
   * subtree's root with fn = sn = a power of two: the left sibling is the last hash.
   */
  lemma RightSubtreeWalk(h: Sha256, m: nat, n: nat, k: nat, j: nat, nk: nat, leaf: Bytes, init: seq<Bytes>, sub: Bytes)
    returns (c': nat)
    requires 1 < n && k == Split(n) && k <= m < n && j == m - k && nk == n - k
    requires Walk(h, At(j, nk - 1, leaf), init) == At(0, 0, sub)
    ensures IsPow2(c') && Walk(h, At(m, n - 1, leaf), init) == At(c', c', sub)
  {
    Pow2IsPow2(SplitExp(n));
    c' := OffsetWalk(h, j, nk - 1, leaf, init, k);
    assert At(j + k, nk - 1 + k, leaf) == At(m, n - 1, leaf);
  }


  /** Top-down reading of a proof for a leaf left of the top split k. */
  lemma RootFromPathLeftSplit(h: Sha256, m: nat, n: nat, k: nat, leaf: Bytes, init: seq<Bytes>, last: Bytes, sub: Bytes)
    requires 1 < n && k == Split(n) && m < k
    requires RootFromPath(h, m, k, leaf, init) == Some(sub)
    ensures RootFromPath(h, m, n, leaf, init + [last]) == Some(HashChildren(h, sub, last))
  {
    var path := init + [last];
    assert path[..|path| - 1] == init && path[|path| - 1] == last;
  }

  /** A proof that the top-down reading accepts, for a leaf left of the top split k, is a subtree proof and the right sibling. */
  lemma RootFromPathLeftParts(h: Sha256, m: nat, n: nat, k: nat, leaf: Bytes, path: seq<Bytes>)
    returns (init: seq<Bytes>, last: Bytes, sub: Bytes)
    requires 1 < n && k == Split(n) && m < k
    requires |leaf| == DigestSize && RootFromPath(h, m, n, leaf, path).Some?
    ensures path == init + [last] && |sub| == DigestSize
    ensures RootFromPath(h, m, k, leaf, init) == Some(sub)
    ensures RootFromPath(h, m, n, leaf, path) == Some(HashChildren(h, sub, last))
  {
    assert path != [];
    init, last := path[..|path| - 1], path[|path| - 1];
    assert path == init + [last];
    sub := RootFromPath(h, m, k, leaf, init).value;
    if k == 1 {
      assert sub == leaf;
    }
  }

  /** A proof that the top-down reading accepts, for a leaf right of the top split k, is a subtree proof and the left sibling. */
  lemma RootFromPathRightParts(h: Sha256, m: nat, n: nat, k: nat, j: nat, nk: nat, leaf: Bytes, path: seq<Bytes>)
    returns (init: seq<Bytes>, last: Bytes, sub: Bytes)
    requires 1 < n && k == Split(n) && k <= m < n && j == m - k && nk == n - k
    requires |leaf| == DigestSize && RootFromPath(h, m, n, leaf, path).Some?
    ensures path == init + [last] && |sub| == DigestSize
    ensures RootFromPath(h, j, nk, leaf, init) == Some(sub)
    ensures RootFromPath(h, m, n, leaf, path) == Some(HashChildren(h, last, sub))
  {
    assert path != [];
    init, last := path[..|path| - 1], path[|path| - 1];
    assert path == init + [last];
    sub := RootFromPath(h, j, nk, leaf, init).value;
    if nk == 1 {
      assert sub == leaf;
    }
  }

  /** Top-down reading of a proof for a leaf right of the top split k, at index j = m - k of the right subtree. */
  lemma RootFromPathRightSplit(h: Sha256, m: nat, n: nat, k: nat, j: nat, nk: nat, leaf: Bytes, init: seq<Bytes>, last: Bytes, sub: Bytes)
    requires 1 < n && k == Split(n) && k <= m < n && j == m - k && nk == n - k
    requires RootFromPath(h, j, nk, leaf, init) == Some(sub)
    ensures RootFromPath(h, m, n, leaf, init + [last]) == Some(HashChildren(h, last, sub))
  {
    var path := init + [last];
    assert path[..|path| - 1] == init && path[|path| - 1] == last;
  }

  /** A path shorter than the tree is tall leaves sn above 0. */
  lemma ShortPathStops(h: Sha256, m: nat, n: nat, leaf: Bytes, path: seq<Bytes>)
    requires m < n && |path| < PathLen(m, n)
    ensures Walk(h, At(m, n - 1, leaf), path).At? && Walk(h, At(m, n - 1, leaf), path).sn != 0
  {
    var padded := path + seq(PathLen(m, n) - |path|, _ => []);
    WalkMatchesRoot(h, m, n, leaf, padded);
    LiveBeforeLastStep(h, At(m, n - 1, leaf), padded, |path|);
    assert padded[..|path|] == path;
  }

  /** A path longer than the tree is tall overruns. */
  lemma LongPathOverruns(h: Sha256, m: nat, n: nat, leaf: Bytes, path: seq<Bytes>)
    requires m < n && |path| > PathLen(m, n)
    ensures Walk(h, At(m, n - 1, leaf), path) == Overrun
  {
    var len := PathLen(m, n);
    WalkMatchesRoot(h, m, n, leaf, path[..len]);
    var rest := path[len..];
    assert path == path[..len] + rest;
    WalkAppend(h, At(m, n - 1, leaf), path[..len], rest);
    WalkFront(h, Walk(h, At(m, n - 1, leaf), path[..len]), rest);
    OverrunSticks(h, rest[1..]);
  }

  /**
   * The bit-walking verifier of RFC 9162 and the top-down reading of RFC 6962 agree
   * on every input: out-of-range index, wrong path length, wrong root, or success.
   */
  lemma VerifyMatchesReference(h: Sha256, m: nat, n: nat, leaf: Bytes, path: seq<Bytes>, root: Bytes)
    ensures VerifyInclusion(h, m, n, leaf, path, root) ==
      if m >= n then Fail(IndexBeyondSize)
      else if |path| != PathLen(m, n) then Fail(WrongProofSize)
      else if RootFromPath(h, m, n, leaf, path) != Some(root) then Fail(RootMismatch)
      else Pass
  {
    if m < n {
      if |path| < PathLen(m, n) {
        ShortPathStops(h, m, n, leaf, path);
      } else if |path| > PathLen(m, n) {
        LongPathOverruns(h, m, n, leaf, path);
      } else {
        WalkMatchesRoot(h, m, n, leaf, path);
      }
    }
  }

  /** A walk that ends at sn = 0 without overrunning has read exactly an audit path. */
  lemma WalkLengthAtZero(h: Sha256, fn: nat, sn: nat, size: nat, x: Bytes, path: seq<Bytes>)
    requires fn <= sn && size == sn + 1
    requires Walk(h, At(fn, sn, x), path).At? && Walk(h, At(fn, sn, x), path).sn == 0
    ensures |path| == PathLen(fn, size)
  {
    VerifyMatchesReference(h, fn, size, x, path, Walk(h, At(fn, sn, x), path).r);
  }

  // ---------------------------------------------------------------------------
  // Completeness and soundness against the Merkle Tree Hash
  // ---------------------------------------------------------------------------

  /** The audit path PATH(m, D[n]) leads from the leaf hash of D[m] to MTH(D[n]). */
  lemma {:induction false} AuditPathReachesRoot(h: Sha256, m: nat, d: seq<Bytes>, leaf: Bytes)
    requires m < |d| && leaf == HashLeaf(h, d[m])
    ensures RootFromPath(h, m, |d|, leaf, InclusionPath(h, m, d)) == Some(MTH(h, d))
    decreases |d|, 1
  {
    if |d| > 1 {
      if m < Split(|d|) {
        AuditPathReachesRootLeft(h, m, d, leaf);
      } else {
        AuditPathReachesRootRight(h, m, d, leaf);
      }
    }
  }

  lemma {:induction false} AuditPathReachesRootLeft(h: Sha256, m: nat, d: seq<Bytes>, leaf: Bytes)
    requires 1 < |d| && m < Split(|d|) && leaf == HashLeaf(h, d[m])
    ensures RootFromPath(h, m, |d|, leaf, InclusionPath(h, m, d)) == Some(MTH(h, d))
    decreases |d|, 0
  {
    var k := Split(|d|);
    var e := d[..k];
    var init := InclusionPath(h, m, e);
    var path := init + [MTH(h, d[k..])];
    assert InclusionPath(h, m, d) == path by {
      InclusionPathSplit(h, m, d);
    }
    assert MTH(h, d) == HashChildren(h, MTH(h, e), MTH(h, d[k..])) by {
      MTHSplit(h, d);
    }
    assert e[m] == d[m];
    AuditPathReachesRoot(h, m, e, leaf);
    RootFromPathLeftSplit(h, m, |d|, k, leaf, init, MTH(h, d[k..]), MTH(h, e));
  }

  lemma {:induction false} AuditPathReachesRootRight(h: Sha256, m: nat, d: seq<Bytes>, leaf: Bytes)
    requires 1 < |d| && Split(|d|) <= m < |d| && leaf == HashLeaf(h, d[m])
    ensures RootFromPath(h, m, |d|, leaf, InclusionPath(h, m, d)) == Some(MTH(h, d))
    decreases |d|, 0
  {
    var k := Split(|d|);
    var e := d[k..];
    var j: nat := m - k;
    var init := InclusionPath(h, j, e);
    var path := init + [MTH(h, d[..k])];
    assert InclusionPath(h, m, d) == path by {
      InclusionPathSplit(h, m, d);
    }
    assert MTH(h, d) == HashChildren(h, MTH(h, d[..k]), MTH(h, e)) by {
      MTHSplit(h, d);
    }
    assert e[j] == d[m];
    AuditPathReachesRoot(h, j, e, leaf);
    RootFromPathRightSplit(h, m, |d|, k, j, |e|, leaf, init, MTH(h, d[..k]), MTH(h, e));
  }

  /** Every leaf's audit path is accepted against the tree's root. */
  lemma InclusionComplete(h: Sha256, m: nat, d: seq<Bytes>)
    requires m < |d|
    ensures VerifyInclusion(h, m, |d|, HashLeaf(h, d[m]), InclusionPath(h, m, d), MTH(h, d)) == Pass
  {
    var leaf := HashLeaf(h, d[m]);
    var path := InclusionPath(h, m, d);
    AuditPathReachesRoot(h, m, d, leaf);
    RootFromPathDefined(h, m, |d|, leaf, path);
    VerifyMatchesReference(h, m, |d|, leaf, path, MTH(h, d));
  }

  /** An audit path checked against a root other than the tree's is rejected as a root mismatch. */
  lemma WrongRootRejected(h: Sha256, m: nat, d: seq<Bytes>, root: Bytes)
    requires m < |d| && root != MTH(h, d)
    ensures VerifyInclusion(h, m, |d|, HashLeaf(h, d[m]), InclusionPath(h, m, d), root) == Fail(RootMismatch)
  {
    var leaf := HashLeaf(h, d[m]);
    var path := InclusionPath(h, m, d);
    AuditPathReachesRoot(h, m, d, leaf);
    RootFromPathDefined(h, m, |d|, leaf, path);
    VerifyMatchesReference(h, m, |d|, leaf, path, root);
  }

  /**
   * If a path leads from the leaf hash of `data` at index m to MTH(D[n]), then `data`
   * is D[m] and the path is PATH(m, D[n]) -- or the lemma returns a SHA-256 collision.
   */
  lemma {:induction false} RootFromPathSound(h: Sha256, m: nat, d: seq<Bytes>, data: Bytes, path: seq<Bytes>)
    returns (x: Bytes, y: Bytes)
    requires m < |d|
    requires RootFromPath(h, m, |d|, HashLeaf(h, data), path) == Some(MTH(h, d))
    ensures (data == d[m] && path == InclusionPath(h, m, d)) || IsCollision(h, x, y)
    decreases |d|, 2
  {
    if |d| == 1 {
      x, y := [LeafPrefix] + data, [LeafPrefix] + d[0];
      if data != d[0] {
        assert x[1..] == data && y[1..] == d[0];
      }
    } else if m < Split(|d|) {
      x, y := RootFromPathSoundLeft(h, m, d, data, path);
    } else {
      x, y := RootFromPathSoundRight(h, m, d, data, path);
    }
  }
  lemma {:induction false} RootFromPathSoundLeft(h: Sha256, m: nat, d: seq<Bytes>, data: Bytes, path: seq<Bytes>)
    returns (x: Bytes, y: Bytes)
    requires 1 < |d| && m < Split(|d|)
    requires RootFromPath(h, m, |d|, HashLeaf(h, data), path) == Some(MTH(h, d))
    ensures (data == d[m] && path == InclusionPath(h, m, d)) || IsCollision(h, x, y)
    decreases |d|, 1
  {
    var k := Split(|d|);
    var init, last, sub := RootFromPathLeftParts(h, m, |d|, k, HashLeaf(h, data), path);
    var left, right := MTH(h, d[..k]), MTH(h, d[k..]);
    MTHSplit(h, d);
    if sub == left && last == right {
      x, y := SubtreeSoundLeft(h, m, d, k, data, path, init);
    } else {
      x, y := [NodePrefix] + sub + last, [NodePrefix] + left + right;
      assert x != y by {
        if x == y {
          NodeInputSplit(sub, last, left, right);
        }
      }
    }
  }

  lemma {:induction false} SubtreeSoundLeft(h: Sha256, m: nat, d: seq<Bytes>, k: nat, data: Bytes, path: seq<Bytes>, init: seq<Bytes>)
    returns (x: Bytes, y: Bytes)
    requires 1 < |d| && k == Split(|d|) && m < k
    requires path == init + [MTH(h, d[k..])]
    requires RootFromPath(h, m, k, HashLeaf(h, data), init) == Some(MTH(h, d[..k]))
    ensures (data == d[m] && path == InclusionPath(h, m, d)) || IsCollision(h, x, y)
    decreases |d|, 0
  {
    var e := d[..k];
    assert |e| == k && e[m] == d[m];
    x, y := RootFromPathSound(h, m, e, data, init);
    InclusionPathSplit(h, m, d);
  }

  lemma {:induction false} RootFromPathSoundRight(h: Sha256, m: nat, d: seq<Bytes>, data: Bytes, path: seq<Bytes>)
    returns (x: Bytes, y: Bytes)
    requires 1 < |d| && Split(|d|) <= m < |d|
    requires RootFromPath(h, m, |d|, HashLeaf(h, data), path) == Some(MTH(h, d))
    ensures (data == d[m] && path == InclusionPath(h, m, d)) || IsCollision(h, x, y)
    decreases |d|, 1
  {
    var k := Split(|d|);
    var j: nat := m - k;
    var e := d[k..];
    var init, last, sub := RootFromPathRightParts(h, m, |d|, k, j, |e|, HashLeaf(h, data), path);
    var left, right := MTH(h, d[..k]), MTH(h, e);
    MTHSplit(h, d);
    if last == left && sub == right {
      x, y := SubtreeSoundRight(h, m, d, k, j, e, data, path, init);
    } else {
      x, y := [NodePrefix] + last + sub, [NodePrefix] + left + right;
      assert x != y by {
        if x == y {
          NodeInputSplit(last, sub, left, right);
        }
      }
    }
  }

  lemma {:induction false} SubtreeSoundRight(h: Sha256, m: nat, d: seq<Bytes>, k: nat, j: nat, e: seq<Bytes>, data: Bytes, path: seq<Bytes>, init: seq<Bytes>)
    returns (x: Bytes, y: Bytes)
    requires 1 < |d| && k == Split(|d|) && k <= m < |d| && j == m - k && e == d[k..]
    requires path == init + [MTH(h, d[..k])]
    requires RootFromPath(h, j, |e|, HashLeaf(h, data), init) == Some(MTH(h, e))
    ensures (data == d[m] && path == InclusionPath(h, m, d)) || IsCollision(h, x, y)
    decreases |d|, 0
  {
    assert e[j] == d[m];
    x, y := RootFromPathSound(h, j, e, data, init);
    InclusionPathSplit(h, m, d);
  }







  /**
   * An inclusion proof accepted against MTH(D[n]) for the leaf `data` at index m proves
   * that D[m] is `data` and that the proof is its audit path, unless the returned pair
   * is a SHA-256 collision. In particular a changed leaf or a changed path hash is
   * rejected unless SHA-256 collides.
   */
  lemma InclusionSound(h: Sha256, m: nat, d: seq<Bytes>, data: Bytes, path: seq<Bytes>)
    returns (x: Bytes, y: Bytes)
    requires VerifyInclusion(h, m, |d|, HashLeaf(h, data), path, MTH(h, d)) == Pass
    ensures m < |d|
    ensures (data == d[m] && path == InclusionPath(h, m, d)) || IsCollision(h, x, y)
  {
    VerifyMatchesReference(h, m, |d|, HashLeaf(h, data), path, MTH(h, d));
    x, y := RootFromPathSound(h, m, d, data, path);
  }
}
