/**
 * Merkle Tree Hash of RFC 6962 (section 2.1): domain-separated leaf and node
 * hashing, the tree hash MTH of a list of entries, the audit path PATH of
 * section 2.1.1 and the consistency proof PROOF/SUBPROOF of section 2.1.2.
 * SHA-256 is left uninterpreted: every definition takes it as a parameter.
 */
module Merkle {

  newtype byte = b: int | 0 <= b < 0x100

  type Bytes = seq<byte>

  const DigestSize: nat := 32

  type Digest = d: Bytes | |d| == DigestSize witness seq(DigestSize, _ => 0)

  /** SHA-256, an arbitrary function from byte strings to 32-byte digests. */
  type Sha256 = Bytes -> Digest

  const LeafPrefix: byte := 0x00
  const NodePrefix: byte := 0x01

  /** HashLeaf of the Merkle library: SHA-256(0x00 || data). */
  function HashLeaf(h: Sha256, data: Bytes): Digest {
    h([LeafPrefix] + data)
  }

  /** HashChildren of the Merkle library: SHA-256(0x01 || left || right). */
  function HashChildren(h: Sha256, left: Bytes, right: Bytes): Digest {
    h([NodePrefix] + left + right)
  }

  /** True when x and y are two different inputs with the same SHA-256 image. */
  predicate IsCollision(h: Sha256, x: Bytes, y: Bytes) {
    x != y && h(x) == h(y)
  }

  /** A leaf hash and a node hash never hash the same input: the prefixes differ. */
  lemma DomainSeparation(data: Bytes, left: Bytes, right: Bytes)
    ensures [LeafPrefix] + data != [NodePrefix] + left + right
  {
    assert ([LeafPrefix] + data)[0] == LeafPrefix;
    assert ([NodePrefix] + left + right)[0] == NodePrefix;
  }

  /** Equal node-hash inputs whose left parts have the same length have equal parts. */
  lemma NodeInputSplit(l1: Bytes, r1: Bytes, l2: Bytes, r2: Bytes)
    requires [NodePrefix] + l1 + r1 == [NodePrefix] + l2 + r2
    requires |l1| == |l2| || |r1| == |r2|
    ensures l1 == l2 && r1 == r2
  {
    var s1 := [NodePrefix] + l1 + r1;
    var s2 := [NodePrefix] + l2 + r2;
    assert |l1| == |l2| by {
      assert |s1| == |s2|;
    }
    assert l1 == s1[1..1 + |l1|] == s2[1..1 + |l2|] == l2;
    assert r1 == s1[1 + |l1|..] == s2[1 + |l2|..] == r2;
  }

  // ---------------------------------------------------------------------------
  // Powers of two and the split point k of section 2.1
  // ---------------------------------------------------------------------------

  function Pow2(e: nat): (p: nat)
    ensures p >= 1
  {
    if e == 0 then 1 else 2 * Pow2(e - 1)
  }

  lemma {:induction false} Pow2Monotone(e1: nat, e2: nat)
    requires e1 < e2
    ensures 2 * Pow2(e1) <= Pow2(e2)
  {
    if e1 + 1 < e2 {
      Pow2Monotone(e1, e2 - 1);
    }
  }

  /** n is an exact power of two (1, 2, 4, ...). */
  predicate IsPow2(n: nat)
    decreases n
  {
    n == 1 || (n > 1 && n % 2 == 0 && IsPow2(n / 2))
  }

  lemma {:induction false} Pow2IsPow2(e: nat)
    ensures IsPow2(Pow2(e))
  {
    if e > 0 {
      Pow2IsPow2(e - 1);
      assert Pow2(e) / 2 == Pow2(e - 1);
    }
  }

  lemma {:induction false} IsPow2IsSomePow2(n: nat) returns (e: nat)
    requires IsPow2(n)
    ensures Pow2(e) == n
    decreases n
  {
    if n == 1 {
      e := 0;
    } else {
      var e' := IsPow2IsSomePow2(n / 2);
      e := e' + 1;
    }
  }

  /** The exponent of the largest power of two strictly smaller than n. */
  function SplitExp(n: nat): (e: nat)
    requires n > 1
    ensures Pow2(e) < n <= 2 * Pow2(e)
  {
    SplitExpFrom(0, n)
  }

  /** Searches upwards from 2^e for the largest power of two strictly smaller than n. */
  function SplitExpFrom(e: nat, n: nat): (e': nat)
    requires Pow2(e) < n
    ensures Pow2(e') < n <= 2 * Pow2(e')
    decreases n - Pow2(e)
  {
    if n <= 2 * Pow2(e) then e else SplitExpFrom(e + 1, n)
  }

  /** A power of two p with p < n <= 2p is unique: it is the split point of n. */
  lemma SplitExpUnique(n: nat, e: nat)
    requires Pow2(e) < n <= 2 * Pow2(e)
    ensures n > 1 && SplitExp(n) == e
  {
    var e' := SplitExp(n);
    if e < e' {
      Pow2Monotone(e, e');
    } else if e' < e {
      Pow2Monotone(e', e);
    }
  }

  /** k of RFC 6962 section 2.1: the largest power of two smaller than n. */
  function Split(n: nat): (k: nat)
    requires n > 1
    ensures k < n <= 2 * k
  {
    Pow2(SplitExp(n))
  }

  // ---------------------------------------------------------------------------
  // MTH, PATH and SUBPROOF
  // ---------------------------------------------------------------------------

  /** MTH(D[n]) of RFC 6962 section 2.1. */
  function MTH(h: Sha256, d: seq<Bytes>): Digest
    decreases |d|
  {
    if |d| == 0 then h([])
    else if |d| == 1 then HashLeaf(h, d[0])
    else
      var k := Split(|d|);
      HashChildren(h, MTH(h, d[..k]), MTH(h, d[k..]))
  }

  /** Above one leaf, MTH hashes the trees of the two sides of the split. */
  lemma MTHSplit(h: Sha256, d: seq<Bytes>)
    requires |d| > 1
    ensures MTH(h, d) == HashChildren(h, MTH(h, d[..Split(|d|)]), MTH(h, d[Split(|d|)..]))
  {
  }

  /** PATH(m, D[n]) of RFC 6962 section 2.1.1: the audit path of leaf m. */
  function InclusionPath(h: Sha256, m: nat, d: seq<Bytes>): seq<Bytes>
    requires m < |d|
    decreases |d|
  {
    if |d| == 1 then []
    else
      var k := Split(|d|);
      if m < k then InclusionPath(h, m, d[..k]) + [MTH(h, d[k..])]
      else InclusionPath(h, m - k, d[k..]) + [MTH(h, d[..k])]
  }

  /** Above one leaf, PATH ends with the sibling subtree at the top split. */
  lemma InclusionPathSplit(h: Sha256, m: nat, d: seq<Bytes>)
    requires m < |d| && |d| > 1
    ensures var k := Split(|d|);
      InclusionPath(h, m, d)
        == if m < k then InclusionPath(h, m, d[..k]) + [MTH(h, d[k..])]
           else InclusionPath(h, m - k, d[k..]) + [MTH(h, d[..k])]
  {
  }

  /** SUBPROOF(m, D[n], b) of RFC 6962 section 2.1.2. */
  function SubProof(h: Sha256, m: nat, d: seq<Bytes>, b: bool): seq<Bytes>
    requires 0 < m <= |d|
    decreases |d|
  {
    if m == |d| then (if b then [] else [MTH(h, d)])
    else
      var k := Split(|d|);
      if m <= k then SubProof(h, m, d[..k], b) + [MTH(h, d[k..])]
      else SubProof(h, m - k, d[k..], false) + [MTH(h, d[..k])]
  }

  /**
   * Two lists of the same length with the same MTH are the same list, unless the
   * returned pair is a SHA-256 collision.
   */
  lemma {:induction false} MTHSound(h: Sha256, d1: seq<Bytes>, d2: seq<Bytes>) returns (x: Bytes, y: Bytes)
    requires |d1| == |d2| && MTH(h, d1) == MTH(h, d2)
    ensures d1 == d2 || IsCollision(h, x, y)
    decreases |d1|, 1
  {
    if |d1| == 0 {
      x, y := [], [];
    } else if |d1| == 1 {
      x, y := LeafSound(h, d1, d2);
    } else {
      x, y := MTHSoundNode(h, d1, d2, Split(|d1|));
    }
  }

  lemma LeafSound(h: Sha256, d1: seq<Bytes>, d2: seq<Bytes>) returns (x: Bytes, y: Bytes)
    requires |d1| == |d2| == 1 && HashLeaf(h, d1[0]) == HashLeaf(h, d2[0])
    ensures d1 == d2 || IsCollision(h, x, y)
  {
    x, y := [LeafPrefix] + d1[0], [LeafPrefix] + d2[0];
    if d1[0] != d2[0] {
      assert x[1..] == d1[0] && y[1..] == d2[0];
    } else {
      assert d1 == [d1[0]] && d2 == [d2[0]];
    }
  }

  lemma {:induction false} MTHSoundNode(h: Sha256, d1: seq<Bytes>, d2: seq<Bytes>, k: nat) returns (x: Bytes, y: Bytes)
    requires |d1| == |d2| > 1 && k == Split(|d1|)
    requires HashChildren(h, MTH(h, d1[..k]), MTH(h, d1[k..])) == HashChildren(h, MTH(h, d2[..k]), MTH(h, d2[k..]))
    ensures d1 == d2 || IsCollision(h, x, y)
    decreases |d1|, 0
  {
    var l1, r1 := MTH(h, d1[..k]), MTH(h, d1[k..]);
    var l2, r2 := MTH(h, d2[..k]), MTH(h, d2[k..]);
    if l1 == l2 && r1 == r2 {
      var x1, y1 := MTHSound(h, d1[..k], d2[..k]);
      x, y := MTHSound(h, d1[k..], d2[k..]);
      if IsCollision(h, x1, y1) {
        x, y := x1, y1;
      } else if d1[k..] == d2[k..] {
        assert d1 == d1[..k] + d1[k..] && d2 == d2[..k] + d2[k..];
      }
    } else {
      x, y := [NodePrefix] + l1 + r1, [NodePrefix] + l2 + r2;
      assert x != y by {
        if x == y {
          NodeInputSplit(l1, r1, l2, r2);
        }
      }
    }
  }

  /** PROOF(m, D[n]) of RFC 6962 section 2.1.2: the consistency proof from size m to size n. */
  function ConsistencyProof(h: Sha256, m: nat, d: seq<Bytes>): seq<Bytes>
    requires 0 < m <= |d|
  {
    SubProof(h, m, d, true)
  }
}
