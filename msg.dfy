/**
 * The `NearNode` record of Kademlia (little_kademlia/src/msg.rs): a node id,
 * its address and its XOR distance to some target.  Its ordering compares
 * distances only and in reverse, so that a max-heap of `NearNode`s hands
 * out the nearest node first.
 */
module Msg {
  import opened Options

  /** `IdType` of the source: 16-bit node ids. */
  newtype Id = x: int | 0 <= x < 0x1_0000

  /** `2^n`. */
  function Pow2(n: nat): (r: nat)
    ensures r >= 1
  {
    if n == 0 then 1 else 2 * Pow2(n - 1)
  }

  /** Powers of two multiply by adding exponents. */
  lemma {:induction false} Pow2Add(m: nat, n: nat)
    ensures Pow2(m + n) == Pow2(m) * Pow2(n)
  {
    if m > 0 {
      Pow2Add(m - 1, n);
    }
  }

  /** A `u16` holds values below `2^16`. */
  lemma Pow2Sixteen()
    ensures Pow2(16) == 0x1_0000
  {
    assert Pow2(4) == 16;
    Pow2Add(4, 4);
    Pow2Add(8, 8);
  }

  /** Bitwise exclusive or of two naturals, lowest bit first. */
  function XorNat(a: nat, b: nat): nat
    decreases a + b
  {
    if a == 0 && b == 0 then 0
    else 2 * XorNat(a / 2, b / 2) + (if a % 2 == b % 2 then 0 else 1)
  }

  /** Exclusive or keeps values of `n` bits within `n` bits. */
  lemma {:induction false} XorBelow(a: nat, b: nat, n: nat)
    requires a < Pow2(n) && b < Pow2(n)
    ensures XorNat(a, b) < Pow2(n)
  {
    if n > 0 && (a != 0 || b != 0) {
      XorBelow(a / 2, b / 2, n - 1);
    }
  }

  /** Exclusive or with the same value twice gives back the first. */
  lemma {:induction false} XorCancelNat(a: nat, t: nat)
    ensures XorNat(XorNat(a, t), t) == a
    decreases a + t
  {
    var x := XorNat(a, t);
    if a != 0 || t != 0 {
      XorCancelNat(a / 2, t / 2);
      assert x / 2 == XorNat(a / 2, t / 2) && x % 2 == (if a % 2 == t % 2 then 0 else 1);
    }
  }

  /** `^` on ids. */
  function Xor(a: Id, b: Id): Id
  {
    Pow2Sixteen();
    XorBelow(a as nat, b as nat, 16);
    XorNat(a as nat, b as nat) as Id
  }

  /** Exclusive or with a fixed id is its own inverse, hence one to one. */
  lemma XorCancel(a: Id, t: Id)
    ensures Xor(Xor(a, t), t) == a
  {
    XorCancelNat(a as nat, t as nat);
  }

  /** Two ids at the same distance from one target are the same id. */
  lemma XorInjective(a: Id, b: Id, t: Id)
    requires Xor(a, t) == Xor(b, t)
    ensures a == b
  {
    XorCancel(a, t);
    XorCancel(b, t);
  }

  /** A value is at distance zero from itself. */
  lemma {:induction false} XorSelf(a: nat)
    ensures XorNat(a, a) == 0
  {
    if a != 0 {
      XorSelf(a / 2);
    }
  }

  /** A socket address; only compared for equality and handed on. */
  type Addr = string

  /** `std::cmp::Ordering`. */
  datatype Ordering = Less | Equal | Greater
  {
    /** `Ordering::reverse`. */
    function Reverse(): (r: Ordering)
      ensures r == Less <==> this == Greater
      ensures r == Equal <==> this == Equal
      ensures r == Greater <==> this == Less
    {
      match this
      case Less => Greater
      case Equal => Equal
      case Greater => Less
    }
  }

  /** `u16::cmp`: the natural order of ids. */
  function CmpId(a: Id, b: Id): (r: Ordering)
    ensures r == Less <==> a < b
    ensures r == Equal <==> a == b
    ensures r == Greater <==> a > b
  {
    if a < b then Less else if a == b then Equal else Greater
  }

  datatype NearNode = NearNode(dist: Id, id: Id, addr: Addr)

  /**
   * `Ord::cmp` for `NearNode`: the distances compared the other way round,
   * so the farther node is the smaller one; ids and addresses play no part.
   */
  function Cmp(a: NearNode, b: NearNode): (r: Ordering)
    ensures r == Less <==> a.dist > b.dist
    ensures r == Equal <==> a.dist == b.dist
    ensures r == Greater <==> a.dist < b.dist
  {
    CmpId(b.dist, a.dist)
  }

  /** `PartialOrd::partial_cmp`: always defined, and agrees with `Cmp`. */
  function PartialCmp(a: NearNode, b: NearNode): (r: Option<Ordering>)
    ensures r.Some?
    ensures r == Some(Less) <==> a.dist > b.dist
    ensures r == Some(Equal) <==> a.dist == b.dist
    ensures r == Some(Greater) <==> a.dist < b.dist
  {
    Some(Cmp(a, b))
  }

  /** `a <= b` under the ordering of `NearNode`. */
  predicate Le(a: NearNode, b: NearNode)
  {
    Cmp(a, b) != Greater
  }

  /** Swapping the arguments reverses the answer. */
  lemma CmpAntisymmetric(a: NearNode, b: NearNode)
    ensures Cmp(b, a) == Cmp(a, b).Reverse()
  {
  }

  /** The ordering is a total preorder: reflexive, total and transitive. */
  lemma LeTotalPreorder(a: NearNode, b: NearNode, c: NearNode)
    ensures Le(a, a)
    ensures Le(a, b) || Le(b, a)
    ensures Le(a, b) && Le(b, c) ==> Le(a, c)
  {
  }

  /** The greatest `NearNode` is the nearest one. */
  lemma GreatestIsNearest(s: seq<NearNode>, m: nat)
    requires m < |s| && forall i :: 0 <= i < |s| ==> Le(s[i], s[m])
    ensures forall i :: 0 <= i < |s| ==> s[m].dist <= s[i].dist
  {
  }

  /**
   * `Cmp` answers `Equal` for nodes that the derived `==` tells apart: two
   * different ids at the same distance.
   */
  lemma EqualIsCoarser()
    ensures var a, b := NearNode(3, 1, "a"), NearNode(3, 2, "b");
      Cmp(a, b) == Equal && a != b
  {
  }
}
