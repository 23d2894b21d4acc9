/**
 * A skip list of integers (skiplist/src/skiplist.rs).  Every level is a
 * doubly linked chain that starts at a head node holding no value; a node
 * above the bottom level points `below` to the node with the same value one
 * level down, which points back `above`.  The ghost view is `Levels[l]`, the
 * nodes of level `l` in `next` order (its head first), and `Vals[l]`, the
 * values of that level after the head; `Vals[0]` is the contents of the list.
 * The coin flips of `insert` are given as the number of levels the new
 * tower rises above the bottom.
 */
module Skiplist {
  import opened Options

  /** `Sorted(s)`: every level keeps its values in non-decreasing order. */
  ghost predicate Sorted(s: seq<int>)
  {
    forall i, j :: 0 <= i < j < |s| ==> s[i] <= s[j]
  }

  /** `p` is the position where the descent of `insert` puts `x`: after all smaller values, before the rest. */
  ghost predicate IsSlot(s: seq<int>, p: int, x: int)
  {
    && 0 <= p <= |s|
    && (forall i :: 0 <= i < p ==> s[i] < x)
    && (forall i :: p <= i < |s| ==> x <= s[i])
  }

  /** The first `n` values of `s` are all smaller than `x`. */
  ghost predicate AllLess(s: seq<int>, n: int, x: int)
  {
    forall i :: 0 <= i < n && i < |s| ==> s[i] < x
  }

  /** In a sorted level, a value not below position `p`, and not at it, is nowhere. */
  lemma AbsentPast(s: seq<int>, p: int, x: int)
    requires Sorted(s) && 0 <= p <= |s| && AllLess(s, p, x)
    requires p == |s| || x < s[p]
    ensures x !in s
  {
    forall i | 0 <= i < |s| ensures s[i] != x {
      if p <= i {
        assert s[p] <= s[i];
      }
    }
  }

  /** `s` with `x` placed before the first value that is not smaller than it. */
  function InsertSorted(s: seq<int>, x: int): (r: seq<int>)
    ensures multiset(r) == multiset(s) + multiset{x}
    ensures |r| == |s| + 1
  {
    if s == [] || x <= s[0] then [x] + s
    else
      assert s == [s[0]] + s[1..];
      [s[0]] + InsertSorted(s[1..], x)
  }

  /** `s` without its first occurrence of `x`; `s` itself when `x` does not occur. */
  function RemoveFirst(s: seq<int>, x: int): (r: seq<int>)
    ensures x in s ==> multiset(r) == multiset(s) - multiset{x} && |r| == |s| - 1
    ensures x !in s ==> r == s
  {
    if s == [] then []
    else if s[0] == x then
      assert s == [s[0]] + s[1..];
      s[1..]
    else
      assert s == [s[0]] + s[1..];
      [s[0]] + RemoveFirst(s[1..], x)
  }

  /** Inserting at the slot of `x` is `InsertSorted`. */
  lemma {:induction false} InsertAtSlot(s: seq<int>, p: int, x: int)
    requires IsSlot(s, p, x)
    ensures InsertSorted(s, x) == s[..p] + [x] + s[p..]
  {
    if s != [] && s[0] < x {
      InsertAtSlot(s[1..], p - 1, x);
      assert s[1..][..p - 1] == s[1..p];
      assert s[..p] == [s[0]] + s[1..p];
      assert s[1..][p - 1..] == s[p..];
    }
  }

  /** Inserting at the slot of `x` keeps a sorted sequence sorted. */
  lemma SortedAtSlot(s: seq<int>, p: int, x: int)
    requires IsSlot(s, p, x) && Sorted(s)
    ensures Sorted(s[..p] + [x] + s[p..])
  {
    var r := s[..p] + [x] + s[p..];
    forall i, j | 0 <= i < j < |r| ensures r[i] <= r[j] {
      if j < p || i > p {
      } else if i == p {
        assert r[j] == s[j - 1];
      } else {
        assert r[i] == s[i];
      }
    }
  }

  /** In a sorted sequence, removing any occurrence of `x` gives `RemoveFirst`. */
  lemma {:induction false} RemoveAtSorted(s: seq<int>, k: int, x: int)
    requires Sorted(s) && 0 <= k < |s| && s[k] == x
    ensures s[..k] + s[k + 1..] == RemoveFirst(s, x)
  {
    if s[0] == x {
      assert forall i :: 0 <= i <= k ==> s[i] == x;
      var r := s[..k] + s[k + 1..];
      assert |r| == |s[1..]|;
      forall i | 0 <= i < |r| ensures r[i] == s[1..][i] {
        if i < k {
          assert r[i] == s[i] == x == s[i + 1];
        }
      }
    } else {
      assert s[0] < x;
      assert k > 0;
      RemoveAtSorted(s[1..], k - 1, x);
      assert s[1..][..k - 1] == s[1..k];
      assert s[..k] == [s[0]] + s[1..k];
      assert s[1..][k..] == s[k + 1..];
    }
  }

  class SkipNode {
    var val: Option<int>
    var next: SkipNode?
    var prev: SkipNode?
    var below: SkipNode?
    var above: SkipNode?
    /** The level the node is made for; it tells the levels' nodes apart. */
    ghost const level: nat

    /** `SkipNode::new`: a node holding `val`, linked to nothing. */
    constructor (val: Option<int>, ghost level: nat)
      ensures this.val == val && this.level == level
      ensures next == null && prev == null && below == null && above == null
    {
      this.val, this.level := val, level;
      next, prev, below, above := null, null, null, null;
    }
  }

  /**
   * One level: a head holding no value, then one node per value of `vals`,
   * linked both ways by `next`/`prev` and ending in `None`.
   */
  ghost predicate Chained(s: seq<SkipNode>, vals: seq<int>)
    reads s`val, s`next, s`prev
  {
    && |s| == |vals| + 1
    && s[0].val == None && s[0].prev == null
    && s[|s| - 1].next == null
    && (forall i :: 0 <= i < |vals| ==> s[i + 1].val == Some(vals[i]))
    && (forall i :: 0 <= i < |s| - 1 ==> Link(s, i))
    && Sorted(vals)
  }

  /** Positions `i` and `i + 1` of a level point at each other. */
  ghost predicate Link(s: seq<SkipNode>, i: int)
    requires 0 <= i < |s| - 1
    reads s`next, s`prev
  {
    s[i].next == s[i + 1] && s[i + 1].prev == s[i]
  }

  /** Following `next` from two places of a chained level never meets: no node occurs twice. */
  lemma {:induction false} ChainedDistinct(s: seq<SkipNode>, vals: seq<int>, i: int, j: int)
    requires Chained(s, vals) && 0 <= i < j < |s|
    ensures s[i] != s[j]
    decreases |s| - j
  {
    if j < |s| - 1 {
      ChainedDistinct(s, vals, i + 1, j + 1);
      assert Link(s, i) && Link(s, j);
    } else {
      assert Link(s, i);
    }
  }

  /** The node at position `j` of a chained level occurs nowhere else in it. */
  lemma ChainedOthers(s: seq<SkipNode>, vals: seq<int>, j: int)
    requires Chained(s, vals) && 0 <= j < |s|
    ensures forall i :: 0 <= i < |s| && i != j ==> s[i] != s[j]
  {
    forall i | 0 <= i < |s| && i != j ensures s[i] != s[j] {
      if i < j {
        ChainedDistinct(s, vals, i, j);
      } else {
        ChainedDistinct(s, vals, j, i);
      }
    }
  }

  /** The bottom level: nothing below it. */
  ghost predicate Grounded(s: seq<SkipNode>)
    reads s`below
  {
    forall i :: 0 <= i < |s| ==> s[i].below == null
  }

  /**
   * Level `up` stands on level `down`: each node's `below` is a node of
   * `down` with the same value, whose `above` points back to it.
   */
  ghost predicate Stacked(up: seq<SkipNode>, down: seq<SkipNode>)
    reads up`below, up`val, down`val, down`above
  {
    forall i {:trigger up[i].below} :: 0 <= i < |up| ==>
      && up[i].below != null
      && up[i].below in down
      && up[i].below.val == up[i].val
      && up[i].below.above == up[i]
  }

  /** No node of level `up` has `n` below it. */
  ghost predicate NoneStandsOn(up: seq<SkipNode>, n: SkipNode)
    reads up`below
  {
    forall i :: 0 <= i < |up| ==> up[i].below != n
  }

  /** Every node of `a` is a node of `b`. */
  ghost predicate Among(a: seq<SkipNode>, b: seq<SkipNode>)
  {
    forall i :: 0 <= i < |a| ==> a[i] in b
  }

  lemma GroundedAmong(s: seq<SkipNode>, s': seq<SkipNode>)
    requires Grounded(s) && Among(s', s)
    ensures Grounded(s')
  {
  }

  /** Every node of `s` but the one at position `k` remains when that one is cut out. */
  lemma RestAmong(s: seq<SkipNode>, k: int)
    requires 0 <= k < |s|
    ensures forall x :: x in s && x != s[k] ==> x in s[..k] + s[k + 1..]
  {
    forall x | x in s && x != s[k] ensures x in s[..k] + s[k + 1..] {
      var i :| 0 <= i < |s| && s[i] == x;
      assert x == if i < k then s[..k][i] else s[k + 1..][i - k - 1];
    }
  }

  /** A level keeps standing on the level below when it loses nodes. */
  lemma StackedFewer(up: seq<SkipNode>, up': seq<SkipNode>, down: seq<SkipNode>)
    requires Stacked(up, down) && Among(up', up)
    ensures Stacked(up', down)
  {
  }

  /** A level keeps standing when a node of the level below that nothing stands on leaves it. */
  lemma StackedOnRest(up: seq<SkipNode>, down: seq<SkipNode>, down': seq<SkipNode>, at: SkipNode)
    requires Stacked(up, down) && NoneStandsOn(up, at)
    requires forall x :: x in down && x != at ==> x in down'
    ensures Stacked(up, down')
  {
  }

  /**
   * A chained level from which the node at position `k` was unlinked, by
   * pointing its neighbours at each other and changing nothing else, is
   * chained without it.
   */
  twostate lemma UnlinkedChained(s: seq<SkipNode>, new v: seq<int>, new k: int)
    requires old(Chained(s, v)) && 1 <= k < |s|
    requires forall i :: 0 <= i < |s| ==> s[i].val == old(s[i].val)
    requires forall i :: 0 <= i < |s| && i != k - 1 ==> s[i].next == old(s[i].next)
    requires forall i :: 0 <= i < |s| && i != k + 1 ==> s[i].prev == old(s[i].prev)
    requires s[k - 1].next == old(s[k].next)
    requires k + 1 < |s| ==> s[k + 1].prev == s[k - 1]
    ensures Chained(Cut(s, k), Cut(v, k - 1))
  {
    var s', v' := Cut(s, k), Cut(v, k - 1);
    forall i | 0 <= i < |s'| - 1 ensures Link(s', i) {
      if i < k - 1 {
        assert old(Link(s, i));
        assert s'[i] == s[i] && s'[i + 1] == s[i + 1];
      } else if i == k - 1 {
        assert old(Link(s, k));
      } else {
        assert old(Link(s, i + 1));
        assert s'[i] == s[i + 1] && s'[i + 1] == s[i + 2];
      }
    }
    forall i | 0 <= i < |v'| ensures s'[i + 1].val == Some(v'[i]) {
      if i < k - 1 {
        assert s'[i + 1] == s[i + 1] && v'[i] == v[i];
      } else {
        assert s'[i + 1] == s[i + 2] && v'[i] == v[i + 1];
      }
    }
    forall i, j | 0 <= i < j < |v'| ensures v'[i] <= v'[j] {
      var i0 := if i < k - 1 then i else i + 1;
      var j0 := if j < k - 1 then j else j + 1;
      assert v'[i] == v[i0] && v'[j] == v[j0];
    }
  }

  /** `s` without its element at position `k`. */
  function Cut<T>(s: seq<T>, k: int): (r: seq<T>)
    requires 0 <= k < |s|
    ensures |r| == |s| - 1
    ensures forall i :: 0 <= i < k ==> r[i] == s[i]
    ensures forall i :: k <= i < |r| ==> r[i] == s[i + 1]
  {
    s[..k] + s[k + 1..]
  }

  /** Each node of `levels[a]` is in `nodes` and was made for level `a`. */
  ghost predicate Tagged(levels: seq<seq<SkipNode>>, nodes: set<SkipNode>)
  {
    forall a, i :: 0 <= a < |levels| && 0 <= i < |levels[a]| ==> levels[a][i] in nodes && levels[a][i].level == a
  }

  /** Each level stands on the one below it. */
  ghost predicate Towers(levels: seq<seq<SkipNode>>, nodes: set<SkipNode>)
    requires Tagged(levels, nodes)
    reads nodes`below, nodes`val, nodes`above
  {
    forall a, b {:trigger Stacked(levels[a], levels[b])} :: 1 <= a < |levels| && b == a - 1 ==> Stacked(levels[a], levels[b])
  }

  lemma TaggedCut(levels: seq<seq<SkipNode>>, nodes: set<SkipNode>, l: int, k: int)
    requires Tagged(levels, nodes) && 0 <= l < |levels| && 0 <= k < |levels[l]|
    ensures Tagged(levels[l := Cut(levels[l], k)], nodes)
  {
  }

  /** Cutting a node that nothing stands on out of level `l` keeps every level standing. */
  lemma TowersCut(levels: seq<seq<SkipNode>>, nodes: set<SkipNode>, l: int, k: int)
    requires Tagged(levels, nodes) && Towers(levels, nodes) && 0 <= l < |levels| && 0 <= k < |levels[l]|
    requires l + 1 < |levels| ==> NoneStandsOn(levels[l + 1], levels[l][k])
    ensures Tagged(levels[l := Cut(levels[l], k)], nodes) && Towers(levels[l := Cut(levels[l], k)], nodes)
  {
    var s, s' := levels[l], Cut(levels[l], k);
    var levels' := levels[l := s'];
    assert Among(s', s);
    forall a, b | 1 <= a < |levels'| && b == a - 1
      ensures Stacked(levels'[a], levels'[b])
    {
      assert Stacked(levels[a], levels[b]);
      if a == l {
        StackedFewer(s, s', levels[b]);
      } else if b == l {
        RestAmong(s, k);
        StackedOnRest(levels[a], s, s', s[k]);
      }
    }
  }

  /**
   * Levels other than `l` stay chained when no node made for another level
   * changed `val`, `next` or `prev`.
   */
  twostate lemma ChainedElsewhere(levels: seq<seq<SkipNode>>, new vals: seq<seq<int>>, new nodes: set<SkipNode>, new l: int)
    requires |levels| == |vals| && Tagged(levels, nodes)
    requires forall a :: 0 <= a < |levels| && a != l ==> old(Chained(levels[a], vals[a]))
    requires forall n: SkipNode {:trigger n.level} :: old(allocated(n)) && n.level != l ==>
      n.val == old(n.val) && n.next == old(n.next) && n.prev == old(n.prev)
    ensures forall a :: 0 <= a < |levels| && a != l ==> Chained(levels[a], vals[a])
  {
  }

  /**
   * Levels that were shaped before, with level `l` re-chained in place and
   * no `val`, `below` or `above` touched, are shaped.
   */
  twostate lemma ChainedShaped(levels: seq<seq<SkipNode>>, new vals: seq<seq<int>>, new nodes: set<SkipNode>, new l: int)
    requires |levels| >= 1 && |vals| == |levels| && 0 <= l < |levels|
    requires old(allocated(nodes)) && Tagged(levels, nodes) && old(Towers(levels, nodes)) && old(Grounded(levels[0]))
    requires forall a :: 0 <= a < |levels| ==> |levels[a]| == |vals[a]| + 1
    requires forall a :: 0 <= a < |levels| && a != l ==> old(Chained(levels[a], vals[a]))
    requires Chained(levels[l], vals[l])
    requires forall n: SkipNode {:trigger n.level} :: old(allocated(n)) ==>
      n.val == old(n.val) && n.below == old(n.below) && n.above == old(n.above)
    requires forall n: SkipNode {:trigger n.level} :: old(allocated(n)) && n.level != l ==>
      n.next == old(n.next) && n.prev == old(n.prev)
    ensures Shaped(levels, vals, nodes)
  {
    ChainedElsewhere(levels, vals, nodes, l);
  }

  /** `s` with `x` placed at position `k`. */
  function Put<T>(s: seq<T>, k: int, x: T): (r: seq<T>)
    requires 0 <= k <= |s|
    ensures |r| == |s| + 1
    ensures forall i :: 0 <= i < k ==> r[i] == s[i]
    ensures r[k] == x
    ensures forall i :: k <= i < |s| ==> r[i + 1] == s[i]
  {
    s[..k] + [x] + s[k..]
  }

  /**
   * A chained level into which `item` was linked after position `p`, at the
   * slot of its value, by pointing it and its neighbours at each other and
   * changing nothing else, is chained with it.
   */
  twostate lemma LinkedChained(s: seq<SkipNode>, new v: seq<int>, new p: int, new item: SkipNode, new x: int)
    requires old(Chained(s, v)) && 0 <= p < |s| && IsSlot(v, p, x)
    requires item !in s && item.val == Some(x)
    requires forall i :: 0 <= i < |s| ==> s[i].val == old(s[i].val)
    requires forall i :: 0 <= i < |s| && i != p ==> s[i].next == old(s[i].next)
    requires forall i :: 0 <= i < |s| && i != p + 1 ==> s[i].prev == old(s[i].prev)
    requires s[p].next == item && item.prev == s[p] && item.next == old(s[p].next)
    requires p + 1 < |s| ==> s[p + 1].prev == item
    ensures Chained(Put(s, p + 1, item), Put(v, p, x))
  {
    var s', v' := Put(s, p + 1, item), Put(v, p, x);
    forall i | 0 <= i < |s'| - 1 ensures Link(s', i) {
      if i < p {
        assert old(Link(s, i));
        assert s'[i] == s[i] && s'[i + 1] == s[i + 1];
      } else if i == p + 1 {
        assert old(Link(s, p));
      } else if i > p + 1 {
        assert old(Link(s, i - 1));
        assert s'[i] == s[i - 1] && s'[i + 1] == s[i];
      }
    }
    forall i | 0 <= i < |v'| ensures s'[i + 1].val == Some(v'[i]) {
      if i < p {
        assert s'[i + 1] == s[i + 1] && v'[i] == v[i];
      } else if i > p {
        assert s'[i + 1] == s[i] && v'[i] == v[i - 1];
      }
    }
    if p + 1 == |s| {
      assert s'[|s'| - 1] == item;
    } else {
      assert s'[|s'| - 1] == s[|s| - 1];
    }
    SortedAtSlot(v, p, x);
    assert v' == v[..p] + [x] + v[p..];
  }

  lemma TaggedPut(levels: seq<seq<SkipNode>>, nodes: set<SkipNode>, l: int, k: int, item: SkipNode)
    requires Tagged(levels, nodes) && 0 <= l < |levels| && 0 <= k <= |levels[l]| && item.level == l
    ensures Tagged(levels[l := Put(levels[l], k, item)], nodes + {item})
  {
  }

  /**
   * Placing `item` at position `k` of level `l`, standing on `below`, a node
   * of level `l - 1` that nothing stood on, keeps every level standing, and
   * nothing stands on `item`.  Only `item.below` and `below.above` changed.
   */
  twostate lemma TowersPut(levels: seq<seq<SkipNode>>, new nodes: set<SkipNode>, new l: int, new k: int, new item: SkipNode, new below: SkipNode?)
    requires old(allocated(nodes)) && Tagged(levels, nodes) && old(Towers(levels, nodes)) && item !in nodes && item.level == l
    requires 0 <= l < |levels| && 0 <= k <= |levels[l]|
    requires forall n: SkipNode {:trigger n.level} :: old(allocated(n)) ==> n.val == old(n.val)
    requires forall n: SkipNode {:trigger n.level} :: old(allocated(n)) && n != item ==> n.below == old(n.below)
    requires forall n: SkipNode {:trigger n.level} :: old(allocated(n)) && n != below ==> n.above == old(n.above)
    requires l == 0 ==> below == null
    requires l > 0 ==>
      && below != null && below in levels[l - 1] && (forall i :: 0 <= i < |levels[l]| ==> old(levels[l][i].below) != below)
      && item.below == below && below.val == item.val && below.above == item
    ensures Tagged(levels[l := Put(levels[l], k, item)], nodes + {item})
    ensures Towers(levels[l := Put(levels[l], k, item)], nodes + {item})
    ensures l + 1 < |levels| ==> NoneStandsOn(levels[l + 1], item)
  {
    var levels' := levels[l := Put(levels[l], k, item)];
    forall a, b | 1 <= a < |levels'| && b == a - 1
      ensures Stacked(levels'[a], levels'[b])
    {
      assert old(Stacked(levels[a], levels[b]));
      var up := levels'[a];
      forall i | 0 <= i < |up|
        ensures up[i].below != null && up[i].below in levels'[b]
        ensures up[i].below.val == up[i].val && up[i].below.above == up[i]
      {
        if a == l && i == k {
        } else {
          var j := if a == l && i > k then i - 1 else i;
          assert up[i] == levels[a][j];
          assert old(levels[a][j].below) in levels[b];
        }
      }
    }
    if l + 1 < |levels| {
      assert old(Stacked(levels[l + 1], levels[l]));
      var up := levels[l + 1];
      forall i | 0 <= i < |up| ensures up[i].below != item {
        assert old(up[i].below) in levels[l];
      }
    }
  }

  /**
   * `levels` are the chained levels of a skip list, holding `vals`, made of
   * `nodes`: the bottom one stands on nothing and each other one on the
   * level below it.
   */
  ghost predicate Shaped(levels: seq<seq<SkipNode>>, vals: seq<seq<int>>, nodes: set<SkipNode>)
    reads nodes
  {
    && |levels| >= 1 && |vals| == |levels|
    && Tagged(levels, nodes)
    && (forall l :: 0 <= l < |levels| ==> |levels[l]| == |vals[l]| + 1)
    && (forall l {:trigger Chained(levels[l], vals[l])} :: 0 <= l < |levels| ==> Chained(levels[l], vals[l]))
    && Grounded(levels[0])
    && Towers(levels, nodes)
  }

  /**
   * A shaped skip list whose head `levels[|levels| - 1][0]` got a fresh
   * head `h` above it, standing on it, is shaped with one more level holding
   * nothing.  Only `h` and the old head's `above` changed.
   */
  twostate lemma Grown(levels: seq<seq<SkipNode>>, new vals: seq<seq<int>>, new nodes: set<SkipNode>, new h: SkipNode)
    requires old(allocated(nodes)) && old(Shaped(levels, vals, nodes)) && h !in nodes && h.level == |levels|
    requires h.val == None && h.next == null && h.prev == null
    requires forall n: SkipNode {:trigger n.level} :: old(allocated(n)) && n != h ==>
      n.val == old(n.val) && n.next == old(n.next) && n.prev == old(n.prev) && n.below == old(n.below)
    requires forall n: SkipNode {:trigger n.level} :: old(allocated(n)) && n != levels[|levels| - 1][0] ==> n.above == old(n.above)
    requires h.below == levels[|levels| - 1][0] && levels[|levels| - 1][0].above == h
    ensures Shaped(levels + [[h]], vals + [[]], nodes + {h})
  {
    var top := |levels| - 1;
    var levels', vals' := levels + [[h]], vals + [[]];
    assert old(Chained(levels[top], vals[top]));
    forall a | 0 <= a < |levels'|
      ensures Chained(levels'[a], vals'[a])
    {
      if a <= top {
        assert old(Chained(levels[a], vals[a]));
        assert levels'[a] == levels[a] && vals'[a] == vals[a];
      }
    }
    assert old(Grounded(levels[0]));
    assert levels'[0] == levels[0];
    forall a, b | 1 <= a < |levels'| && b == a - 1
      ensures Stacked(levels'[a], levels'[b])
    {
      if a <= top {
        assert old(Stacked(levels[a], levels[b]));
        assert levels'[a] == levels[a] && levels'[b] == levels[b];
      }
    }
  }

  /**
   * `vals` with levels `lo` to `hi` each without their first `item`, removed
   * one level at a time from the top down.
   */
  ghost function RemovedFrom(vals: seq<seq<int>>, item: int, lo: int, hi: int): (r: seq<seq<int>>)
    ensures |r| == |vals|
    decreases if lo <= hi then hi - lo + 1 else 0
  {
    if lo < 0 || hi < lo || |vals| <= hi then vals
    else RemovedFrom(vals, item, lo + 1, hi)[lo := RemoveFirst(vals[lo], item)]
  }

  /** What each level holds once levels `lo` to `hi` lost their first `item`. */
  lemma {:induction false} RemovedAt(vals: seq<seq<int>>, item: int, lo: int, hi: int, a: int)
    requires 0 <= lo && hi < |vals| && 0 <= a < |vals|
    ensures RemovedFrom(vals, item, lo, hi)[a] == if lo <= a <= hi then RemoveFirst(vals[a], item) else vals[a]
    decreases if lo <= hi then hi - lo + 1 else 0
  {
    if lo <= hi && a != lo {
      RemovedAt(vals, item, lo + 1, hi, a);
    }
  }

  /** Levels above `l` not holding `item` lose nothing to `RemoveFirst`. */
  lemma RemovedAll(vals: seq<seq<int>>, item: int, l: int)
    requires 0 <= l < |vals| && forall a :: l < a < |vals| ==> item !in vals[a]
    ensures forall a :: 0 <= a < |vals| ==> RemovedFrom(vals, item, 0, l)[a] == RemoveFirst(vals[a], item)
  {
    forall a | 0 <= a < |vals| ensures RemovedFrom(vals, item, 0, l)[a] == RemoveFirst(vals[a], item) {
      RemovedAt(vals, item, 0, l, a);
    }
  }

  /**
   * `vals` after `item` rose through levels `0` to `h`, one level at a time:
   * an existing level gains it in order, a level above the old top holds it
   * alone.
   */
  ghost function Raised(vals: seq<seq<int>>, item: int, h: int): (r: seq<seq<int>>)
    ensures |r| == if h < |vals| then |vals| else h + 1
    decreases h + 1
  {
    if h < 0 then vals
    else
      var v := Raised(vals, item, h - 1);
      if h < |v| then v[h := InsertSorted(v[h], item)] else v + [InsertSorted([], item)]
  }

  /** What each level holds once `item` rose through levels `0` to `h`. */
  lemma {:induction false} RaisedAt(vals: seq<seq<int>>, item: int, h: int, a: int)
    requires 0 <= a < |Raised(vals, item, h)|
    ensures Raised(vals, item, h)[a] == if a <= h then InsertSorted(if a < |vals| then vals[a] else [], item) else vals[a]
    decreases h + 1
  {
    if 0 <= h && a != h {
      RaisedAt(vals, item, h - 1, a);
    } else if 0 <= h {
      if a < |vals| {
        RaisedAt(vals, item, h - 1, a);
      }
    }
  }

  /** Rising above the top adds a level holding only `item`. */
  lemma RaisedGrow(vals: seq<seq<int>>, item: int, h: int)
    requires 0 <= h && |vals| <= h + 1
    ensures (Raised(vals, item, h) + [[]])[h + 1 := InsertSorted([], item)] == Raised(vals, item, h + 1)
  {
    ghost var v := Raised(vals, item, h);
    assert (v + [[]])[h + 1 := InsertSorted([], item)] == v + [InsertSorted([], item)];
  }

  /** Node `n`, at position `q` of level `a`, is the last one there before the slot of `item`. */
  ghost predicate OnRoute(levels: seq<seq<SkipNode>>, vals: seq<seq<int>>, a: int, n: SkipNode, q: int, item: int)
  {
    0 <= a < |levels| && a < |vals| && 0 <= q < |levels[a]| && n == levels[a][q] && IsSlot(vals[a], q, item)
  }

  class SkipList {
    var head: SkipNode
    var len: nat

    ghost var Levels: seq<seq<SkipNode>>
    ghost var Vals: seq<seq<int>>
    ghost var Nodes: set<SkipNode>

    /** The nodes form a skip list whose levels are `Levels`, holding `Vals`. */
    ghost predicate WellFormed()
      reads this`head, this`Levels, this`Vals, this`Nodes, Nodes
    {
      && Shaped(Levels, Vals, Nodes)
      && |Levels[|Levels| - 1]| > 0 && head == Levels[|Levels| - 1][0]
    }

    /** A skip list whose `len` counts the values of its bottom level. */
    ghost predicate Valid()
      reads this, Nodes
    {
      WellFormed() && len == |Vals[0]|
    }

    /** `SkipList::new`: no values and a single head with nothing after or below it. */
    constructor ()
      ensures Valid() && fresh(Nodes)
      ensures Levels == [[head]] && Vals == [[]] && len == 0
      ensures head.next == null && head.below == null
    {
      var h := new SkipNode(None, 0);
      head, len := h, 0;
      Levels, Vals := [[h]], [[]];
      Nodes := {h};
    }
  
    /** A value held at any level also occurs in the bottom level, found by following `below`. */
    lemma {:induction false} ValueReachesBottom(l: nat, i: nat)
      requires WellFormed() && l < |Levels| && 1 <= i < |Levels[l]|
      ensures Levels[l][i].val.Some? && Levels[l][i].val.value in Vals[0]
    {
      assert Chained(Levels[l], Vals[l]);
      assert Levels[l][i].val == Some(Vals[l][i - 1]);
      if l > 0 {
        assert Stacked(Levels[l], Levels[l - 1]);
        assert Chained(Levels[l - 1], Vals[l - 1]);
        var b := Levels[l][i].below;
        var q :| 0 <= q < |Levels[l - 1]| && Levels[l - 1][q] == b;
        assert Levels[l - 1][0].val == None;
        ValueReachesBottom(l - 1, q);
      }
    }

    /** What follows position `p` of level `l`: the next position, or nothing at the end. */
    lemma NextOf(l: nat, p: nat)
      requires WellFormed() && l < |Levels| && p < |Levels[l]|
      ensures Levels[l][p].next == if p + 1 < |Levels[l]| then Levels[l][p + 1] else null
      ensures p + 1 < |Levels[l]| ==> Levels[l][p + 1].val == Some(Vals[l][p])
    {
      assert Chained(Levels[l], Vals[l]);
      if p + 1 < |Levels[l]| {
        assert Link(Levels[l], p);
      }
    }

    /** Only the bottom level has nothing below it. */
    lemma BelowOf(l: nat, p: nat)
      requires WellFormed() && l < |Levels| && p < |Levels[l]|
      ensures Levels[l][p].below == null <==> l == 0
    {
      if l > 0 {
        assert Stacked(Levels[l], Levels[l - 1]);
      }
    }

    /** A level holds `item` nowhere when it is past all smaller values and not at the next one. */
    lemma LevelAbsent(l: nat, p: nat, item: int)
      requires WellFormed() && l < |Levels| && p < |Levels[l]| && AllLess(Vals[l], p, item)
      requires p == |Vals[l]| || item < Vals[l][p]
      ensures item !in Vals[l]
    {
      assert Chained(Levels[l], Vals[l]);
      AbsentPast(Vals[l], p, item);
    }

    /**
     * Stepping down from position `p` of level `l`, past values all smaller
     * than `item`, lands at a position of level `l - 1` past values all
     * smaller than `item`.
     */
    lemma StepDown(l: nat, p: nat, item: int) returns (q: nat)
      requires WellFormed() && l < |Levels| && p < |Levels[l]|
      requires Levels[l][p].below != null
      requires AllLess(Vals[l], p, item)
      ensures 1 <= l && q < |Levels[l - 1]| && Levels[l][p].below == Levels[l - 1][q]
      ensures AllLess(Vals[l - 1], q, item)
    {
      assert l > 0 by {
        if l == 0 {
          assert Grounded(Levels[0]);
        }
      }
      assert Stacked(Levels[l], Levels[l - 1]);
      assert Chained(Levels[l], Vals[l]);
      assert Chained(Levels[l - 1], Vals[l - 1]);
      var below := Levels[l][p].below;
      q :| 0 <= q < |Levels[l - 1]| && Levels[l - 1][q] == below;
      ghost var down := Vals[l - 1];
      assert 0 < q ==> Levels[l - 1][q].val == Some(down[q - 1]);
      if p != 0 {
        assert Levels[l][p].val == Some(Vals[l][p - 1]);
        assert down[q - 1] == Vals[l][p - 1];
        assert forall i :: 0 <= i < q ==> down[i] <= down[q - 1];
      }
    }

    /**
     * `find`: walks right while the next value is smaller, returns the next
     * node when its value equals `item`, and otherwise steps down; `None` once
     * there is nothing below.  The node found is the top of its tower: no
     * level above it holds `item`.
     */
    method Find(item: int) returns (r: Option<SkipNode>, ghost lvl: nat, ghost pos: nat)
      requires Valid()
      ensures r.Some? <==> item in Vals[0]
      ensures r.Some? ==>
        && lvl < |Levels| && 1 <= pos < |Levels[lvl]| && r.value == Levels[lvl][pos]
        && r.value.val == Some(item)
        && forall l :: lvl < l < |Levels| ==> item !in Vals[l]
    {
      var cur := head;
      ghost var l: nat := |Levels| - 1;
      ghost var p: nat := 0;
      while true
        invariant l < |Levels| && p < |Levels[l]| && cur == Levels[l][p]
        invariant AllLess(Vals[l], p, item)
        invariant forall l' :: l < l' < |Levels| ==> item !in Vals[l']
        decreases l, |Levels[l]| - p
      {
        NextOf(l, p);
        var next := cur.next;
        if next != null {
          var v := next.val.value;
          if v < item {
            cur, p := next, p + 1;
            continue;
          } else if v == item {
            ValueReachesBottom(l, p + 1);
            return Some(next), l, p + 1;
          }
        }
        LevelAbsent(l, p, item);
        BelowOf(l, p);
        var below := cur.below;
        if below != null {
          ghost var q := StepDown(l, p, item);
          cur, l, p := below, l - 1, q;
        } else {
          return None, 0, 0;
        }
      }
    }

    /**
     * The pointer work of `remove_node`: the neighbours of `at`, the node at
     * position `k` of level `l`, now point at each other, and the ghost view
     * loses `at`.
     */
    method Bypass(at: SkipNode, ghost l: nat, ghost k: nat)
      requires |Vals| == |Levels| && l < |Levels| && Chained(Levels[l], Vals[l])
      requires 1 <= k < |Levels[l]| && at == Levels[l][k]
      modifies this`Levels, this`Vals, {Levels[l][k - 1]}`next
      modifies (if k + 1 < |Levels[l]| then {Levels[l][k + 1]} else {})`prev
      ensures Levels == old(Levels[l := Cut(Levels[l], k)])
      ensures Vals == old(Vals[l := Cut(Vals[l], k - 1)])
      ensures Chained(Levels[l], Vals[l])
    {
      ghost var s, v := Levels[l], Vals[l];
      ChainedOthers(s, v, k - 1);
      assert Link(s, k - 1);
      if k + 1 < |s| {
        assert Link(s, k);
        ChainedOthers(s, v, k + 1);
      }
      var prev := at.prev;
      var next := at.next;
      if next != null {
        next.prev := prev;
        prev.next := next;
      } else {
        prev.next := null;
      }
      Levels, Vals := Levels[l := Cut(s, k)], Vals[l := Cut(v, k - 1)];
      UnlinkedChained(s, v, k);
    }

    /**
     * `remove_node`: unlinks `at`, the node at position `k` of level `l`,
     * from its level by joining its neighbours, and returns the node below
     * it.  No node of the level above may still stand on `at`.
     */
    method RemoveNode(at: SkipNode, ghost l: nat, ghost k: nat) returns (below: SkipNode?)
      requires WellFormed() && l < |Levels| && 1 <= k < |Levels[l]| && at == Levels[l][k]
      requires l + 1 < |Levels| ==> NoneStandsOn(Levels[l + 1], at)
      modifies this`Levels, this`Vals, {Levels[l][k - 1]}`next
      modifies (if k + 1 < |Levels[l]| then {Levels[l][k + 1]} else {})`prev
      ensures WellFormed()
      ensures Levels == old(Levels[l := Cut(Levels[l], k)])
      ensures Vals == old(Vals[l := Cut(Vals[l], k - 1)])
      ensures below == at.below
    {
      assert Chained(Levels[l], Vals[l]);
      ghost var s := Levels[l];
      TaggedCut(Levels, Nodes, l, k);
      TowersCut(Levels, Nodes, l, k);
      if l == 0 {
        assert Among(Cut(s, k), s);
        GroundedAmong(s, Cut(s, k));
      }
      below := at.below;
      Bypass(at, l, k);
      ChainedShaped(Levels, Vals, Nodes, l);
    }

    /** The node below position `k` of level `l` is the same value one level down, and stands under it. */
    lemma BelowAt(l: nat, k: nat) returns (q: nat)
      requires WellFormed() && 1 <= l < |Levels| && 1 <= k < |Levels[l]|
      ensures 1 <= q < |Levels[l - 1]| && Levels[l][k].below == Levels[l - 1][q]
      ensures Levels[l - 1][q].above == Levels[l][k] && Levels[l - 1][q].val == Levels[l][k].val
    {
      assert Stacked(Levels[l], Levels[l - 1]);
      assert Chained(Levels[l], Vals[l]) && Chained(Levels[l - 1], Vals[l - 1]);
      q :| 0 <= q < |Levels[l - 1]| && Levels[l - 1][q] == Levels[l][k].below;
      assert Levels[l][k].val == Some(Vals[l][k - 1]);
    }

    /** Only the node that a node of level `l - 1` points `above` to can stand on it. */
    lemma OnlyAbove(l: nat, q: nat, n: SkipNode)
      requires WellFormed() && 1 <= l < |Levels| && q < |Levels[l - 1]|
      requires Levels[l - 1][q].above == n && n !in Levels[l]
      ensures NoneStandsOn(Levels[l], Levels[l - 1][q])
    {
      assert Stacked(Levels[l], Levels[l - 1]);
    }

    /** A value missing from level `l + 1` has nothing standing on its node at level `l`. */
    lemma NoneAbove(l: nat, k: nat, item: int)
      requires WellFormed() && l + 1 < |Levels| && k < |Levels[l]| && Levels[l][k].val == Some(item)
      requires item !in Vals[l + 1]
      ensures NoneStandsOn(Levels[l + 1], Levels[l][k])
    {
      assert Stacked(Levels[l + 1], Levels[l]);
      assert Chained(Levels[l + 1], Vals[l + 1]);
      ghost var up := Levels[l + 1];
      forall i | 0 <= i < |up|
        ensures up[i].below != Levels[l][k]
      {
        if i > 0 {
          assert up[i].val == Some(Vals[l + 1][i - 1]);
        }
      }
    }

    /** Position `k` holds `item` in a sorted level, so cutting it out removes the first `item`. */
    lemma CutIsRemoveFirst(l: nat, k: nat, item: int)
      requires WellFormed() && l < |Levels| && 1 <= k < |Levels[l]| && Levels[l][k].val == Some(item)
      ensures Cut(Vals[l], k - 1) == RemoveFirst(Vals[l], item)
      ensures Levels[l][k] !in Cut(Levels[l], k)
    {
      assert Chained(Levels[l], Vals[l]);
      RemoveAtSorted(Vals[l], k - 1, item);
      ChainedOthers(Levels[l], Vals[l], k);
    }

    /**
     * The first half of `insert_after_above`: the new node `item`, to be
     * placed at position `k` of level `l`, stands on `below`, a node of level
     * `l - 1` that nothing stands on yet; on the bottom level there is no
     * `below`.  Every level then stands on the next once `item` is placed.
     */
    method Stand(below: SkipNode?, item: SkipNode, ghost l: nat, ghost k: nat)
      requires Tagged(Levels, Nodes) && Towers(Levels, Nodes) && item !in Nodes && item.level == l
      requires l < |Levels| && k <= |Levels[l]| && (below == null) == (l == 0)
      requires below != null ==> below in Levels[l - 1] && below.val == item.val && NoneStandsOn(Levels[l], below)
      modifies (if below != null then {below} else {})`above, (if below != null then {item} else {})`below
      ensures Tagged(Levels[l := Put(Levels[l], k, item)], Nodes + {item})
      ensures Towers(Levels[l := Put(Levels[l], k, item)], Nodes + {item})
      ensures l + 1 < |Levels| ==> NoneStandsOn(Levels[l + 1], item)
    {
      if below != null {
        below.above := item;
        item.below := below;
      }
      TowersPut(Levels, Nodes, l, k, item, below);
    }

    /**
     * The second half of `insert_after_above`: `item` goes between `prev`,
     * the node at position `p` of level `l`, and the node after it, and the
     * ghost view gains it there.
     */
    method Splice(prev: SkipNode, item: SkipNode, ghost l: nat, ghost p: nat, ghost x: int)
      requires |Vals| == |Levels| && l < |Levels| && Tagged(Levels, Nodes) && item !in Nodes
      requires forall a {:trigger Chained(Levels[a], Vals[a])} :: 0 <= a < |Levels| ==> Chained(Levels[a], Vals[a])
      requires p < |Levels[l]| && prev == Levels[l][p] && IsSlot(Vals[l], p, x)
      requires item.level == l && item.val == Some(x) && item.next == null
      modifies this`Levels, this`Vals, this`Nodes, {prev}`next, {item}`next, {item}`prev
      modifies (if p + 1 < |Levels[l]| then {Levels[l][p + 1]} else {})`prev
      ensures Levels == old(Levels[l := Put(Levels[l], p + 1, item)])
      ensures Vals == old(Vals[l := Put(Vals[l], p, x)])
      ensures Nodes == old(Nodes) + {item}
      ensures forall a {:trigger Chained(Levels[a], Vals[a])} :: 0 <= a < |Levels| ==> Chained(Levels[a], Vals[a])
    {
      ghost var s, v := Levels[l], Vals[l];
      assert Chained(s, v);
      ChainedOthers(s, v, p);
      if p + 1 < |s| {
        assert Link(s, p);
        ChainedOthers(s, v, p + 1);
      }
      var next := prev.next;
      if next != null {
        next.prev := item;
        item.next := next;
      }
      item.prev := prev;
      prev.next := item;
      Levels, Vals, Nodes := Levels[l := Put(s, p + 1, item)], Vals[l := Put(v, p, x)], Nodes + {item};
      LinkedChained(s, v, p, item, x);
      ChainedElsewhere(old(Levels), old(Vals), old(Nodes), l);
    }

    /**
     * The pointer work of `insert_after_above` on a shaped skip list: `item`
     * stands on `below` and is linked in after `prev`, the node at position
     * `p` of level `l`, which is the slot of its value `x`.
     */
    method Attach(prev: SkipNode, below: SkipNode?, item: SkipNode, ghost l: nat, ghost p: nat, ghost x: int)
      requires Shaped(Levels, Vals, Nodes) && l < |Levels| && p < |Levels[l]| && prev == Levels[l][p]
      requires item !in Nodes && item.level == l && item.val == Some(x) && IsSlot(Vals[l], p, x)
      requires item.next == null && item.below == null
      requires (below == null) == (l == 0)
      requires below != null ==> below in Levels[l - 1] && below.val == item.val && NoneStandsOn(Levels[l], below)
      modifies this`Levels, this`Vals, this`Nodes, {prev}`next, {item}`next, {item}`prev
      modifies (if p + 1 < |Levels[l]| then {Levels[l][p + 1]} else {})`prev
      modifies (if below != null then {below} else {})`above, (if below != null then {item} else {})`below
      ensures Shaped(Levels, Vals, Nodes) && Nodes == old(Nodes) + {item}
      ensures Levels == old(Levels[l := Put(Levels[l], p + 1, item)])
      ensures Vals == old(Vals[l := Put(Vals[l], p, x)])
      ensures l + 1 < |Levels| ==> NoneStandsOn(Levels[l + 1], item)
    {
      ghost var s := Levels[0];
      Stand(below, item, l, p + 1);
      Splice(prev, item, l, p, x);
      if l == 0 {
        assert Grounded(s);
      }
    }

    /**
     * `insert_after_above`: links the new node `item` into level `l` after
     * `prev`, the node at position `p`, which is the slot of its value, and
     * stands it on `below`, the node of its value one level down that nothing
     * stands on yet; on the bottom level there is no `below`.
     */
    method InsertAfterAbove(prev: SkipNode, below: SkipNode?, item: SkipNode, ghost l: nat, ghost p: nat)
      requires WellFormed() && l < |Levels| && p < |Levels[l]| && prev == Levels[l][p]
      requires item !in Nodes && item.level == l && item.val.Some? && IsSlot(Vals[l], p, item.val.value)
      requires item.next == null && item.below == null
      requires (below == null) == (l == 0)
      requires below != null ==> below in Levels[l - 1] && below.val == item.val && NoneStandsOn(Levels[l], below)
      modifies this`Levels, this`Vals, this`Nodes, {prev}`next, {item}`next, {item}`prev
      modifies (if p + 1 < |Levels[l]| then {Levels[l][p + 1]} else {})`prev
      modifies (if below != null then {below} else {})`above, (if below != null then {item} else {})`below
      ensures WellFormed() && Nodes == old(Nodes) + {item}
      ensures Levels == old(Levels[l := Put(Levels[l], p + 1, item)])
      ensures Vals == old(Vals[l := InsertSorted(Vals[l], item.val.value)])
      ensures l + 1 < |Levels| ==> NoneStandsOn(Levels[l + 1], item)
    {
      ghost var v, x := Vals[l], item.val.value;
      InsertAtSlot(v, p, x);
      assert Put(v, p, x) == InsertSorted(v, x);
      Attach(prev, below, item, l, p, x);
    }

    /**
     * The new level of `insert` once its route is used up: a fresh head
     * above the old one, pointing `below` to it, which points back `above`.
     */
    method GrowHead()
      requires WellFormed()
      modifies this`head, this`Levels, this`Vals, this`Nodes, {head}`above
      ensures WellFormed() && fresh(head) && Nodes == old(Nodes) + {head} && head.below == old(head)
      ensures Levels == old(Levels) + [[head]] && Vals == old(Vals) + [[]]
    {
      var h := new SkipNode(None, |Levels|);
      head.above := h;
      h.below := head;
      Grown(Levels, Vals, Nodes, h);
      head := h;
      Levels, Vals, Nodes := Levels + [[h]], Vals + [[]], Nodes + {h};
    }

    /** A value missing from the bottom level is missing from every level. */
    lemma AbsentEverywhere(item: int)
      requires WellFormed() && item !in Vals[0]
      ensures forall l :: 0 <= l < |Vals| ==> item !in Vals[l]
    {
      forall l | 0 <= l < |Vals|
        ensures item !in Vals[l]
      {
        assert Chained(Levels[l], Vals[l]);
        forall i | 0 <= i < |Vals[l]|
          ensures Vals[l][i] != item
        {
          ValueReachesBottom(l, i + 1);
        }
      }
    }

    /**
     * The state of the `while let` loop of `remove`: `at`, at position `j` of
     * level `m`, is the next node of `item`'s tower to unlink, nothing stands
     * on it any more, and levels `m + 1` to `l` lost their `item` from `v0`.
     */
    ghost predicate Falling(item: int, m: nat, at: SkipNode, j: nat, v0: seq<seq<int>>, l: nat)
      reads this`Levels, this`Vals, at`val, (if m + 1 < |Levels| then Levels[m + 1] else [])`below
    {
      && m <= l < |Levels| && 1 <= j < |Levels[m]| && at == Levels[m][j] && at.val == Some(item)
      && (m + 1 < |Levels| ==> NoneStandsOn(Levels[m + 1], at))
      && Vals == RemovedFrom(v0, item, m + 1, l)
    }

    /**
     * One turn of the `while let` loop of `remove`: `remove_node` on the node
     * of `item` at position `j` of level `m`, which then answers the node of
     * `item` one level down, if there is one, with nothing left standing on it.
     */
    method UnlinkLevel(at: SkipNode, ghost item: int, ghost m: nat, ghost j: nat, ghost v0: seq<seq<int>>, ghost l: nat)
        returns (below: SkipNode?, ghost q: nat)
      requires WellFormed() && Falling(item, m, at, j, v0, l)
      modifies this`Levels, this`Vals, {Levels[m][j - 1]}`next, (if j + 1 < |Levels[m]| then {Levels[m][j + 1]} else {})`prev
      ensures WellFormed() && |Levels| == old(|Levels|)
      ensures below == null <==> m == 0
      ensures below == null ==> Vals == RemovedFrom(v0, item, 0, l)
      ensures below != null ==> Falling(item, m - 1, below, q, v0, l)
    {
      CutIsRemoveFirst(m, j, item);
      BelowOf(m, j);
      q := 0;
      if m > 0 {
        q := BelowAt(m, j);
      }
      RemovedAt(v0, item, m + 1, l, m);
      below := RemoveNode(at, m, j);
      if below != null {
        OnlyAbove(m, q, at);
      }
    }

    /**
     * The `while let` loop of `remove`: unlinks the tower standing on the
     * node at position `k` of level `l`, from that node down to the bottom.
     */
    method UnlinkTower(node: SkipNode, ghost item: int, ghost l: nat, ghost k: nat)
      requires WellFormed() && Falling(item, l, node, k, Vals, l)
      modifies this`Levels, this`Vals, Nodes`next, Nodes`prev
      ensures WellFormed() && Vals == RemovedFrom(old(Vals), item, 0, l)
    {
      var at: SkipNode := node;
      ghost var m: nat, j: nat := l, k;
      while true
        invariant WellFormed() && |Levels| == old(|Levels|) && Falling(item, m, at, j, old(Vals), l)
        decreases m
      {
        ghost var q;
        var below;
        below, q := UnlinkLevel(at, item, m, j, old(Vals), l);
        if below == null {
          break;
        }
        at, m, j := below, m - 1, q;
      }
    }

    /**
     * What `remove` does once `find` answered the node at position `k` of
     * level `l`, the top of the tower of `item`: unlinks the tower and
     * counts one value less.
     */
    method UnlinkFound(node: SkipNode, ghost item: int, ghost l: nat, ghost k: nat)
      requires Valid() && l < |Levels| && 1 <= k < |Levels[l]| && node == Levels[l][k] && node.val == Some(item)
      requires item in Vals[0] && forall a :: l < a < |Levels| ==> item !in Vals[a]
      modifies this`Levels, this`Vals, this`len, Nodes`next, Nodes`prev
      ensures Valid() && len == old(len) - 1 && |Vals| == old(|Vals|)
      ensures forall a :: 0 <= a < |Vals| ==> Vals[a] == RemoveFirst(old(Vals[a]), item)
    {
      if l + 1 < |Levels| {
        NoneAbove(l, k, item);
      }
      UnlinkTower(node, item, l, k);
      RemovedAll(old(Vals), item, l);
      len := len - 1;
    }

    /**
     * `remove`: unlinks the whole tower of `item`, from the node `find`
     * returns down to the bottom level, and reports whether there was one.
     * Every level loses its first `item`, if it has one.
     */
    method Remove(item: int) returns (b: bool)
      requires Valid()
      modifies this`Levels, this`Vals, this`len, Nodes`next, Nodes`prev
      ensures Valid()
      ensures b == (item in old(Vals[0]))
      ensures len == if b then old(len) - 1 else old(len)
      ensures |Vals| == old(|Vals|)
      ensures forall l :: 0 <= l < |Vals| ==> Vals[l] == RemoveFirst(old(Vals[l]), item)
    {
      var found;
      ghost var l: nat, k: nat;
      found, l, k := Find(item);
      if found.None? {
        AbsentEverywhere(item);
        return false;
      }
      UnlinkFound(found.value, item, l, k);
      b := true;
    }

    /** Past all smaller values and not past the next one is the slot of `item`. */
    lemma SlotAt(l: nat, p: nat, item: int)
      requires WellFormed() && l < |Levels| && p < |Levels[l]| && AllLess(Vals[l], p, item)
      requires p == |Vals[l]| || item <= Vals[l][p]
      ensures IsSlot(Vals[l], p, item)
    {
      assert Chained(Levels[l], Vals[l]);
      forall i | p <= i < |Vals[l]| ensures item <= Vals[l][i] {
        assert Vals[l][p] <= Vals[l][i];
      }
    }

    /**
     * The descent of `insert`: walks right while the next value is smaller
     * than `item` and steps down otherwise, keeping the node it steps down
     * from on every level (the route, top level first); answers the bottom
     * node after which `item` goes.
     */
    method Descend(item: int) returns (cur: SkipNode, route: seq<SkipNode>, ghost p: nat, ghost spots: seq<nat>)
      requires WellFormed()
      ensures OnRoute(Levels, Vals, 0, cur, p, item)
      ensures |route| == |spots| == |Levels| - 1
      ensures forall i :: 0 <= i < |route| ==> OnRoute(Levels, Vals, |Levels| - 1 - i, route[i], spots[i], item)
    {
      route, spots := [], [];
      cur := head;
      ghost var l: nat := |Levels| - 1;
      p := 0;
      while true
        invariant l < |Levels| && p < |Levels[l]| && cur == Levels[l][p]
        invariant AllLess(Vals[l], p, item)
        invariant |route| == |spots| == |Levels| - 1 - l
        invariant forall i :: 0 <= i < |route| ==> OnRoute(Levels, Vals, |Levels| - 1 - i, route[i], spots[i], item)
        decreases l, |Levels[l]| - p
      {
        NextOf(l, p);
        var next := cur.next;
        if next != null && next.val.value < item {
          cur, p := next, p + 1;
          continue;
        }
        SlotAt(l, p, item);
        BelowOf(l, p);
        var below := cur.below;
        if below == null {
          break;
        }
        ghost var q := StepDown(l, p, item);
        route, spots := route + [cur], spots + [p];
        cur := below;
        l, p := l - 1, q;
      }
    }

    /**
     * The state of the tower loop of `insert`: `at`, at position `p` of level
     * `h`, is the top of `item`'s tower so far, nothing stands on it yet, and
     * levels `0` to `h` hold `item` on top of `v0`.
     */
    ghost predicate Rising(item: int, h: nat, at: SkipNode, p: nat, v0: seq<seq<int>>)
      reads this`Levels, this`Vals, at`val, (if h + 1 < |Levels| then Levels[h + 1] else [])`below
    {
      && h < |Levels| && 1 <= p < |Levels[h]| && at == Levels[h][p] && at.val == Some(item)
      && (h + 1 < |Levels| ==> NoneStandsOn(Levels[h + 1], at))
      && Vals == Raised(v0, item, h)
    }

    /**
     * The route of `insert` still to use: `rest[i]`, at position `ps[i]`, was
     * the last node before the slot of `item` on level `|levels| - 1 - i` of
     * the list as the descent left it (`levels`, `vals`), and those levels
     * are still as they were.
     */
    ghost predicate RouteLeft(item: int, h: nat, rest: seq<SkipNode>, ps: seq<nat>, levels: seq<seq<SkipNode>>, vals: seq<seq<int>>)
      reads this`Levels, this`Vals
    {
      && |rest| == |ps| == |Levels| - 1 - h
      && (forall i :: 0 <= i < |rest| ==> OnRoute(levels, vals, |levels| - 1 - i, rest[i], ps[i], item))
      && (|rest| > 0 ==> |Levels| == |levels| == |Vals| == |vals| && forall a :: h < a < |levels| ==> Levels[a] == levels[a] && Vals[a] == vals[a])
    }

    /**
     * One round of the tower loop of `insert` while the route is not used
     * up: a fresh node for `item` goes in after the route's last node,
     * standing on `at`.
     */
    method RaiseOnRoute(at: SkipNode, item: int, rest: seq<SkipNode>, ghost h: nat, ghost p: nat,
                        ghost ps: seq<nat>, ghost levels: seq<seq<SkipNode>>, ghost vals: seq<seq<int>>, ghost v0: seq<seq<int>>)
        returns (n: SkipNode, rest': seq<SkipNode>, ghost p': nat, ghost ps': seq<nat>)
      requires WellFormed() && Rising(item, h, at, p, v0) && RouteLeft(item, h, rest, ps, levels, vals) && |rest| > 0
      modifies this`Levels, this`Vals, this`Nodes, Nodes`next, Nodes`prev, Nodes`above
      ensures WellFormed() && Rising(item, h + 1, n, p', v0) && RouteLeft(item, h + 1, rest', ps', levels, vals)
      ensures Nodes == old(Nodes) + {n} && fresh(n)
    {
      var prev := rest[|rest| - 1];
      ghost var pp := ps[|ps| - 1];
      rest', ps' := rest[..|rest| - 1], ps[..|ps| - 1];
      assert OnRoute(levels, vals, h + 1, prev, pp, item);
      n := new SkipNode(Some(item), h + 1);
      InsertAfterAbove(prev, at, n, h + 1, pp);
      p' := pp + 1;
    }

    /**
     * One round of the tower loop of `insert` once the route is used up: a
     * fresh head goes on top, and a fresh node for `item` after it, standing
     * on `at`.
     */
    method RaiseOnNewHead(at: SkipNode, item: int, ghost h: nat, ghost p: nat, ghost v0: seq<seq<int>>)
        returns (n: SkipNode)
      requires WellFormed() && Rising(item, h, at, p, v0) && h + 1 == |Levels| && |v0| <= h + 1
      modifies this`head, this`Levels, this`Vals, this`Nodes, {head, at}`above
      ensures WellFormed() && Rising(item, h + 1, n, 1, v0) && |Levels| == h + 2
      ensures fresh(head) && fresh(n) && Nodes == old(Nodes) + {head, n}
    {
      n := new SkipNode(Some(item), h + 1);
      assert Chained(Levels[h], Vals[h]);
      RaisedGrow(v0, item, h);
      GrowHead();
      InsertAfterAbove(head, at, n, h + 1, 0);
    }

    /**
     * One round of the tower loop of `insert`: the next node of the route if
     * there is one left, a fresh head otherwise, gets a fresh node for `item`
     * after it, standing on `at`.
     */
    method RaiseOnce(at: SkipNode, item: int, rest: seq<SkipNode>, ghost h: nat, ghost p: nat,
                     ghost ps: seq<nat>, ghost levels: seq<seq<SkipNode>>, ghost vals: seq<seq<int>>, ghost v0: seq<seq<int>>)
        returns (n: SkipNode, rest': seq<SkipNode>, ghost p': nat, ghost ps': seq<nat>)
      requires WellFormed() && Rising(item, h, at, p, v0) && RouteLeft(item, h, rest, ps, levels, vals)
      modifies this`head, this`Levels, this`Vals, this`Nodes, Nodes`next, Nodes`prev, Nodes`above
      ensures WellFormed() && Rising(item, h + 1, n, p', v0) && RouteLeft(item, h + 1, rest', ps', levels, vals)
      ensures old(Nodes) <= Nodes && forall x :: x in Nodes && x !in old(Nodes) ==> fresh(x)
    {
      if |rest| > 0 {
        n, rest', p', ps' := RaiseOnRoute(at, item, rest, h, p, ps, levels, vals, v0);
      } else {
        n := RaiseOnNewHead(at, item, h, p, v0);
        rest', p', ps' := rest, 1, ps;
      }
    }

    /**
     * The tower loop of `insert`: `below`, the node of `item` on the bottom
     * level, gets one node standing on it for each of the `height` coin
     * flips that come up true, after the route's nodes `route` from the
     * bottom up and after fresh heads once the route is used up.
     */
    method RaiseTower(below: SkipNode, item: int, height: nat, route: seq<SkipNode>,
                      ghost pb: nat, ghost spots: seq<nat>, ghost v0: seq<seq<int>>)
      requires WellFormed() && Rising(item, 0, below, pb, v0) && RouteLeft(item, 0, route, spots, Levels, Vals)
      modifies this`head, this`Levels, this`Vals, this`Nodes, Nodes`next, Nodes`prev, Nodes`above
      ensures WellFormed() && Vals == Raised(v0, item, height)
    {
      ghost var levels, vals := Levels, Vals;
      var at, rest, h := below, route, 0;
      ghost var p, ps := pb, spots;
      while h < height
        invariant WellFormed() && old(Nodes) <= Nodes && forall x :: x in Nodes && x !in old(Nodes) ==> fresh(x)
        invariant h <= height && Rising(item, h, at, p, v0) && RouteLeft(item, h, rest, ps, levels, vals)
        decreases height - h
      {
        at, rest, p, ps := RaiseOnce(at, item, rest, h, p, ps, levels, vals, v0);
        h := h + 1;
      }
    }

    /**
     * The first half of `insert`: the descent, then a fresh node for `item`
     * on the bottom level after the node it reaches.
     */
    method InsertBottom(item: int) returns (node: SkipNode, route: seq<SkipNode>, ghost pb: nat, ghost spots: seq<nat>)
      requires WellFormed()
      modifies this`Levels, this`Vals, this`Nodes, Nodes`next, Nodes`prev
      ensures WellFormed() && Nodes == old(Nodes) + {node} && fresh(node)
      ensures Rising(item, 0, node, pb, old(Vals)) && RouteLeft(item, 0, route, spots, Levels, Vals)
    {
      var cur;
      ghost var p;
      cur, route, p, spots := Descend(item);
      node := new SkipNode(Some(item), 0);
      InsertAfterAbove(cur, null, node, 0, p);
      pb := p + 1;
    }

    /**
     * `insert`: `item` goes in on the bottom level after the node the
     * descent reaches, then rises one level for each of the `height` coin
     * flips that come up true before the first false one.
     */
    method Insert(item: int, height: nat)
      requires Valid()
      modifies this`head, this`len, this`Levels, this`Vals, this`Nodes, Nodes`next, Nodes`prev, Nodes`above
      ensures Valid() && len == old(len) + 1
      ensures Vals == Raised(old(Vals), item, height)
      ensures Vals[0] == InsertSorted(old(Vals[0]), item)
    {
      var node, route;
      ghost var pb, spots;
      node, route, pb, spots := InsertBottom(item);
      RaiseTower(node, item, height, route, pb, spots, old(Vals));
      len := len + 1;
      RaisedAt(old(Vals), item, height, 0);
    }

    /** `get`: the node `find` returns. */
    method Get(item: int) returns (r: Option<SkipNode>)
      requires Valid()
      ensures r.Some? <==> item in Vals[0]
      ensures r.Some? ==> r.value.val == Some(item) && r.value in Nodes
    {
      ghost var l, p;
      r, l, p := Find(item);
    }
}
}
