/**
 * A doubly linked list with a head and a tail sentinel (linklist/src/linklist.rs).
 * Nodes are heap objects whose `next` and `prev` links are rewired in place;
 * the list keeps a `len` counter beside them.  The ghost view of a list is
 * `Contents`, the values front to back, and `Nodes`, the element nodes that
 * hold them; `Repr` is the set of objects the list is made of.
 */
module Linklist {
  import opened Options

  /** A list node: `val` is `None` exactly for the two sentinels. */
  class LinkNode<T> {
    var val: Option<T>
    var next: LinkNode?<T>
    var prev: LinkNode?<T>

    /** `LinkNode::wrap`: a fresh node holding `val`, linked to nothing. */
    constructor Wrap(val: Option<T>)
      ensures this.val == val && next == null && prev == null
    {
      this.val := val;
      next := null;
      prev := null;
    }
  }

  class LinkList<T> {
    var len: nat
    var head: LinkNode<T>
    var tail: LinkNode<T>

    ghost var Contents: seq<T>
    ghost var Nodes: seq<LinkNode<T>>
    ghost var Repr: set<object>

    /** The whole chain, sentinels included, in `next` order. */
    ghost function Chain(): seq<LinkNode<T>>
      reads this
    {
      [head] + Nodes + [tail]
    }

    ghost predicate Valid()
      reads this, Repr
      ensures Valid() ==> this in Repr
    {
      && this in Repr && head in Repr && tail in Repr
      && (forall i :: 0 <= i < |Nodes| ==> Nodes[i] in Repr)
      && head != tail
      && head.val == None && tail.val == None
      && head.prev == null && tail.next == null
      && len == |Nodes| == |Contents|
      && (forall i :: 0 <= i < |Nodes| ==> Nodes[i].val == Some(Contents[i]))
      && (forall i, j :: 0 <= i < j < |Nodes| ==> Nodes[i] != Nodes[j])
      && (Nodes == [] ==> head.next == tail && tail.prev == head)
      && (Nodes != [] ==>
            && head.next == Nodes[0] && Nodes[0].prev == head
            && Nodes[|Nodes| - 1].next == tail && tail.prev == Nodes[|Nodes| - 1])
      && (forall i :: 0 <= i < |Nodes| - 1 ==> Nodes[i].next == Nodes[i + 1] && Nodes[i + 1].prev == Nodes[i])
    }

    /** Consecutive nodes of the chain are linked both ways. */
    lemma ChainLinked(i: nat)
      requires Valid() && i < |Nodes| + 1
      ensures Chain()[i].next == Chain()[i + 1] && Chain()[i + 1].prev == Chain()[i]
    {
    }

    /** `LinkList::new`: an empty list whose head and tail sentinels point at each other. */
    constructor ()
      ensures Valid() && fresh(Repr)
      ensures Contents == [] && len == 0
      ensures head.next == tail && tail.prev == head
    {
      var h := new LinkNode.Wrap(None);
      var t := new LinkNode.Wrap(None);
      t.prev := h;
      h.next := t;
      len, head, tail := 0, h, t;
      Contents, Nodes := [], [];
      Repr := {this, h, t};
    }

    /** `len`: the number of elements. */
    function Len(): (r: nat)
      reads this, Repr
      requires Valid()
      ensures r == |Contents|
    {
      len
    }

    /** `first_node`: the node after the head sentinel; the tail when the list is empty. */
    function FirstNode(): (r: LinkNode<T>)
      reads this, Repr
      requires Valid()
      ensures r == if Nodes == [] then tail else Nodes[0]
    {
      head.next
    }

    /** `last_node`: the node before the tail sentinel; the head when the list is empty. */
    function LastNode(): (r: LinkNode<T>)
      reads this, Repr
      requires Valid()
      ensures r == if Nodes == [] then head else Nodes[|Nodes| - 1]
    {
      tail.prev
    }

    /** `insert_between`: links `item` between the adjacent nodes `after` and `before`. */
    static method InsertBetween(after: LinkNode<T>, before: LinkNode<T>, item: LinkNode<T>)
      requires item != after && item != before
      modifies before`prev, item`next, item`prev, after`next
      ensures after.next == item && item.prev == after
      ensures item.next == before && before.prev == item
      ensures after != before ==> after.prev == old(after.prev) && before.next == old(before.next)
    {
      before.prev := item;
      item.next := before;
      item.prev := after;
      after.next := item;
    }

    /** `remove`: unlinks `at` from its neighbours, which are linked to each other instead. */
    static method Remove(at: LinkNode<T>) returns (r: LinkNode<T>)
      requires at.prev != null && at.next != null
      requires at.prev != at && at.next != at
      modifies at`prev, at`next, at.next`prev, at.prev`next
      ensures r == at && at.prev == null && at.next == null
      ensures old(at.next).prev == old(at.prev) && old(at.prev).next == old(at.next)
      ensures old(at.prev) != old(at.next) ==>
                old(at.prev).prev == old(at.prev.prev) && old(at.next).next == old(at.next.next)
    {
      var prev := at.prev;
      at.prev := null;
      var next := at.next;
      at.next := null;
      next.prev := prev;
      prev.next := next;
      r := at;
    }

    /** `push_back_node`: links the detached node `item` in before the tail sentinel. */
    method PushBackNode(item: LinkNode<T>) returns (r: LinkNode<T>)
      requires Valid() && item !in Repr && item.val.Some?
      modifies Repr, item`next, item`prev
      ensures Valid() && Repr == old(Repr) + {item}
      ensures Contents == old(Contents) + [item.val.value] && Nodes == old(Nodes) + [item]
      ensures len == old(len) + 1 && r == item
      ensures head == old(head) && tail == old(tail)
    {
      var last := LastNode();
      len := len + 1;
      InsertBetween(last, tail, item);
      Nodes := Nodes + [item];
      Contents := Contents + [item.val.value];
      Repr := Repr + {item};
      r := item;
    }

    /** `push_front_node`: links the detached node `item` in after the head sentinel. */
    method PushFrontNode(item: LinkNode<T>) returns (r: LinkNode<T>)
      requires Valid() && item !in Repr && item.val.Some?
      modifies Repr, item`next, item`prev
      ensures Valid() && Repr == old(Repr) + {item}
      ensures Contents == [item.val.value] + old(Contents) && Nodes == [item] + old(Nodes)
      ensures len == old(len) + 1 && r == item
      ensures head == old(head) && tail == old(tail)
    {
      var first := FirstNode();
      len := len + 1;
      InsertBetween(head, first, item);
      Nodes := [item] + Nodes;
      Contents := [item.val.value] + Contents;
      Repr := Repr + {item};
      r := item;
    }

    /** `push_back`: appends `item`; returns the node that now holds it. */
    method PushBack(item: T) returns (r: LinkNode<T>)
      requires Valid()
      modifies Repr
      ensures Valid() && fresh(Repr - old(Repr))
      ensures Contents == old(Contents) + [item] && len == old(len) + 1
      ensures Nodes == old(Nodes) + [r] && fresh(r) && r.val == Some(item)
    {
      var node := new LinkNode.Wrap(Some(item));
      r := PushBackNode(node);
    }

    /** `push_front`: prepends `item`; returns the node that now holds it. */
    method PushFront(item: T) returns (r: LinkNode<T>)
      requires Valid()
      modifies Repr
      ensures Valid() && fresh(Repr - old(Repr))
      ensures Contents == [item] + old(Contents) && len == old(len) + 1
      ensures Nodes == [r] + old(Nodes) && fresh(r) && r.val == Some(item)
    {
      var node := new LinkNode.Wrap(Some(item));
      r := PushFrontNode(node);
    }

    /** `pop_back_node`: on an empty list `None` and no change; otherwise unlinks the last node. */
    method PopBackNode() returns (r: Option<LinkNode<T>>)
      requires Valid()
      modifies Repr
      ensures Valid() && Repr <= old(Repr)
      ensures old(len) == 0 ==> r == None && Contents == old(Contents) && len == 0
      ensures old(len) > 0 ==>
        && r == Some(old(Nodes)[old(len) - 1])
        && r.value.val == Some(old(Contents)[old(len) - 1])
        && r.value !in Repr && r.value.next == null && r.value.prev == null
        && Contents == old(Contents)[..old(len) - 1] && Nodes == old(Nodes)[..old(len) - 1]
        && len == old(len) - 1
      ensures head == old(head) && tail == old(tail)
    {
      if len == 0 {
        return None;
      }
      var last := LastNode();
      assert last.prev == if |Nodes| == 1 then head else Nodes[|Nodes| - 2];
      len := len - 1;
      var node := Remove(last);
      Nodes := Nodes[..|Nodes| - 1];
      Contents := Contents[..|Contents| - 1];
      Repr := Repr - {node};
      r := Some(node);
    }

    /** `pop_front_node`: on an empty list `None` and no change; otherwise unlinks the first node. */
    method PopFrontNode() returns (r: Option<LinkNode<T>>)
      requires Valid()
      modifies Repr
      ensures Valid() && Repr <= old(Repr)
      ensures old(len) == 0 ==> r == None && Contents == old(Contents) && len == 0
      ensures old(len) > 0 ==>
        && r == Some(old(Nodes)[0])
        && r.value.val == Some(old(Contents)[0])
        && r.value !in Repr && r.value.next == null && r.value.prev == null
        && Contents == old(Contents)[1..] && Nodes == old(Nodes)[1..]
        && len == old(len) - 1
      ensures head == old(head) && tail == old(tail)
    {
      if len == 0 {
        return None;
      }
      var first := FirstNode();
      assert first.next == if |Nodes| == 1 then tail else Nodes[1];
      len := len - 1;
      var node := Remove(first);
      Nodes := Nodes[1..];
      Contents := Contents[1..];
      Repr := Repr - {node};
      r := Some(node);
    }

    /** `pop_back`: `None` on an empty list; otherwise removes and returns the last element. */
    method PopBack() returns (r: Option<T>)
      requires Valid()
      modifies Repr
      ensures Valid() && Repr <= old(Repr)
      ensures old(Contents) == [] ==> r == None && Contents == []
      ensures old(Contents) != [] ==>
        r == Some(old(Contents)[|old(Contents)| - 1]) && Contents == old(Contents)[..|old(Contents)| - 1]
      ensures len == |Contents|
    {
      var back := PopBackNode();
      if back.Some? {
        r := Some(back.value.val.value);
      } else {
        r := None;
      }
    }

    /** `pop_front`: `None` on an empty list; otherwise removes and returns the first element. */
    method PopFront() returns (r: Option<T>)
      requires Valid()
      modifies Repr
      ensures Valid() && Repr <= old(Repr)
      ensures old(Contents) == [] ==> r == None && Contents == []
      ensures old(Contents) != [] ==> r == Some(old(Contents)[0]) && Contents == old(Contents)[1..]
      ensures len == |Contents|
    {
      var front := PopFrontNode();
      if front.Some? {
        r := Some(front.value.val.value);
      } else {
        r := None;
      }
    }

    /** `iter`: a cursor standing on the head sentinel. */
    method Iter() returns (it: Iter<T>)
      requires Valid()
      ensures fresh(it) && it.Valid() && it.data == this && it.pos == 0
    {
      it := new Iter(this, head, 0);
    }

    /** `rev_iter`: a cursor standing on the tail sentinel. */
    method RevIter() returns (it: Iter<T>)
      requires Valid()
      ensures fresh(it) && it.Valid() && it.data == this && it.pos == |Nodes| + 1
    {
      it := new Iter(this, tail, |Nodes| + 1);
    }
  }

  /**
   * The cursor of linklist/src/iter.rs: `cur` is a node of `data`, at ghost
   * position `pos` of `data.Chain()` (0 is the head, `|data.Nodes| + 1` the tail).
   */
  class Iter<T> {
    const data: LinkList<T>
    var cur: LinkNode<T>
    ghost var pos: nat

    ghost predicate Valid()
      reads this, data, data.Repr
    {
      data.Valid() && pos < |data.Nodes| + 2 && cur == data.Chain()[pos]
    }

    constructor (data: LinkList<T>, cur: LinkNode<T>, ghost pos: nat)
      requires data.Valid() && pos < |data.Nodes| + 2 && cur == data.Chain()[pos]
      ensures Valid() && this.data == data && this.pos == pos
    {
      this.data, this.cur, this.pos := data, cur, pos;
    }

    /**
     * `next`: steps to the following node and returns it, or returns `None`
     * without moving when that node is the tail.  The source unwraps `cur.next`,
     * so the cursor must not stand on the tail.
     */
    method Next() returns (r: Option<LinkNode<T>>)
      requires Valid() && pos < |data.Nodes| + 1
      modifies this`cur, this`pos
      ensures Valid()
      ensures old(pos) == |data.Nodes| ==> r == None && pos == old(pos)
      ensures old(pos) < |data.Nodes| ==>
        && pos == old(pos) + 1
        && r == Some(data.Nodes[old(pos)])
        && r.value.val == Some(data.Contents[old(pos)])
    {
      data.ChainLinked(pos);
      var n := cur.next;
      if n == data.tail {
        return None;
      }
      cur := n;
      pos := pos + 1;
      r := Some(n);
    }

    /**
     * `prev`: steps to the preceding node and returns it, or returns `None`
     * without moving when that node is the head.  The source unwraps `cur.prev`,
     * so the cursor must not stand on the head.
     */
    method Prev() returns (r: Option<LinkNode<T>>)
      requires Valid() && 0 < pos
      modifies this`cur, this`pos
      ensures Valid()
      ensures old(pos) == 1 ==> r == None && pos == old(pos)
      ensures old(pos) > 1 ==>
        && pos == old(pos) - 1
        && r == Some(data.Nodes[old(pos) - 2])
        && r.value.val == Some(data.Contents[old(pos) - 2])
    {
      data.ChainLinked(pos - 1);
      var p := cur.prev;
      if p == data.head {
        return None;
      }
      cur := p;
      pos := pos - 1;
      r := Some(p);
    }
  }

  /** The values of `s` in reverse order. */
  function Reverse<T>(s: seq<T>): (r: seq<T>)
    ensures |r| == |s|
  {
    if s == [] then [] else Reverse(s[1..]) + [s[0]]
  }

  /** Reversing a suffix puts its first value last. */
  lemma ReverseFrom<T>(s: seq<T>, k: nat)
    requires k < |s|
    ensures Reverse(s[k..]) == Reverse(s[k + 1..]) + [s[k]]
  {
    assert s[k..][1..] == s[k + 1..];
  }

  lemma {:induction false} ReverseAt<T>(s: seq<T>, k: nat)
    requires k < |s|
    ensures Reverse(s)[k] == s[|s| - 1 - k]
  {
    if k < |s| - 1 {
      ReverseAt(s[1..], k);
    }
  }

  /**
   * Drives a fresh `iter()` cursor with `next` until it returns `None`
   * (`test_iter`): the values come out front to back, every one of them.
   */
  method ForwardValues<T>(list: LinkList<T>) returns (vals: seq<T>)
    requires list.Valid()
    ensures vals == list.Contents
  {
    var it := list.Iter();
    vals := [];
    while true
      invariant it.Valid() && it.data == list
      invariant it.pos <= |list.Nodes|
      invariant vals == list.Contents[..it.pos]
      decreases |list.Nodes| - it.pos
    {
      var n := it.Next();
      if n == None {
        break;
      }
      vals := vals + [n.value.val.value];
    }
  }

  /**
   * Drives a fresh `rev_iter()` cursor with `prev` until it returns `None`
   * (`test_rev_iter`): the values come out back to front, every one of them.
   */
  method BackwardValues<T>(list: LinkList<T>) returns (vals: seq<T>)
    requires list.Valid()
    ensures vals == Reverse(list.Contents)
  {
    var it := list.RevIter();
    vals := [];
    while true
      invariant it.Valid() && it.data == list
      invariant 1 <= it.pos
      invariant vals == Reverse(list.Contents[it.pos - 1..])
      decreases it.pos
    {
      var n := it.Prev();
      if n == None {
        break;
      }
      ReverseFrom(list.Contents, it.pos - 1);
      vals := vals + [n.value.val.value];
    }
  }

  /** `test_push`: push_front 2, push_back 3, push_back 4, push_front 1 give [1, 2, 3, 4]. */
  method MixedPushes() returns (vals: seq<int>, len: nat)
    ensures vals == [1, 2, 3, 4] && len == 4
  {
    var list := new LinkList<int>();
    var _ := list.PushFront(2);
    var _ := list.PushBack(3);
    var _ := list.PushBack(4);
    var _ := list.PushFront(1);
    vals := ForwardValues(list);
    len := list.Len();
  }

  /** `test_pop_back`: popping [1, 2, 3] from the back yields 3, 2, 1 and then `None`. */
  method PopBackAll() returns (popped: seq<Option<int>>, rest: seq<int>)
    ensures popped == [Some(3), Some(2), Some(1), None] && rest == []
  {
    var list := new LinkList<int>();
    var _ := list.PushBack(1);
    var _ := list.PushBack(2);
    var _ := list.PushBack(3);
    var a := list.PopBack();
    var b := list.PopBack();
    var c := list.PopBack();
    var d := list.PopBack();
    popped := [a, b, c, d];
    rest := ForwardValues(list);
  }

  /** `test_pop_front`: popping [1, 2, 3] from the front yields 1, 2, 3 and then `None`. */
  method PopFrontAll() returns (popped: seq<Option<int>>, rest: seq<int>)
    ensures popped == [Some(1), Some(2), Some(3), None] && rest == []
  {
    var list := new LinkList<int>();
    var _ := list.PushBack(1);
    var _ := list.PushBack(2);
    var _ := list.PushBack(3);
    var a := list.PopFront();
    var b := list.PopFront();
    var c := list.PopFront();
    var d := list.PopFront();
    popped := [a, b, c, d];
    rest := ForwardValues(list);
  }
}
