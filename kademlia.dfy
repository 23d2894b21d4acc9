/**
 * The node lookup of Kademlia (little_kademlia/src/kademlia.rs): the list
 * of the `BUCKET_K` nodes nearest to a target found so far, merged with the
 * `FindNode` answers of the nodes queried, round after round.  The network
 * is not modelled: the replies of each round are given, one per node asked,
 * in no particular relation to the addresses asked.  The `BinaryHeap` of
 * `update_k_closest` is a multiset from which any nearest node may be
 * popped, since the order among nodes at one distance is not specified.
 */
module Kademlia {
  import opened Options
  import opened Msg
  import opened KBucket

  /** `BUCKET_K`: how many nearest nodes a lookup keeps. */
  const BucketK: nat := 4

  /** `BUCKET_ALPHA`: how many nodes one round of a lookup queries. */
  const BucketAlpha: nat := 2

  /** The answers of the protocol, once decoded. */
  datatype MsgAck = PingAck(id: Id) | FindNodeAck(result: seq<NearNode>)

  /**
   * What one request brought back: nothing before the timeout, a message
   * that does not decode as a `MsgAck`, or a decoded answer.
   */
  datatype Reply = NoReply | Garbled | Answer(ack: MsgAck)

  /** The nodes of the `FindNode` answers among `replies`, in order; other replies add nothing. */
  function Received(replies: seq<Reply>): seq<NearNode>
  {
    if |replies| == 0 then []
    else
      Received(replies[..|replies| - 1]) +
        match replies[|replies| - 1]
        case Answer(FindNodeAck(result)) => result
        case _ => []
  }

  /** A node is received exactly when some reply is a `FindNode` answer naming it. */
  lemma {:induction false} ReceivedExactly(replies: seq<Reply>)
    ensures forall x :: x in Received(replies) <==>
      exists i :: 0 <= i < |replies| && replies[i].Answer? && replies[i].ack.FindNodeAck? && x in replies[i].ack.result
  {
    if |replies| > 0 {
      var n := |replies| - 1;
      ReceivedExactly(replies[..n]);
      forall x
        ensures x in Received(replies) <==>
          exists i :: 0 <= i < |replies| && replies[i].Answer? && replies[i].ack.FindNodeAck? && x in replies[i].ack.result
      {
        if x in Received(replies[..n]) {
          var i :| 0 <= i < n && replies[..n][i].Answer? && replies[..n][i].ack.FindNodeAck? && x in replies[..n][i].ack.result;
          assert replies[i] == replies[..n][i];
        }
        if exists i :: 0 <= i < |replies| && replies[i].Answer? && replies[i].ack.FindNodeAck? && x in replies[i].ack.result {
          var i :| 0 <= i < |replies| && replies[i].Answer? && replies[i].ack.FindNodeAck? && x in replies[i].ack.result;
          if i < n {
            assert replies[..n][i] == replies[i];
          }
        }
      }
    }
  }

  /** `s` is ordered by non-decreasing distance. */
  predicate SortedByDist(s: seq<NearNode>)
  {
    forall i, j :: 0 <= i < j < |s| ==> s[i].dist <= s[j].dist
  }

  /** No id occurs twice in `s`. */
  predicate DistinctIds(s: seq<NearNode>)
  {
    forall i, j :: 0 <= i < j < |s| ==> s[i].id != s[j].id
  }

  /** The ids of the nodes of `s`. */
  function Ids(s: seq<NearNode>): set<Id>
  {
    if |s| == 0 then {} else Ids(s[..|s| - 1]) + {s[|s| - 1].id}
  }

  /** `Ids` holds the id of every node of `s` and nothing else. */
  lemma {:induction false} IdsMembers(s: seq<NearNode>)
    ensures forall y :: y in Ids(s) <==> exists i :: 0 <= i < |s| && s[i].id == y
  {
    if |s| > 0 {
      var n := |s| - 1;
      IdsMembers(s[..n]);
      forall y | y in Ids(s)
        ensures exists i :: 0 <= i < |s| && s[i].id == y
      {
        assert Ids(s) == Ids(s[..n]) + {s[n].id};
        if y != s[n].id {
          var i :| 0 <= i < n && s[..n][i].id == y;
          assert s[i].id == y;
        }
      }
      forall i | 0 <= i < |s|
        ensures s[i].id in Ids(s)
      {
        if i < n {
          assert s[..n][i] == s[i];
        }
      }
    }
  }

  /** Nodes of `c` agree on their distance exactly when they agree on their id. */
  predicate Consistent(c: multiset<NearNode>)
  {
    forall x, y :: x in c && y in c ==> (x.dist == y.dist <==> x.id == y.id)
  }

  /** Nodes whose distances are all measured from one target are consistent. */
  lemma MeasuredConsistent(c: multiset<NearNode>, target: Id)
    requires forall x :: x in c ==> x.dist == Xor(x.id, target)
    ensures Consistent(c)
  {
    forall x, y | x in c && y in c
      ensures x.dist == y.dist <==> x.id == y.id
    {
      if x.dist == y.dist {
        XorInjective(x.id, y.id, target);
      }
    }
  }

  /** `x` is a nearest node of `h`: what `BinaryHeap::pop` and `peek` answer under the reversed order. */
  predicate IsNearest(x: NearNode, h: multiset<NearNode>)
  {
    x in h && forall y :: y in h ==> x.dist <= y.dist
  }

  /** A nonempty heap has a nearest node. */
  lemma NearestExists(h: multiset<NearNode>)
    requires h != multiset{}
    ensures exists x :: IsNearest(x, h)
    decreases |h|
  {
    var z :| z in h;
    var rest := h - multiset{z};
    if rest != multiset{} {
      NearestExists(rest);
      var m :| IsNearest(m, rest);
      if z.dist < m.dist {
        assert IsNearest(z, h);
      } else {
        assert IsNearest(m, h);
      }
    } else {
      assert IsNearest(z, h);
    }
  }

  /** The first two `for` loops of `update_k_closest`: the heap of the old list and all nodes answered. */
  method Candidates(kClosest: seq<NearNode>, replies: seq<Reply>) returns (heap: multiset<NearNode>)
    ensures heap == multiset(kClosest + Received(replies))
  {
    heap := multiset{};
    for i := 0 to |kClosest|
      invariant heap == multiset(kClosest[..i])
    {
      assert kClosest[..i + 1] == kClosest[..i] + [kClosest[i]];
      heap := heap + multiset{kClosest[i]};
    }
    assert kClosest[..|kClosest|] == kClosest;
    for i := 0 to |replies|
      invariant heap == multiset(kClosest) + multiset(Received(replies[..i]))
    {
      assert replies[..i + 1][..i] == replies[..i];
      match replies[i]
      case Answer(FindNodeAck(result)) =>
        for j := 0 to |result|
          invariant heap == multiset(kClosest) + multiset(Received(replies[..i])) + multiset(result[..j])
        {
          assert result[..j + 1] == result[..j] + [result[j]];
          heap := heap + multiset{result[j]};
        }
        assert result[..|result|] == result;
      case _ =>
    }
    assert replies[..|replies|] == replies;
  }

  /**
   * The state of the `while let` loop of `update_k_closest`, with `c` all
   * the candidates: what was taken and what is left come from `c`; what was
   * taken is ordered and no farther than what is left; every candidate gone
   * from the heap shares its id with a node taken, one taken before any
   * node farther than it; consistent candidates give distinct ids.
   */
  ghost predicate Popping(c: multiset<NearNode>, taken: seq<NearNode>, heap: multiset<NearNode>)
  {
    && multiset(taken) + heap <= c
    && SortedByDist(taken)
    && (forall x, j :: x in heap && 0 <= j < |taken| ==> taken[j].dist <= x.dist)
    && (forall x :: x in c ==> x in heap || x.id in Ids(taken))
    && (forall x, j :: x in c && 0 <= j < |taken| && x.dist < taken[j].dist ==>
          x.id in Ids(taken[..j]))
    && (Consistent(c) ==> DistinctIds(taken) && forall x, j :: x in heap && 0 <= j < |taken| ==> x.id != taken[j].id)
  }

  /**
   * The inner `while let` loop: drops the nearest nodes of the heap as long
   * as they have the id of `cur`, the node just taken; what is left is empty
   * or has a nearest node with another id.
   */
  method DropSameId(cur: NearNode, heap0: multiset<NearNode>) returns (heap: multiset<NearNode>)
    ensures heap <= heap0 && |heap| <= |heap0|
    ensures forall x :: x in heap0 && x !in heap ==> x.id == cur.id
    ensures heap == multiset{} || exists p :: IsNearest(p, heap) && p.id != cur.id
  {
    heap := heap0;
    while heap != multiset{}
      invariant heap <= heap0 && |heap| <= |heap0|
      invariant forall x :: x in heap0 && x !in heap ==> x.id == cur.id
      decreases |heap|
    {
      NearestExists(heap);
      var peek :| IsNearest(peek, heap);
      if peek.id != cur.id {
        return;
      }
      heap := heap - multiset{peek};
    }
  }

  /** Taking the nearest node `cur` and dropping from the heap only nodes with its id keeps `Popping`. */
  lemma TakenStep(c: multiset<NearNode>, before: seq<NearNode>, cur: NearNode, heap0: multiset<NearNode>, heap: multiset<NearNode>)
    requires Popping(c, before, heap0 + multiset{cur}) && IsNearest(cur, heap0 + multiset{cur})
    requires heap <= heap0 && forall x :: x in heap0 && x !in heap ==> x.id == cur.id
    requires heap == multiset{} || exists p :: IsNearest(p, heap) && p.id != cur.id
    ensures Popping(c, before + [cur], heap)
  {
    TakenOrder(c, before, cur, heap0, heap);
    TakenCover(c, before, cur, heap0, heap);
    if Consistent(c) {
      forall x | x in heap
        ensures x.id != cur.id
      {
        var p :| IsNearest(p, heap) && p.id != cur.id;
        assert cur.dist <= p.dist <= x.dist;
      }
      TakenDistinct(c, before, cur, heap0, heap);
    }
  }

  /** Taking `cur` keeps the nodes taken ordered, drawn from the candidates and no farther than the heap. */
  lemma TakenOrder(c: multiset<NearNode>, before: seq<NearNode>, cur: NearNode, heap0: multiset<NearNode>, heap: multiset<NearNode>)
    requires Popping(c, before, heap0 + multiset{cur}) && IsNearest(cur, heap0 + multiset{cur}) && heap <= heap0
    ensures multiset(before + [cur]) + heap <= c && SortedByDist(before + [cur])
    ensures forall x, j :: x in heap && 0 <= j < |before + [cur]| ==> (before + [cur])[j].dist <= x.dist
  {
    assert multiset(before + [cur]) + heap0 == multiset(before) + (heap0 + multiset{cur});
  }

  /** Taking `cur` accounts for every node dropped, and for every node nearer than any node taken. */
  lemma TakenCover(c: multiset<NearNode>, before: seq<NearNode>, cur: NearNode, heap0: multiset<NearNode>, heap: multiset<NearNode>)
    requires Popping(c, before, heap0 + multiset{cur}) && IsNearest(cur, heap0 + multiset{cur})
    requires forall x :: x in heap0 && x !in heap ==> x.id == cur.id
    ensures forall x :: x in c ==> x in heap || x.id in Ids(before + [cur])
    ensures forall x, j :: x in c && 0 <= j < |before + [cur]| && x.dist < (before + [cur])[j].dist ==>
      x.id in Ids((before + [cur])[..j])
  {
    var taken := before + [cur];
    assert taken[..|before|] == before;
    assert Ids(taken) == Ids(before) + {cur.id};
    forall x, j | x in c && 0 <= j < |taken| && x.dist < taken[j].dist
      ensures x.id in Ids(taken[..j])
    {
      if j < |before| {
        assert taken[..j] == before[..j];
      }
    }
  }

  /** With consistent candidates, taking `cur` keeps the ids taken distinct, from each other and from the heap. */
  lemma TakenDistinct(c: multiset<NearNode>, before: seq<NearNode>, cur: NearNode, heap0: multiset<NearNode>, heap: multiset<NearNode>)
    requires Popping(c, before, heap0 + multiset{cur}) && Consistent(c) && heap <= heap0
    requires forall x :: x in heap ==> x.id != cur.id
    ensures DistinctIds(before + [cur])
    ensures forall x, j :: x in heap && 0 <= j < |before + [cur]| ==> x.id != (before + [cur])[j].id
  {
  }

  /**
   * The `while let` loop of `update_k_closest`: pops the nearest node,
   * keeps it, drops the nodes after it with the same id, and stops once
   * `BUCKET_K` nodes are kept or the heap is empty.
   */
  method Nearest(c: multiset<NearNode>) returns (newK: seq<NearNode>)
    ensures |newK| <= BucketK && SortedByDist(newK) && multiset(newK) <= c
    ensures forall x :: x in c ==>
      x.id in Ids(newK) || (|newK| == BucketK && newK[BucketK - 1].dist <= x.dist)
    ensures forall x, j :: x in c && 0 <= j < |newK| && x.dist < newK[j].dist ==>
      x.id in Ids(newK[..j])
    ensures Consistent(c) ==> DistinctIds(newK)
  {
    var heap := c;
    newK := [];
    var idx := 0;
    while heap != multiset{}
      invariant idx == |newK| < BucketK && Popping(c, newK, heap)
      decreases |heap|
    {
      NearestExists(heap);
      var node :| IsNearest(node, heap);
      var rest := heap - multiset{node};
      assert heap == rest + multiset{node};
      var left := DropSameId(node, rest);
      TakenStep(c, newK, node, rest, left);
      heap := left;
      newK := newK + [node];
      idx := idx + 1;
      if idx == BucketK {
        break;
      }
    }
    PoppingDone(c, newK, heap);
  }

  /** Once the heap is empty or `BUCKET_K` nodes are taken, what was taken is what `Nearest` promises. */
  lemma PoppingDone(c: multiset<NearNode>, taken: seq<NearNode>, heap: multiset<NearNode>)
    requires Popping(c, taken, heap) && (heap == multiset{} || |taken| == BucketK)
    ensures multiset(taken) <= c
    ensures forall x :: x in c ==>
      x.id in Ids(taken) || (|taken| == BucketK && taken[BucketK - 1].dist <= x.dist)
    ensures forall x, j :: x in c && 0 <= j < |taken| && x.dist < taken[j].dist ==>
      x.id in Ids(taken[..j])
    ensures Consistent(c) ==> DistinctIds(taken)
  {
  }

  /**
   * `update_k_closest`: merges the list with the nodes the replies name and
   * replaces it by at most `BUCKET_K` of them, nearest first; reports
   * whether that changed the length of the list.
   */
  method UpdateKClosest(kClosest: seq<NearNode>, replies: seq<Reply>) returns (newK: seq<NearNode>, changed: bool)
    ensures |newK| <= BucketK && SortedByDist(newK)
    ensures multiset(newK) <= multiset(kClosest + Received(replies))
    ensures forall x :: x in kClosest + Received(replies) ==>
      x.id in Ids(newK) || (|newK| == BucketK && newK[BucketK - 1].dist <= x.dist)
    ensures forall x, j :: x in kClosest + Received(replies) && 0 <= j < |newK| && x.dist < newK[j].dist ==>
      x.id in Ids(newK[..j])
    ensures Consistent(multiset(kClosest + Received(replies))) ==> DistinctIds(newK)
    ensures changed <==> |newK| != |kClosest|
  {
    var heap := Candidates(kClosest, replies);
    newK := Nearest(heap);
    changed := |newK| != |kClosest|;
  }

  /** `Vec::sort` under the reversed order of `NearNode`: the farthest node first, stable. */
  function SortNear(s: seq<NearNode>): (r: seq<NearNode>)
    ensures |r| == |s|
  {
    if |s| == 0 then [] else InsertNear(s[0], SortNear(s[1..]))
  }

  /** Inserts `x` before the first node not farther than it. */
  function InsertNear(x: NearNode, s: seq<NearNode>): (r: seq<NearNode>)
    ensures |r| == |s| + 1
  {
    if |s| == 0 || Le(x, s[0]) then [x] + s else [s[0]] + InsertNear(x, s[1..])
  }

  /** `s` is ordered by `NearNode`'s order: by non-increasing distance. */
  predicate SortedByOrd(s: seq<NearNode>)
  {
    forall i, j :: 0 <= i < j < |s| ==> Le(s[i], s[j])
  }

  /** Inserting keeps the nodes. */
  lemma {:induction false} InsertNearKeeps(x: NearNode, s: seq<NearNode>)
    ensures multiset(InsertNear(x, s)) == multiset([x] + s)
  {
    if |s| > 0 && !Le(x, s[0]) {
      InsertNearKeeps(x, s[1..]);
      assert s == [s[0]] + s[1..];
    }
  }

  /** Inserting into a sorted list keeps it sorted. */
  lemma {:induction false} InsertNearSorted(x: NearNode, s: seq<NearNode>)
    requires SortedByOrd(s)
    ensures SortedByOrd(InsertNear(x, s))
  {
    if |s| > 0 && !Le(x, s[0]) {
      var t := InsertNear(x, s[1..]);
      InsertNearSorted(x, s[1..]);
      InsertNearKeeps(x, s[1..]);
      forall j | 0 <= j < |t|
        ensures Le(s[0], t[j])
      {
        assert t[j] in multiset([x] + s[1..]);
        if t[j] != x {
          assert t[j] in s[1..];
        }
      }
    }
  }

  /** The sort puts the farthest node first and keeps the nodes. */
  lemma {:induction false} SortNearSorted(s: seq<NearNode>)
    ensures SortedByOrd(SortNear(s)) && multiset(SortNear(s)) == multiset(s)
  {
    if |s| > 0 {
      SortNearSorted(s[1..]);
      InsertNearSorted(s[0], SortNear(s[1..]));
      InsertNearKeeps(s[0], SortNear(s[1..]));
      assert s == [s[0]] + s[1..];
    }
  }

  /**
   * The `for` loop of a `look_up` round: asks the first `BUCKET_ALPHA`
   * nodes of the list, or all of them if there are fewer, and marks them
   * as queried.
   */
  method SelectQueries(kClosest: seq<NearNode>, queried: set<Id>) returns (sends: seq<Addr>, queried': set<Id>)
    ensures |sends| == if |kClosest| < BucketAlpha then |kClosest| else BucketAlpha
    ensures forall i :: 0 <= i < |sends| ==> sends[i] == kClosest[i].addr
    ensures queried' == queried + set i | 0 <= i < |sends| :: kClosest[i].id
  {
    sends, queried' := [], queried;
    var idx := 0;
    for n := 0 to |kClosest|
      invariant idx == n == |sends| < BucketAlpha
      invariant forall i :: 0 <= i < n ==> sends[i] == kClosest[i].addr
      invariant queried' == queried + set i | 0 <= i < n :: kClosest[i].id
    {
      var node := kClosest[n];
      sends := sends + [node.addr];
      queried' := queried' + {node.id};
      idx := idx + 1;
      assert (set i | 0 <= i < n + 1 :: kClosest[i].id) == (set i | 0 <= i < n :: kClosest[i].id) + {node.id};
      if idx == BucketAlpha {
        return;
      }
    }
  }

  /** The addresses of the nodes of `s` whose id is in `queried`, in order. */
  function ReSends(s: seq<NearNode>, queried: set<Id>): (r: seq<Addr>)
    ensures |r| <= |s|
  {
    if |s| == 0 then []
    else ReSends(s[..|s| - 1], queried) + (if s[|s| - 1].id in queried then [s[|s| - 1].addr] else [])
  }

  /** The final requests go to exactly the listed nodes that were queried before. */
  lemma {:induction false} ReSendsExactly(s: seq<NearNode>, queried: set<Id>)
    ensures forall a :: a in ReSends(s, queried) <==> exists i :: 0 <= i < |s| && s[i].id in queried && s[i].addr == a
  {
    if |s| > 0 {
      var n := |s| - 1;
      ReSendsExactly(s[..n], queried);
      forall a
        ensures a in ReSends(s, queried) <==> exists i :: 0 <= i < |s| && s[i].id in queried && s[i].addr == a
      {
        if a in ReSends(s[..n], queried) {
          var i :| 0 <= i < n && s[..n][i].id in queried && s[..n][i].addr == a;
          assert s[i] == s[..n][i];
        }
        if exists i :: 0 <= i < |s| && s[i].id in queried && s[i].addr == a {
          var i :| 0 <= i < |s| && s[i].id in queried && s[i].addr == a;
          if i < n {
            assert s[..n][i] == s[i];
          }
        }
      }
    }
  }

  /** The `for` loop after the rounds of `look_up`: asks again the listed nodes already queried. */
  method FinalQueries(kClosest: seq<NearNode>, queried: set<Id>) returns (sends: seq<Addr>)
    ensures sends == ReSends(kClosest, queried)
  {
    sends := [];
    for n := 0 to |kClosest|
      invariant sends == ReSends(kClosest[..n], queried)
    {
      assert kClosest[..n + 1][..n] == kClosest[..n];
      if kClosest[n].id in queried {
        sends := sends + [kClosest[n].addr];
      }
    }
    assert kClosest[..|kClosest|] == kClosest;
  }

  /**
   * `look_up`: starts from the `BUCKET_K` nearest nodes the buckets know,
   * sorted by `NearNode`'s order, and runs rounds, each asking the first
   * `BUCKET_ALPHA` nodes of the list and merging their replies, until a
   * round changes the length of the list; then asks again the listed nodes
   * that were queried and merges once more.  `rounds[i]` are the replies
   * of round `i` and `last` those of the final requests; when the rounds
   * run out before the loop ends, the answer is `None`.  `sent` lists the
   * addresses asked, round by round, the final requests last.
   */
  method LookUp(kb: KBuckets, target: Id, rounds: seq<seq<Reply>>, last: seq<Reply>)
      returns (r: Option<seq<NearNode>>, sent: seq<seq<Addr>>)
    requires kb.Valid()
    ensures r.Some? ==> |r.value| <= BucketK && SortedByDist(r.value)
    ensures r.Some? ==> 1 <= |sent| <= |rounds| + 1
    ensures r.None? ==> |sent| == |rounds|
    ensures forall i :: 0 <= i < |sent| - (if r.Some? then 1 else 0) ==> |sent[i]| <= BucketAlpha
  {
    var kClosest := kb.FindKNearest(target);
    kClosest := SortNear(kClosest);
    var finished := false;
    var queried: set<Id> := {};
    sent := [];
    var i := 0;
    while !finished
      invariant 0 <= i <= |rounds| && |sent| == i
      invariant forall j :: 0 <= j < |sent| ==> |sent[j]| <= BucketAlpha
      invariant finished ==> i >= 1 && |kClosest| <= BucketK && SortedByDist(kClosest)
      decreases |rounds| - i
    {
      if i == |rounds| {
        return None, sent;
      }
      var sends;
      sends, queried := SelectQueries(kClosest, queried);
      sent := sent + [sends];
      kClosest, finished := UpdateKClosest(kClosest, rounds[i]);
      i := i + 1;
    }
    var sends := FinalQueries(kClosest, queried);
    sent := sent + [sends];
    var changed;
    kClosest, changed := UpdateKClosest(kClosest, last);
    r := Some(kClosest);
  }
}
