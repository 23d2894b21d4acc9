/**
 * The k-buckets of Kademlia (little_kademlia/src/kbucket.rs): sixteen
 * queues of `(id, addr)` pairs, one per bit of a 16-bit id; a peer goes into
 * the bucket numbered by the highest set bit of its XOR distance to our own
 * id.  A bucket that grows past `bucket_k` loses one entry, the oldest or the
 * newest, as a liveness test on the oldest decides.  That test pings peers
 * over the network; here it is a function the buckets are built with.
 */
module KBucket {
  import opened Msg

  /** One entry of a bucket: `(IdType, SocketAddr)`. */
  datatype Entry = Entry(id: Id, addr: Addr)

  /** The number of buckets: one per bit of `IdType`. */
  const Buckets: nat := 16

  /** `floor(log2(x))`, with `0` for `0`. */
  function Log2(x: nat): nat
  {
    if x < 2 then 0 else 1 + Log2(x / 2)
  }

  /** `Log2(x)` is the exponent of the highest power of two not above `x`. */
  lemma {:induction false} Log2Bounds(x: nat)
    requires x >= 1
    ensures Pow2(Log2(x)) <= x < Pow2(Log2(x) + 1)
  {
    if x >= 2 {
      Log2Bounds(x / 2);
    }
  }

  /** A value of `n` bits has its highest set bit below `n`. */
  lemma {:induction false} Log2Below(x: nat, n: nat)
    requires 1 <= n && x < Pow2(n)
    ensures Log2(x) < n
  {
    if x >= 2 {
      Log2Below(x / 2, n - 1);
    }
  }

  /**
   * `log2_floor`: shifts `x` right until it is zero, counting the shifts
   * after the first.
   */
  method Log2Floor(x: nat) returns (r: nat)
    requires x < 0x1_0000_0000
    ensures r == Log2(x)
    ensures x == 0 ==> r == 0
    ensures x >= 1 ==> Pow2(r) <= x < Pow2(r + 1)
  {
    if x == 0 {
      return 0;
    }
    var y: nat := x / 2;
    r := 0;
    while y != 0
      invariant y == 0 ==> r == Log2(x)
      invariant y != 0 ==> r + 1 + Log2(y) == Log2(x)
      decreases y
    {
      y := y / 2;
      r := r + 1;
    }
    Log2Bounds(x);
  }

  /** The bucket of `id` for a table whose own id is `me`. */
  function BucketOf(me: Id, id: Id): (b: nat)
    ensures b < Buckets
    ensures b == Log2(Xor(id, me) as nat)
  {
    Pow2Sixteen();
    Log2Below(Xor(id, me) as nat, 16);
    Log2(Xor(id, me) as nat)
  }

  /** The entries of `adds` that belong in bucket `b`, in order. */
  function InBucket(me: Id, b: nat, adds: seq<Entry>): (r: seq<Entry>)
    ensures |r| <= |adds|
    ensures forall e :: e in r ==> e in adds && BucketOf(me, e.id) == b
  {
    if |adds| == 0 then []
    else InBucket(me, b, adds[..|adds| - 1]) + (if BucketOf(me, adds[|adds| - 1].id) == b then [adds[|adds| - 1]] else [])
  }

  /**
   * The buckets after the `for` loop of `add`, with the bucket indexes that
   * reached exactly `k + 1` entries on the way and the address that made
   * each one do so.
   */
  datatype Pushed = Pushed(data: seq<seq<Entry>>, idx: seq<nat>, addrs: seq<Addr>)

  function PushAll(me: Id, k: nat, data: seq<seq<Entry>>, adds: seq<Entry>): (r: Pushed)
    requires |data| == Buckets
    ensures |r.data| == Buckets && |r.idx| == |r.addrs|
    ensures forall j :: 0 <= j < |r.idx| ==> r.idx[j] < Buckets
  {
    if |adds| == 0 then Pushed(data, [], [])
    else
      var p := PushAll(me, k, data, adds[..|adds| - 1]);
      var e := adds[|adds| - 1];
      var b := BucketOf(me, e.id);
      var d := p.data[b := p.data[b] + [e]];
      if |d[b]| == k + 1 then Pushed(d, p.idx + [b], p.addrs + [e.addr]) else Pushed(d, p.idx, p.addrs)
  }

  /** No bucket index occurs twice in `s`. */
  predicate Distinct(s: seq<nat>)
  {
    forall i, j :: 0 <= i < j < |s| ==> s[i] != s[j]
  }

  /**
   * The `for` loop of `add` appends every entry to the back of its bucket,
   * and records a bucket exactly when it grew from at most `k` entries to
   * more than `k`, once.
   */
  lemma {:induction false} PushAllBuckets(me: Id, k: nat, data: seq<seq<Entry>>, adds: seq<Entry>)
    requires |data| == Buckets
    ensures var r := PushAll(me, k, data, adds);
      && (forall b :: 0 <= b < Buckets ==> r.data[b] == data[b] + InBucket(me, b, adds))
      && (forall b :: 0 <= b < Buckets ==> (b in r.idx <==> |data[b]| <= k < |r.data[b]|))
      && Distinct(r.idx)
  {
    if |adds| > 0 {
      var prefix := adds[..|adds| - 1];
      PushAllBuckets(me, k, data, prefix);
      var p := PushAll(me, k, data, prefix);
      var e := adds[|adds| - 1];
      var r := PushAll(me, k, data, adds);
      forall b | 0 <= b < Buckets
        ensures r.data[b] == data[b] + InBucket(me, b, adds)
      {
        assert InBucket(me, b, adds) == InBucket(me, b, prefix) + (if BucketOf(me, e.id) == b then [e] else []);
      }
    }
  }

  /**
   * The fix-up of one recorded bucket by the test's answer for it: on
   * `true` the newest entry is dropped and the oldest moves to the back; on
   * `false` the oldest is dropped.  (A bucket too short for that is never
   * recorded.)
   */
  function FixBucket(b: seq<Entry>, alive: bool): (r: seq<Entry>)
    ensures |b| >= 2 && alive ==> |r| == |b| - 1 && r == b[1..|b| - 1] + [b[0]]
    ensures |b| >= 1 && !alive ==> |r| == |b| - 1 && r == b[1..]
  {
    if alive then
      if |b| >= 2 then b[1..|b| - 1] + [b[0]] else b
    else
      if |b| >= 1 then b[1..] else b
  }

  /** The buckets after the `while` loop of `add`, which fixes the recorded buckets in turn. */
  function FixUp(data: seq<seq<Entry>>, idx: seq<nat>, alive: seq<bool>): (r: seq<seq<Entry>>)
    requires |idx| == |alive| && forall j :: 0 <= j < |idx| ==> idx[j] < |data|
    ensures |r| == |data|
  {
    if |idx| == 0 then data
    else
      var n := |idx| - 1;
      var d := FixUp(data, idx[..n], alive[..n]);
      d[idx[n] := FixBucket(d[idx[n]], alive[n])]
  }

  /** With no bucket recorded twice, each recorded bucket is fixed once, by its own answer, and the others are left alone. */
  lemma {:induction false} FixUpAt(data: seq<seq<Entry>>, idx: seq<nat>, alive: seq<bool>, b: nat)
    requires |idx| == |alive| && (forall j :: 0 <= j < |idx| ==> idx[j] < |data|) && Distinct(idx)
    requires b < |data|
    ensures b !in idx ==> FixUp(data, idx, alive)[b] == data[b]
    ensures forall j :: 0 <= j < |idx| && idx[j] == b ==> FixUp(data, idx, alive)[b] == FixBucket(data[b], alive[j])
  {
    if |idx| > 0 {
      var n := |idx| - 1;
      assert Distinct(idx[..n]);
      FixUpAt(data, idx[..n], alive[..n], b);
      if idx[n] == b {
        assert b !in idx[..n];
      }
    }
  }

  /** How many buckets the scan from bucket `s` visits: all of them, except from the last bucket, which is visited alone. */
  function Steps(s: nat): nat
  {
    if s == Buckets - 1 then 1 else Buckets
  }

  /**
   * The bucket visited at step `p` of the scan from bucket `s`: `s` itself,
   * then the buckets below it downwards, then those above it upwards.
   */
  function ScanIdx(s: nat, p: nat): (b: nat)
    requires s < Buckets && p < Steps(s)
    ensures b < Buckets
  {
    if p <= s then s - p else p
  }

  /** Some step of the scan from bucket `s` visits bucket `b`. */
  ghost predicate Visited(s: nat, b: nat)
    requires s < Buckets
  {
    exists p :: 0 <= p < Steps(s) && ScanIdx(s, p) == b
  }

  /**
   * The scan from below the last bucket visits every bucket exactly once,
   * stepping down one bucket at a time to `0` and then up from `s + 1`; the
   * scan from the last bucket visits nothing else.
   */
  lemma ScanVisits(s: nat)
    requires s < Buckets
    ensures ScanIdx(s, 0) == s
    ensures s < Buckets - 1 ==> forall b: nat {:trigger Visited(s, b)} :: b < Buckets ==> Visited(s, b)
    ensures forall p, q :: 0 <= p < q < Steps(s) ==> ScanIdx(s, p) != ScanIdx(s, q)
    ensures forall p :: 0 <= p < s && p + 1 < Steps(s) ==> ScanIdx(s, p + 1) == ScanIdx(s, p) - 1
    ensures s < Buckets - 1 ==> ScanIdx(s, s) == 0 && ScanIdx(s, s + 1) == s + 1
    ensures forall p :: s < p < Steps(s) - 1 ==> ScanIdx(s, p + 1) == ScanIdx(s, p) + 1
    ensures s == Buckets - 1 ==> Steps(s) == 1
  {
    if s < Buckets - 1 {
      forall b: nat | b < Buckets
        ensures Visited(s, b)
      {
        if b <= s {
          assert ScanIdx(s, s - b) == b;
        } else {
          assert ScanIdx(s, b) == b;
        }
      }
    }
  }

  /** The `NearNode` of an entry for `target`: the entry at its XOR distance from `target`. */
  function NearOf(e: Entry, target: Id): (x: NearNode)
    ensures x.id == e.id && x.addr == e.addr
  {
    NearNode(Xor(e.id, target), e.id, e.addr)
  }

  /** The entries of one bucket as `NearNode`s for `target`. */
  function Near(bucket: seq<Entry>, target: Id): (r: seq<NearNode>)
    ensures |r| == |bucket|
  {
    if |bucket| == 0 then [] else Near(bucket[..|bucket| - 1], target) + [NearOf(bucket[|bucket| - 1], target)]
  }

  /** Position `i` of `Near(bucket, target)` is the `NearNode` of `bucket[i]`. */
  lemma {:induction false} NearAt(bucket: seq<Entry>, target: Id, i: nat)
    requires i < |bucket|
    ensures Near(bucket, target)[i] == NearOf(bucket[i], target)
  {
    var n := |bucket| - 1;
    if i < n {
      NearAt(bucket[..n], target, i);
    }
  }

  /** The entries of the first `n` buckets of the scan from bucket `s`, in scan order, as `NearNode`s for `target`. */
  function Scanned(data: seq<seq<Entry>>, s: nat, n: nat, target: Id): seq<NearNode>
    requires |data| == Buckets && s < Buckets && n <= Steps(s)
  {
    if n == 0 then [] else Scanned(data, s, n - 1, target) + Near(data[ScanIdx(s, n - 1)], target)
  }

  /** Scanning fewer buckets gives a prefix. */
  lemma {:induction false} ScannedPrefix(data: seq<seq<Entry>>, s: nat, m: nat, n: nat, target: Id)
    requires |data| == Buckets && s < Buckets && m <= n <= Steps(s)
    ensures Scanned(data, s, m, target) <= Scanned(data, s, n, target)
    decreases n
  {
    if m < n {
      ScannedPrefix(data, s, m, n - 1, target);
    }
  }

  /** Each scanned node is an entry of a scanned bucket, at its distance from `target`. */
  lemma {:induction false} ScannedFrom(data: seq<seq<Entry>>, s: nat, n: nat, target: Id)
    requires |data| == Buckets && s < Buckets && n <= Steps(s)
    ensures forall x :: x in Scanned(data, s, n, target) ==>
      x.dist == Xor(x.id, target) && exists p :: 0 <= p < n && Entry(x.id, x.addr) in data[ScanIdx(s, p)]
  {
    if n > 0 {
      ScannedFrom(data, s, n - 1, target);
      forall x | x in Scanned(data, s, n, target)
        ensures x.dist == Xor(x.id, target) && exists p :: 0 <= p < n && Entry(x.id, x.addr) in data[ScanIdx(s, p)]
      {
        if x !in Scanned(data, s, n - 1, target) {
          var b := data[ScanIdx(s, n - 1)];
          var i :| 0 <= i < |b| && Near(b, target)[i] == x;
          NearAt(b, target, i);
          assert Entry(x.id, x.addr) == b[i];
        }
      }
    }
  }

  /** Every entry of a scanned bucket is scanned. */
  lemma {:induction false} ScannedAll(data: seq<seq<Entry>>, s: nat, n: nat, target: Id, p: nat, e: Entry)
    requires |data| == Buckets && s < Buckets && n <= Steps(s) && p < n && e in data[ScanIdx(s, p)]
    ensures NearOf(e, target) in Scanned(data, s, n, target)
  {
    if p < n - 1 {
      ScannedAll(data, s, n - 1, target, p, e);
    } else {
      var b := data[ScanIdx(s, p)];
      var i :| 0 <= i < |b| && b[i] == e;
      NearAt(b, target, i);
    }
  }

  /**
   * What `find_k_nearest` answers: at most `k` nodes, each an entry of some
   * bucket at its XOR distance from the target; and, unless the target
   * falls in the last bucket, fewer than `k` only when every entry of
   * every bucket is among them.
   */
  lemma NearestResult(data: seq<seq<Entry>>, s: nat, k: nat, target: Id)
    requires |data| == Buckets && s < Buckets
    ensures var ret := Take(Scanned(data, s, Steps(s), target), k);
      && |ret| <= k
      && (forall x :: x in ret ==> x.dist == Xor(x.id, target) && exists b :: 0 <= b < Buckets && Entry(x.id, x.addr) in data[b])
      && (s < Buckets - 1 && |ret| < k ==> forall b, e :: 0 <= b < Buckets && e in data[b] ==> NearOf(e, target) in ret)
  {
    var all := Scanned(data, s, Steps(s), target);
    var ret := Take(all, k);
    ScannedFrom(data, s, Steps(s), target);
    forall x | x in ret
      ensures x.dist == Xor(x.id, target) && exists b :: 0 <= b < Buckets && Entry(x.id, x.addr) in data[b]
    {
      assert x in all;
      var p :| 0 <= p < Steps(s) && Entry(x.id, x.addr) in data[ScanIdx(s, p)];
    }
    if s < Buckets - 1 && |ret| < k {
      ScanVisits(s);
      forall b, e | 0 <= b < Buckets && e in data[b]
        ensures NearOf(e, target) in ret
      {
        assert Visited(s, b);
        var p :| 0 <= p < Steps(s) && ScanIdx(s, p) == b;
        ScannedAll(data, s, Steps(s), target, p, e);
      }
    }
  }

  /** At most the first `k` elements of `s`. */
  function Take<T>(s: seq<T>, k: nat): (r: seq<T>)
    ensures |r| <= k && r <= s
    ensures |s| <= k <==> r == s
  {
    if |s| <= k then s else s[..k]
  }

  /** Taking `k` from a sequence that already has `k` elements ignores what follows. */
  lemma TakeOfPrefix<T>(a: seq<T>, b: seq<T>, k: nat)
    requires a <= b && |Take(a, k)| == k
    ensures Take(b, k) == Take(a, k)
  {
  }

  /** A scan that stops at the last step, or once `k` nodes are taken, takes what the whole scan would. */
  lemma ScanStops(data: seq<seq<Entry>>, s: nat, p: nat, target: Id, k: nat)
    requires |data| == Buckets && s < Buckets && p <= Steps(s)
    requires p == Steps(s) || |Take(Scanned(data, s, p, target), k)| >= k
    ensures Take(Scanned(data, s, p, target), k) == Take(Scanned(data, s, Steps(s), target), k)
  {
    if p < Steps(s) {
      ScannedPrefix(data, s, p, Steps(s), target);
      TakeOfPrefix(Scanned(data, s, p, target), Scanned(data, s, Steps(s), target), k);
    }
  }

  /** `Take` of a sequence past a short prefix keeps the prefix whole. */
  lemma TakeAppend<T>(a: seq<T>, b: seq<T>, k: nat)
    requires |a| <= k
    ensures Take(a + b, k) == a + Take(b, k - |a|)
  {
  }

  /**
   * The inner loop of `find_k_nearest`: appends the entries of `bucket`, as
   * `NearNode`s for `target`, to `ret` while it holds fewer than `k`.
   */
  method Collect(bucket: seq<Entry>, target: Id, ret: seq<NearNode>, k: nat) returns (r: seq<NearNode>)
    requires |ret| <= k
    ensures r == ret + Take(Near(bucket, target), k - |ret|)
  {
    r := ret;
    var i := 0;
    while i < |bucket| && |r| < k
      invariant 0 <= i <= |bucket| && |r| == |ret| + i <= k
      invariant r == ret + Near(bucket, target)[..i]
    {
      NearAt(bucket, target, i);
      assert Near(bucket, target)[..i + 1] == Near(bucket, target)[..i] + [Near(bucket, target)[i]];
      r := r + [NearNode(Xor(bucket[i].id, target), bucket[i].id, bucket[i].addr)];
      i := i + 1;
    }
    if i == |bucket| {
      assert Near(bucket, target)[..i] == Near(bucket, target);
    }
  }

  /**
   * The k-buckets of one node: its own id, the bucket size `k`, the sixteen
   * buckets (oldest entry first) and the liveness test, which for our id
   * and a list of addresses answers one bool per address.
   */
  class KBuckets {
    const myId: Id
    const bucketK: nat
    const test: (Id, seq<Addr>) -> seq<bool>
    var data: seq<seq<Entry>>

    /** Sixteen buckets, a bucket size of at least one and a test that answers every address. */
    ghost predicate Valid()
      reads this
    {
      && |data| == Buckets && bucketK >= 1
      && forall addrs: seq<Addr> :: |test(myId, addrs)| == |addrs|
    }

    /**
     * `new`: sixteen empty buckets.  A bucket size of zero is excluded: `add`
     * would then unwrap the `pop_front` of an emptied bucket when the test
     * says the peer is alive.
     */
    constructor (myId: Id, bucketK: nat, test: (Id, seq<Addr>) -> seq<bool>)
      requires bucketK >= 1 && forall addrs: seq<Addr> :: |test(myId, addrs)| == |addrs|
      ensures Valid()
      ensures this.myId == myId && this.bucketK == bucketK && this.test == test
      ensures data == seq(Buckets, _ => [])
    {
      this.myId, this.bucketK, this.test := myId, bucketK, test;
      data := seq(Buckets, _ => []);
    }

    /**
     * `find_k_nearest`: scans the buckets from the bucket of `target` down to
     * the first, then from above it up to the last, each oldest entry
     * first, taking entries until there are `k`.  When `target` falls in
     * the last bucket the scan stops after it.
     */
    method FindKNearest(target: Id) returns (ret: seq<NearNode>)
      requires Valid()
      ensures BucketOf(target, myId) < Buckets
      ensures ret == Take(Scanned(data, BucketOf(target, myId), Steps(BucketOf(target, myId)), target), bucketK)
    {
      Pow2Sixteen();
      var sIdx := Log2Floor(Xor(myId, target) as nat);
      assert sIdx == BucketOf(target, myId);
      ret := ScanFrom(sIdx, target);
    }

    /** The `loop` of `find_k_nearest`, from bucket `sIdx`. */
    method ScanFrom(sIdx: nat, target: Id) returns (ret: seq<NearNode>)
      requires |data| == Buckets && sIdx < Buckets
      ensures ret == Take(Scanned(data, sIdx, Steps(sIdx), target), bucketK)
    {
      ghost var pos := 0;
      var idx := sIdx;
      ret := [];
      var flag := false;
      while |ret| < bucketK
        invariant 0 <= pos < Steps(sIdx) && idx == ScanIdx(sIdx, pos)
        invariant flag == (sIdx < Buckets - 1 && pos > sIdx)
        invariant ret == Take(Scanned(data, sIdx, pos, target), bucketK)
        decreases Steps(sIdx) - pos
      {
        ghost var done := Scanned(data, sIdx, pos, target);
        assert ret == done;
        TakeAppend(done, Near(data[idx], target), bucketK);
        ret := Collect(data[idx], target, ret, bucketK);
        assert Scanned(data, sIdx, pos + 1, target) == done + Near(data[idx], target);
        pos := pos + 1;
        if idx == 0 {
          idx := sIdx;
          flag := true;
        }
        if idx == |data| - 1 {
          break;
        }
        if flag {
          idx := idx + 1;
        } else {
          idx := idx - 1;
        }
      }
      ScanStops(data, sIdx, pos, target, bucketK);
    }

    /**
     * `add`: appends every pair to the back of its bucket, recording the
     * buckets that reach `k + 1` entries; then asks the test about the
     * addresses that did so and fixes each recorded bucket by the answer.
     */
    method Add(adds: seq<Entry>)
      requires Valid()
      modifies this`data
      ensures Valid()
      ensures var p := PushAll(myId, bucketK, old(data), adds);
        data == FixUp(p.data, p.idx, test(myId, p.addrs))
    {
      var testIdx, testAddr := PushAdds(adds);
      PushAllBuckets(myId, bucketK, old(data), adds);
      var results := test(myId, testAddr);
      FixRecorded(testIdx, results);
    }

    /** The `for` loop of `add`. */
    method PushAdds(adds: seq<Entry>) returns (testIdx: seq<nat>, testAddr: seq<Addr>)
      requires |data| == Buckets
      modifies this`data
      ensures Pushed(data, testIdx, testAddr) == PushAll(myId, bucketK, old(data), adds)
    {
      testIdx, testAddr := [], [];
      for j := 0 to |adds|
        invariant |data| == Buckets
        invariant PushAll(myId, bucketK, old(data), adds[..j]) == Pushed(data, testIdx, testAddr)
      {
        assert adds[..j + 1][..j] == adds[..j];
        var e := adds[j];
        Pow2Sixteen();
        var i := Log2Floor(Xor(e.id, myId) as nat);
        assert i == BucketOf(myId, e.id);
        data := data[i := data[i] + [e]];
        if |data[i]| == bucketK + 1 {
          testIdx := testIdx + [i];
          testAddr := testAddr + [e.addr];
        }
      }
      assert adds[..|adds|] == adds;
    }

    /**
     * The `while` loop of `add`: fixes bucket `testIdx[n]` by answer
     * `results[n]`, for each `n` in turn.  Each recorded bucket holds more
     * than `k` entries and is recorded once, so every `unwrap` succeeds.
     */
    method FixRecorded(testIdx: seq<nat>, results: seq<bool>)
      requires |data| == Buckets && bucketK >= 1 && |results| == |testIdx| && Distinct(testIdx)
      requires forall j :: 0 <= j < |testIdx| ==> testIdx[j] < Buckets && |data[testIdx[j]]| >= bucketK + 1
      modifies this`data
      ensures data == FixUp(old(data), testIdx, results)
    {
      var idx := 0;
      while idx < |results|
        invariant 0 <= idx <= |results| && |data| == Buckets
        invariant data == FixUp(old(data), testIdx[..idx], results[..idx])
        invariant forall j :: idx <= j < |testIdx| ==> data[testIdx[j]] == old(data)[testIdx[j]]
      {
        var i := testIdx[idx];
        assert testIdx[..idx + 1][..idx] == testIdx[..idx] && results[..idx + 1][..idx] == results[..idx];
        var bucket := data[i];
        if results[idx] {
          bucket := bucket[..|bucket| - 1];
          var front := bucket[0];
          bucket := bucket[1..] + [front];
        } else {
          bucket := bucket[1..];
        }
        assert bucket == FixBucket(data[i], results[idx]);
        data := data[i := bucket];
        forall j | idx + 1 <= j < |testIdx|
          ensures data[testIdx[j]] == old(data)[testIdx[j]]
        {
          assert testIdx[j] != i;
        }
        idx := idx + 1;
      }
      assert testIdx[..idx] == testIdx && results[..idx] == results;
    }
  }

  /**
   * What `add` does to one bucket: it gains, at the back, the pairs that
   * belong to it; if that took it from at most `k` entries to more, it then
   * loses one entry: the newest, with the oldest moving to the back, when
   * the test answers `true` for the address that took the bucket past `k`,
   * and the oldest when it answers `false`.
   */
  lemma AddBucket(me: Id, k: nat, test: (Id, seq<Addr>) -> seq<bool>, data: seq<seq<Entry>>, adds: seq<Entry>, b: nat)
    requires |data| == Buckets && b < Buckets && k >= 1
    requires forall addrs: seq<Addr> :: |test(me, addrs)| == |addrs|
    ensures var p := PushAll(me, k, data, adds);
      var after := FixUp(p.data, p.idx, test(me, p.addrs));
      var grown := data[b] + InBucket(me, b, adds);
      && (|data[b]| <= k < |grown| ==>
            exists j :: 0 <= j < |p.idx| && p.idx[j] == b &&
              after[b] == if test(me, p.addrs)[j] then grown[1..|grown| - 1] + [grown[0]] else grown[1..])
      && (!(|data[b]| <= k < |grown|) ==> after[b] == grown)
      && |after[b]| == if |data[b]| <= k < |grown| then |grown| - 1 else |grown|
  {
    var p := PushAll(me, k, data, adds);
    var alive := test(me, p.addrs);
    var grown := data[b] + InBucket(me, b, adds);
    PushAllBuckets(me, k, data, adds);
    assert p.data[b] == grown;
    FixUpAt(p.data, p.idx, alive, b);
    if b in p.idx {
      var j :| 0 <= j < |p.idx| && p.idx[j] == b;
      assert FixUp(p.data, p.idx, alive)[b] == FixBucket(grown, alive[j]);
    }
  }
}
