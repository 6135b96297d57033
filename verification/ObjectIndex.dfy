/** Finding a function by its two-part identity: the bucket chains of the object cache. */
module ObjectIndex {

  /** A function's identity: two 32-bit words. */
  datatype Identity = Identity(a: nat, b: nat)

  predicate Hashed(id: Identity) {
    id.a < 0x1_0000_0000 && id.b < 0x1_0000_0000
  }

  /** The first function from i on with an identity, or the number of functions. */
  function First(ids: seq<Identity>, id: Identity, i: nat): (f: nat)
    requires i <= |ids|
    ensures i <= f <= |ids|
    ensures f < |ids| ==> ids[f] == id
    ensures forall j :: i <= j < f ==> ids[j] != id
    decreases |ids| - i
  {
    if i == |ids| || ids[i] == id then i else First(ids, id, i + 1)
  }

  /** The one function with an identity; -1 when there is none or more than one. */
  function Find(ids: seq<Identity>, id: Identity): (f: int)
    ensures -1 <= f < |ids|
    ensures f >= 0 <==> (exists i :: 0 <= i < |ids| && ids[i] == id) && (forall i, j :: 0 <= i < j < |ids| ==> !(ids[i] == ids[j] == id))
    ensures f >= 0 ==> ids[f] == id
  {
    var f := First(ids, id, 0);
    if f == |ids| then -1 else if First(ids, id, f + 1) < |ids| then -1 else f
  }

  /** The bucket of an identity. */
  function Bucket(id: Identity, count: nat): (b: nat)
    requires Hashed(id) && count > 0
    ensures b < count
  {
    ((id.a as bv32) ^ (id.b as bv32)) as nat % count
  }

  /** A chain runs through earlier and earlier functions, to -1. */
  ghost predicate Linked(next: seq<int>) {
    forall i :: 0 <= i < |next| ==> -1 <= next[i] < i
  }

  /** Function i is on the chain that starts at a head. */
  ghost predicate OnChain(next: seq<int>, head: int, i: int)
    requires Linked(next) && head < |next|
    decreases head
  {
    head >= 0 && (head == i || OnChain(next, next[head], i))
  }

  lemma {:induction false} ChainStays(next: seq<int>, more: int, head: int, i: int)
    requires Linked(next) && Linked(next + [more]) && -1 <= head < |next|
    ensures OnChain(next + [more], head, i) == OnChain(next, head, i)
    decreases head
  {
    if head >= 0 {
      ChainStays(next, more, next[head], i);
    }
  }

  lemma {:induction false} ChainIsBelow(next: seq<int>, head: int, i: int)
    requires Linked(next) && -1 <= head < |next| && OnChain(next, head, i)
    ensures 0 <= i <= head
    decreases head
  {
    if head != i {
      ChainIsBelow(next, next[head], i);
    }
  }

  /** Each bucket's chain holds exactly the functions whose identity falls into it. */
  ghost predicate Indexed(ids: seq<Identity>, buckets: seq<int>, next: seq<int>) {
    && |buckets| > 0 && Linked(next) && |next| <= |ids|
    && (forall i :: 0 <= i < |ids| ==> Hashed(ids[i]))
    && (forall b :: 0 <= b < |buckets| ==> -1 <= buckets[b] < |next|)
    && (forall b, i :: 0 <= b < |buckets| && 0 <= i < |next| ==> (OnChain(next, buckets[b], i) <==> Bucket(ids[i], |buckets|) == b))
  }

  lemma IndexedNext(ids: seq<Identity>, buckets: seq<int>, next: seq<int>, b: nat)
    requires Indexed(ids, buckets, next) && |next| < |ids| && b == Bucket(ids[|next|], |buckets|)
    ensures Indexed(ids, buckets[b := |next|], next + [buckets[b]])
  {
    var n, heads := next + [buckets[b]], buckets[b := |next|];
    forall c, i | 0 <= c < |heads| && 0 <= i < |n|
      ensures OnChain(n, heads[c], i) <==> Bucket(ids[i], |heads|) == c
    {
      ChainStays(next, buckets[b], buckets[c], i);
      if c != b && i == |next| && OnChain(next, buckets[c], i) {
        ChainIsBelow(next, buckets[c], i);
      }
      if c == b && i == |next| {
        assert OnChain(n, |next|, i);
      }
    }
  }

  /** Builds the index: at least seventeen buckets, each new function at the head of its chain. */
  method BuildIndex(ids: seq<Identity>) returns (buckets: seq<int>, next: seq<int>)
    requires forall i :: 0 <= i < |ids| ==> Hashed(ids[i])
    ensures Indexed(ids, buckets, next) && |next| == |ids|
  {
    var bucketCount := |ids| * 2 + 1;
    if bucketCount < 17 {
      bucketCount := 17;
    }
    buckets := seq(bucketCount, _ => -1);
    next := [];
    for i := 0 to |ids|
      invariant |next| == i && |buckets| == bucketCount && Indexed(ids, buckets, next)
    {
      var bucket := Bucket(ids[i], bucketCount);
      IndexedNext(ids, buckets, next, bucket);
      next := next + [buckets[bucket]];
      buckets := buckets[bucket := i];
    }
  }

  /** The chain walk agrees with the definition: found only when exactly one function matches. */
  method FindFunction(ids: seq<Identity>, buckets: seq<int>, next: seq<int>, id: Identity) returns (found: int)
    requires Indexed(ids, buckets, next) && |next| == |ids| && Hashed(id)
    ensures found == Find(ids, id)
  {
    var bucket := Bucket(id, |buckets|);
    found := -1;
    var i := buckets[bucket];
    assert forall j :: 0 <= j < |ids| && ids[j] == id ==> OnChain(next, buckets[bucket], j);
    while i >= 0
      invariant -1 <= i < |next| && -1 <= found < |ids|
      invariant found >= 0 ==> ids[found] == id && i < found
      invariant forall j :: 0 <= j < |ids| && ids[j] == id ==> j == found || OnChain(next, i, j)
      decreases i
    {
      if ids[i] == id {
        if found >= 0 {
          return -1;
        }
        found := i;
      }
      i := next[i];
    }
  }
}
