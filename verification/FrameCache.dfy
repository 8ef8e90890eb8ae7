/** The per-thread cache of coroutine frames: a linked list of freed blocks, last freed first. */
module FrameCache {

  class MallocItem {
    var next: MallocItem?

    constructor ()
      ensures next == null
    {
      next := null;
    }
  }

  class MallocCache {
    var head: MallocItem?
    ghost var cached: seq<MallocItem>    // the list, from head to its end
    ghost var live: set<MallocItem>      // blocks handed out and not freed
    ghost var released: seq<MallocItem>  // blocks given back to the system
    ghost var created: nat

    ghost predicate Valid()
      reads this, cached
    {
      && (head == null <==> cached == [])
      && (cached != [] ==> head == cached[0] && cached[|cached| - 1].next == null)
      && (forall i :: 0 <= i < |cached| - 1 ==> cached[i].next == cached[i + 1])
      && (forall i, j :: 0 <= i < j < |cached| ==> cached[i] != cached[j])
      && (forall m :: m in cached ==> m !in live)
      && (forall m :: m in cached || m in live ==> m !in released)
      && (forall i, j :: 0 <= i < j < |released| ==> released[i] != released[j])
      && created == |live| + |cached| + |released|
    }

    constructor ()
      ensures Valid() && cached == [] && live == {} && released == [] && created == 0
    {
      head, cached, live, released, created := null, [], {}, [], 0;
    }

    /** malloc_cache: the block freed last, or a new one; never one that is in use. */
    method Malloc() returns (m: MallocItem)
      requires Valid()
      modifies this
      ensures Valid()
      ensures m !in old(live) && m !in old(released) && live == old(live) + {m} && released == old(released)
      ensures old(cached) != [] ==>
        m == old(cached)[0] && cached == old(cached)[1..] && created == old(created)
      ensures old(cached) == [] ==> fresh(m) && cached == [] && created == old(created) + 1
    {
      if head != null {
        m := head;
        assert |cached| > 1 ==> cached[0].next == cached[1];
        head := head.next;
        cached := cached[1..];
        live := live + {m};
        return;
      }
      m := new MallocItem();
      live, created := live + {m}, created + 1;
    }

    /** malloc_cache_free, called by the owner of a block in use. */
    method Free(m: MallocItem)
      requires Valid() && m in live
      modifies this, m
      ensures Valid()
      ensures cached == [m] + old(cached) && live == old(live) - {m}
      ensures released == old(released) && created == old(created)
    {
      m.next := head;
      head := m;
      cached := [m] + cached;
      live := live - {m};
    }

    /** clear_malloc_cache: ends, and gives every cached block back exactly once, in list order. */
    method Clear()
      requires Valid()
      modifies this
      ensures Valid()
      ensures cached == [] && live == old(live) && created == old(created)
      ensures released == old(released) + old(cached)
    {
      ghost var all := cached;
      while head != null
        invariant Valid() && live == old(live) && created == old(created)
        invariant |cached| <= |all| && cached == all[|all| - |cached|..]
        invariant released == old(released) + all[..|all| - |cached|]
        decreases |cached|
      {
        var next := head.next;
        assert |cached| > 1 ==> next == cached[1];
        assert head in cached;
        released := released + [head];
        cached := cached[1..];
        head := next;
      }
    }
  }

  /** What the owners of coroutine frames do: create a coroutine, or end the i-th one still alive. */
  datatype Use = Create | End(i: nat)

  function Without<T>(s: seq<T>, i: nat): seq<T>
    requires i < |s|
  {
    s[..i] + s[i + 1..]
  }

  lemma WithoutFacts<T>(s: seq<T>, i: nat)
    requires i < |s| && forall j, k :: 0 <= j < k < |s| ==> s[j] != s[k]
    ensures forall x :: x in Without(s, i) <==> x in s && x != s[i]
    ensures forall j, k :: 0 <= j < k < |Without(s, i)| ==> Without(s, i)[j] != Without(s, i)[k]
  {
    var t := Without(s, i);
    assert forall j :: 0 <= j < |t| ==> t[j] == s[if j < i then j else j + 1];
    forall x | x in s && x != s[i]
      ensures x in t
    {
      var p :| 0 <= p < |s| && s[p] == x;
      assert t[if p < i then p else p - 1] == x;
    }
  }

  /** One creation or end, by the owners of the blocks in use. */
  method UseOnce(cache: MallocCache, use: Use, before: seq<MallocItem>) returns (inUse: seq<MallocItem>)
    requires cache.Valid() && forall m :: m in before <==> m in cache.live
    requires forall i, j :: 0 <= i < j < |before| ==> before[i] != before[j]
    modifies cache, cache.live
    ensures cache.Valid() && cache.released == old(cache.released)
    ensures forall m :: m in inUse <==> m in cache.live
    ensures forall i, j :: 0 <= i < j < |inUse| ==> inUse[i] != inUse[j]
    ensures forall m :: m in cache.live || m in cache.cached ==> m in old(cache.live) || m in old(cache.cached) || fresh(m)
    ensures |inUse| - |before| == |cache.live| - old(|cache.live|)
  {
    inUse := before;
    match use {
      case Create =>
        var m := cache.Malloc();
        inUse := before + [m];
      case End(i) =>
        if i < |before| {
          var m := before[i];
          assert m in before;
          cache.Free(m);
          WithoutFacts(before, i);
          inUse := Without(before, i);
        }
    }
  }

  /**
    Any sequence of creations and ends. At every point the blocks in use are distinct, so no block
    was handed out twice; afterwards every block ever created has been given back exactly once or
    is still in use.
   */
  method Churn(cache: MallocCache, uses: seq<Use>) returns (inUse: seq<MallocItem>)
    requires cache.Valid() && cache.cached == [] && cache.live == {} && cache.released == []
    modifies cache
    ensures cache.Valid() && cache.cached == []
    ensures forall m :: m in inUse <==> m in cache.live
    ensures forall i, j :: 0 <= i < j < |inUse| ==> inUse[i] != inUse[j]
    ensures forall i, j :: 0 <= i < j < |cache.released| ==> cache.released[i] != cache.released[j]
    ensures forall m :: m in cache.released ==> m !in inUse
    ensures cache.created == |inUse| + |cache.released|
  {
    inUse := [];
    var k := 0;
    while k < |uses|
      invariant 0 <= k <= |uses|
      invariant cache.Valid() && cache.released == []
      invariant forall m :: m in inUse <==> m in cache.live
      invariant forall i, j :: 0 <= i < j < |inUse| ==> inUse[i] != inUse[j]
      invariant forall m :: m in cache.live || m in cache.cached ==> fresh(m)
      invariant |cache.live| == |inUse|
    {
      inUse := UseOnce(cache, uses[k], inUse);
      k := k + 1;
    }
    ghost var list := cache.cached;
    cache.Clear();
    assert cache.released == list;
  }
}
