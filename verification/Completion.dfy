/**
  Counting completions: an awaiter waits for several operations at once, every completion stores its
  result in the position of its own entry and counts down, and the count reaching zero resumes the
  waiting coroutine.
 */
module Completion {
  import opened Counting

  /** What one awaiter holds: an 8-bit countdown, the results, and the results seen at each resumption. */
  datatype Await = Await(tocomplete: nat, results: seq<int>, wakeups: seq<seq<int>>)

  /** One completion of this awaiter: the position of its entry and the kernel's result. */
  datatype Done = Done(index: nat, res: int)

  function Start(n: nat): Await {
    Await(n % 256, seq(n, _ => -1), [])
  }

  function Handle(a: Await, d: Done): Await
    requires d.index < |a.results|
  {
    var results := a.results[d.index := d.res];
    var left := (a.tocomplete + 255) % 256;
    Await(left, results, if left == 0 then a.wakeups + [results] else a.wakeups)
  }

  /** The awaiter of n entries after the completions `done`, in their order of arrival. */
  function After(n: nat, done: seq<Done>): (a: Await)
    requires forall d :: d in done ==> d.index < n
    ensures |a.results| == n
  {
    if done == [] then Start(n) else Handle(After(n, done[..|done| - 1]), done[|done| - 1])
  }

  /** No entry completes twice. */
  ghost predicate Distinct(done: seq<Done>) {
    forall i, j :: 0 <= i < j < |done| ==> done[i].index != done[j].index
  }

  /** How often the countdown from n is zero within the first k completions. */
  function Zeros(n: nat, k: nat): nat {
    if k == 0 then 0 else Zeros(n, k - 1) + (if (n - k) % 256 == 0 then 1 else 0)
  }

  /** The countdown is the number of entries not yet handled, and every result is in its own place. */
  lemma {:induction false} CountdownAndPlaces(n: nat, done: seq<Done>)
    requires forall d :: d in done ==> d.index < n
    requires Distinct(done)
    ensures After(n, done).tocomplete == (n - |done|) % 256
    ensures forall i :: 0 <= i < |done| ==> After(n, done).results[done[i].index] == done[i].res
    ensures forall p :: 0 <= p < n && (forall i :: 0 <= i < |done| ==> done[i].index != p) ==>
              After(n, done).results[p] == -1
    ensures |After(n, done).wakeups| == Zeros(n, |done|)
  {
    if done != [] {
      var before, last := done[..|done| - 1], done[|done| - 1];
      CountdownAndPlaces(n, before);
      var a, b := After(n, before), After(n, done);
      assert b == Handle(a, last) && forall i :: 0 <= i < |before| ==> done[i] == before[i];
      forall i | 0 <= i < |done|
        ensures b.results[done[i].index] == done[i].res
      {
        assert i < |before| ==> before[i].index != last.index;
      }
      forall p | 0 <= p < n && (forall i :: 0 <= i < |done| ==> done[i].index != p)
        ensures b.results[p] == -1
      {
        assert done[|done| - 1].index != p;
      }
      CountsDown(n, |before|);
    }
  }

  /** One more step of the 8-bit countdown. */
  lemma CountsDown(n: nat, k: nat)
    ensures ((n - k) % 256 + 255) % 256 == (n - (k + 1)) % 256
  {
    var x := n - k;
    var q, r := x / 256, x % 256;
    if r == 0 {
      assert x - 1 == 256 * (q - 1) + 255;
    } else {
      assert x - 1 == 256 * q + (r - 1) && r + 255 == 256 + (r - 1);
    }
  }

  /** n completions at distinct positions below n leave no position out. */
  lemma NoPositionMissing(n: nat, done: seq<Done>, p: nat)
    requires |done| == n && Distinct(done) && p < n
    requires forall d :: d in done ==> d.index < n
    ensures exists i :: 0 <= i < n && done[i].index == p
  {
    var used := set d | d in done :: d.index;
    CardOfIndices(done);
    assert used <= Range(n);
    SubsetCard(used, Range(n));
    assert p in used;
    var d :| d in done && d.index == p;
    var i :| 0 <= i < n && done[i] == d;
  }

  lemma CardOfIndices(done: seq<Done>)
    requires Distinct(done)
    ensures |set d | d in done :: d.index| == |done|
  {
    var indices := seq(|done|, i requires 0 <= i < |done| => done[i].index);
    DistinctCard(indices);
    forall p: nat
      ensures p in Elements(indices) <==> p in (set d | d in done :: d.index)
    {
      if p in Elements(indices) {
        var i :| 0 <= i < |indices| && indices[i] == p;
        assert done[i] in done;
      }
      if p in (set d | d in done :: d.index) {
        var d :| d in done && d.index == p;
        var i :| 0 <= i < |done| && done[i] == d;
        assert indices[i] == p;
      }
    }
    assert Elements(indices) == (set d | d in done :: d.index);
  }

  /** Every position holds the result of the completion of that very entry. */
  ghost predicate Collected(n: nat, done: seq<Done>, results: seq<int>) {
    && |results| == n
    && forall p :: 0 <= p < n ==> Done(p, results[p]) in done
  }

  lemma {:induction false} ZerosBeforeN(n: nat, k: nat)
    requires k < n && n <= 256
    ensures Zeros(n, k) == 0
  {
    if k > 0 {
      ZerosBeforeN(n, k - 1);
      assert 0 < n - k < 256;
    }
  }

  lemma {:induction false} ZerosGrow(n: nat, j: nat, k: nat)
    requires j <= k
    ensures Zeros(n, j) <= Zeros(n, k)
  {
    if j < k {
      ZerosGrow(n, j, k - 1);
    }
  }

  /**
    When all n entries have completed, in whatever order, the coroutine has been resumed exactly
    once, with every result in its place, if and only if n is between 1 and 256: the countdown is
    an 8-bit number, so a longer list wakes its coroutine early and more than once, and an empty
    one never.
   */
  lemma ResumedExactlyOnce(n: nat, done: seq<Done>)
    requires |done| == n && Distinct(done)
    requires forall d :: d in done ==> d.index < n
    ensures After(n, done).wakeups == [After(n, done).results] <==> 1 <= n <= 256
    ensures Collected(n, done, After(n, done).results)
  {
    CountdownAndPlaces(n, done);
    forall p | 0 <= p < n
      ensures Done(p, After(n, done).results[p]) in done
    {
      NoPositionMissing(n, done, p);
      var i :| 0 <= i < n && done[i].index == p;
      assert done[i] == Done(p, After(n, done).results[p]);
    }
    ZerosInAll(n);
    if 1 <= n <= 256 {
      CountdownAndPlaces(n, done[..n - 1]);
      ZerosBeforeN(n, n - 1);
      assert After(n, done[..n - 1]).wakeups == [];
    }
  }

  /** Over a whole countdown from n zero is met once if n is from 1 to 256, never for 0, and else again. */
  lemma ZerosInAll(n: nat)
    ensures Zeros(n, n) == 1 <==> 1 <= n <= 256
  {
    if n > 256 {
      ZerosGrow(n, n - 257, n - 256);
      assert Zeros(n, n - 256) == Zeros(n, n - 257) + 1;
      ZerosGrow(n, n - 256, n - 1);
    } else if n >= 1 {
      ZerosBeforeN(n, n - 1);
    }
  }

  /** Until the last entry completes, an awaiter of at most 256 entries is not resumed. */
  lemma NotResumedEarly(n: nat, done: seq<Done>)
    requires n <= 256 && |done| < n && Distinct(done)
    requires forall d :: d in done ==> d.index < n
    ensures After(n, done).wakeups == [] && After(n, done).tocomplete == (n - |done|) % 256
  {
    CountdownAndPlaces(n, done);
    ZerosBeforeN(n, |done|);
  }

  // --------------------------------------------------------------- the objects

  class IoUringAwaiter {
    const results: array<int>
    var tocomplete: nat
    ghost var done: seq<Done>
    ghost var wakeups: seq<seq<int>>

    ghost predicate Valid()
      reads this, results
    {
      && (forall d :: d in done ==> d.index < results.Length)
      && Model() == After(results.Length, done)
    }

    ghost function Model(): Await
      reads this, results
    {
      Await(tocomplete, results[..], wakeups)
    }

    constructor (n: nat)
      ensures Valid() && fresh(results) && results.Length == n && done == []
    {
      results := new int[n](_ => -1);
      tocomplete := n % 256;
      done, wakeups := [], [];
      new;
      assert results[..] == Start(n).results;
    }

    /**
      The results as the coroutine gets them when it goes on: in the place of each entry that has
      completed lies the result of its own completion, -1 in the place of any other, and if every
      entry has completed there is nothing else.
     */
    method AwaitResume() returns (r: seq<int>)
      requires Valid()
      ensures |r| == results.Length
      ensures Distinct(done) ==> forall i :: 0 <= i < |done| ==> r[done[i].index] == done[i].res
      ensures Distinct(done) ==>
        forall p :: 0 <= p < |r| && (forall i :: 0 <= i < |done| ==> done[i].index != p) ==> r[p] == -1
      ensures Distinct(done) && |done| == results.Length ==> Collected(results.Length, done, r)
    {
      r := [];
      for k := 0 to results.Length
        invariant r == results[..k]
      {
        r := r + [results[k]];
      }
      assert r == results[..];
      if Distinct(done) {
        CountdownAndPlaces(results.Length, done);
        if |done| == results.Length {
          ResumedExactlyOnce(results.Length, done);
        }
      }
    }
  }

  /** A completion entry; user_data is null or names an awaiter and the position of the entry. */
  datatype Cqe = NoUserData | Cqe(gres: IoUringAwaiter, index: nat, res: int)

  /** The completions of one awaiter among all, in order. */
  ghost function For(a: IoUringAwaiter, cqes: seq<Cqe>): seq<Done> {
    if cqes == [] then []
    else
      var c := cqes[|cqes| - 1];
      For(a, cqes[..|cqes| - 1]) + (if c.Cqe? && c.gres == a then [Done(c.index, c.res)] else [])
  }

  method HandleCqe(cqe: Cqe) returns (rc: int)
    requires cqe.Cqe? ==> cqe.gres.Valid() && cqe.index < cqe.gres.results.Length
    modifies if cqe.Cqe? then {cqe.gres, cqe.gres.results} else {}
    ensures rc == 0
    ensures cqe.Cqe? ==> cqe.gres.Valid() && cqe.gres.done == old(cqe.gres.done) + [Done(cqe.index, cqe.res)]
  {
    if cqe.NoUserData? {
      return 0;
    }
    var a := cqe.gres;
    ghost var before := a.Model();
    a.results[cqe.index] := cqe.res;
    a.tocomplete := (a.tocomplete + 255) % 256;
    if a.tocomplete == 0 {
      a.wakeups := a.wakeups + [a.results[..]];
    }
    ghost var d := Done(cqe.index, cqe.res);
    a.done := a.done + [d];
    assert a.done[..|a.done| - 1] == old(a.done);
    assert a.Model() == Handle(before, d);
    rc := 0;
  }

  /**
    Any mixture of completions of any number of awaiters: each awaiter sees exactly its own, in
    order, and no other awaiter's.
   */
  method HandleAll(cqes: seq<Cqe>, ghost awaiters: set<IoUringAwaiter>)
    requires forall a :: a in awaiters ==> a.Valid()
    requires forall a, b :: a in awaiters && b in awaiters && a != b ==> a.results != b.results
    requires forall c :: c in cqes && c.Cqe? ==> c.gres in awaiters && c.index < c.gres.results.Length
    modifies awaiters, set a | a in awaiters :: a.results
    ensures forall a :: a in awaiters ==> a.Valid() && a.done == old(a.done) + For(a, cqes)
  {
    var i := 0;
    while i < |cqes|
      invariant 0 <= i <= |cqes|
      invariant forall a :: a in awaiters ==> a.Valid() && a.done == old(a.done) + For(a, cqes[..i])
    {
      assert cqes[..i + 1][..i] == cqes[..i];
      var c := cqes[i];
      assert c in cqes;
      label step:
      var _ := HandleCqe(c);
      forall a | a in awaiters
        ensures a.Valid() && a.done == old(a.done) + For(a, cqes[..i + 1])
      {
        if c.Cqe? && c.gres == a {
          assert For(a, cqes[..i + 1]) == For(a, cqes[..i]) + [Done(c.index, c.res)];
        } else {
          assert For(a, cqes[..i + 1]) == For(a, cqes[..i]);
          assert a.Model() == old@step(a.Model());
        }
      }
      i := i + 1;
    }
    assert cqes[..i] == cqes;
  }

  /**
    A run over any mixture of completions in which every one of an awaiter's entries completes once:
    that awaiter's coroutine has been resumed exactly once, with all results in place.
   */
  method RunToEnd(a: IoUringAwaiter, others: set<IoUringAwaiter>, cqes: seq<Cqe>)
    requires 1 <= a.results.Length <= 256 && a.done == []
    requires forall b :: b in others + {a} ==> b.Valid()
    requires forall b, c :: b in others + {a} && c in others + {a} && b != c ==> b.results != c.results
    requires forall c :: c in cqes && c.Cqe? ==> c.gres in others + {a} && c.index < c.gres.results.Length
    requires Distinct(For(a, cqes)) && |For(a, cqes)| == a.results.Length
    modifies others + {a}, set b | b in others + {a} :: b.results
    ensures a.wakeups == [a.results[..]]
    ensures Collected(a.results.Length, For(a, cqes), a.results[..])
  {
    HandleAll(cqes, others + {a});
    assert a.done == For(a, cqes);
    ResumedExactlyOnce(a.results.Length, a.done);
  }
}
