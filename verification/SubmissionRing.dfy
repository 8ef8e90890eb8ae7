/**
  The submission queue of an io_uring and the reservation of entries by get_sqe.

  The two ring counters are 32-bit and wrap; ghost unbounded counters `head` and `tail` say what
  they stand for. The kernel is free to answer each submit as it likes, so a call may wait for
  ever; `budget` is the number of kernel calls a run is followed for, and a call that runs out of it
  reports Cut. Every statement is about all budgets, so it is about every finite prefix of a run.
 */
module SubmissionRing {
  import opened Bytes

  /** What io_uring_submit answers: -EBUSY, another error, or that n queued entries were taken. */
  datatype Answer = Busy | Rejected | Accepted(n: nat)

  /** What get_sqe answers: an entry, nullptr, or that the run was not followed any further. */
  datatype Got = Sqe(slot: nat) | NullSqe | Cut

  // ------------------------------------------------ arithmetic of wrapped counters

  /** The 32-bit difference of two wrapped counters is their true distance. */
  lemma DistanceSurvivesWrap(head: nat, tail: nat)
    requires head <= tail < head + TWO32
    ensures Wrap32(Wrap32(tail) - Wrap32(head)) == tail - head
  {
    var a, b := tail / TWO32, head / TWO32;
    DivModUnique(Wrap32(tail) - Wrap32(head), TWO32, b - a, tail - head);
  }

  lemma RemainderOfRemainder(t: nat, e: nat, k: nat)
    requires e > 0 && k > 0 && e * k > 0
    ensures (t % (e * k)) % e == t % e
  {
    var big := e * k;
    var w, u := t % big, t / big;
    var q, r := w / e, w % e;
    assert t == big * u + w && w == e * q + r;
    assert t == e * (k * u + q) + r by {
      assert big * u == e * (k * u);
      assert e * (k * u + q) == e * (k * u) + e * q;
    }
    DivModUnique(t, e, k * u + q, r);
  }

  /** With 2^order entries, masking the wrapped tail gives the true position modulo the ring size. */
  lemma MaskFindsPosition(tail: nat, order: nat)
    requires order <= 31
    ensures And(Wrap32(tail), Pow2(order) - 1) == tail % Pow2(order)
  {
    MaskIsMod(Wrap32(tail), order);
    Pow2Add(order, 32 - order);
    Pow2Of32();
    RemainderOfRemainder(tail, Pow2(order), Pow2(32 - order));
  }

  /** Two counters less than one turn apart are at different positions of the ring. */
  lemma DistinctPositions(i: nat, j: nat, entries: nat)
    requires entries > 0 && i < j < i + entries
    ensures i % entries != j % entries
  {
    var p, q := i / entries, j / entries;
    if i % entries == j % entries {
      assert entries * (q - p) == j - i;
      if q - p >= 1 {
        MulAtLeast(entries, q - p);
      } else {
        MulAtLeast(entries, 1 + p - q);
      }
    }
  }

  lemma WrapAdd(t: nat, n: nat)
    ensures Wrap32(Wrap32(t) + n) == Wrap32(t + n)
  {
    var q := (Wrap32(t) + n) / TWO32;
    DivModUnique(t + n, TWO32, t / TWO32 + q, Wrap32(Wrap32(t) + n));
  }

  /** The masked tail is the place of the next entry; no entry between head and tail is there. */
  lemma TailIsFree(head: nat, tail: nat, order: nat)
    requires order <= 31 && head <= tail < head + Pow2(order)
    ensures And(Wrap32(tail), Pow2(order) - 1) == tail % Pow2(order)
    ensures forall i :: head <= i < tail ==> i % Pow2(order) != tail % Pow2(order)
    ensures Wrap32(Wrap32(tail) + 1) == Wrap32(tail + 1)
  {
    MaskFindsPosition(tail, order);
    WrapAdd(tail, 1);
    forall i | head <= i < tail
      ensures i % Pow2(order) != tail % Pow2(order)
    {
      DistinctPositions(i, tail, Pow2(order));
    }
  }

  /** Which answers end a call with nullptr: for a reservation every error but EBUSY, for a single entry any. */
  predicate Refuses(peek: nat, a: Answer) {
    if peek > 1 then a.Rejected? else !a.Accepted?
  }

  /** One of the answers from the k-th on refuses. */
  ghost predicate RefusedSince(answers: seq<Answer>, k: nat, peek: nat) {
    exists i :: k <= i < |answers| && Refuses(peek, answers[i])
  }

  lemma RefusedStays(answers: seq<Answer>, more: seq<Answer>, k: nat, peek: nat)
    requires answers <= more && RefusedSince(answers, k, peek)
    ensures RefusedSince(more, 0, peek)
  {
    var i :| k <= i < |answers| && Refuses(peek, answers[i]);
    assert Refuses(peek, more[i]);
  }

  lemma OneMoreAnswer(answers: seq<Answer>, a: Answer, k: nat, peek: nat)
    requires k <= |answers|
    ensures RefusedSince(answers + [a], k, peek) <==> RefusedSince(answers, k, peek) || Refuses(peek, a)
  {
    var all := answers + [a];
    assert all[|answers|] == a;
    if RefusedSince(answers, k, peek) {
      var i :| k <= i < |answers| && Refuses(peek, answers[i]);
      assert all[i] == answers[i];
    }
  }

  /** The last submit took nothing from a full ring, and the program asks for an entry for ever. */
  predicate Spins(answers: seq<Answer>) {
    answers != [] && answers[|answers| - 1] == Accepted(0)
  }

  class Ring<T(0, ==)> {
    const order: nat
    const entries: nat        // *kring_entries; kring_mask is entries - 1
    const reliable: bool      // true: the kernel takes every submit (any number of entries, maybe none)
    const sqes: array<T>
    var khead: nat            // advanced by the kernel, 32 bits
    var sqeTail: nat          // advanced by get_sqe, 32 bits
    var ringSubmit: bool
    var budget: nat
    var inflight: multiset<T> // taken by the kernel and not completed

    ghost var head: nat
    ghost var tail: nat
    ghost var history: seq<T>   // everything ever queued, oldest first; the kernel has taken the first `head`
    ghost var submits: nat      // io_uring_submit calls made by get_sqe
    ghost var answers: seq<Answer>   // the kernel's answer to every submit, oldest first
    ghost var completed: multiset<T>

    ghost predicate Valid()
      reads this, sqes
    {
      && order <= 31 && entries == Pow2(order) && entries < TWO32
      && sqes.Length == entries
      && head <= tail <= head + entries
      && khead == Wrap32(head) && sqeTail == Wrap32(tail)
      && |history| == tail
      && multiset(history[..head]) == inflight + completed
      && forall i :: head <= i < tail ==> sqes[i % entries] == history[i]
    }

    /** The entries queued and not yet taken by the kernel, oldest first. */
    ghost function Pending(): (p: seq<T>)
      requires Valid()
      reads this, sqes
    {
      history[head..]
    }

    constructor (order: nat, reliable: bool, budget: nat, filler: T)
      requires order <= 31
      ensures Valid() && fresh(sqes) && history == [] && submits == 0 && completed == multiset{} && answers == []
      ensures this.order == order && this.reliable == reliable && this.budget == budget && !ringSubmit
    {
      Pow2Monotone(order, 31);
      Pow2Of32();
      var n := Pow2(order);
      this.order, entries, this.reliable, this.budget := order, n, reliable, budget;
      sqes := new T[n](_ => filler);
      khead, sqeTail, ringSubmit := 0, 0, false;
      head, tail, history, submits := 0, 0, [], 0;
      inflight, completed, answers := multiset{}, multiset{}, [];
    }

    /** tail - head as the code computes it: the true number of unconsumed entries. */
    method Unconsumed() returns (n: nat)
      requires Valid()
      ensures n == |Pending()|
    {
      DistanceSurvivesWrap(head, tail);
      n := Wrap32(sqeTail - khead);
    }

    /** The entry at the tail, whose position no unconsumed entry has, is handed out with whatever it held. */
    method TakeTail() returns (slot: nat)
      requires Valid() && tail < head + entries
      modifies this`sqeTail, this`tail, this`history
      ensures Valid() && tail == old(tail) + 1
      ensures slot == old(tail) % entries
      ensures forall i :: old(head) <= i < old(tail) ==> slot != i % entries
      ensures history == old(history) + [sqes[slot]]
    {
      TailIsFree(head, tail, order);
      slot := And(sqeTail, entries - 1);
      assert (history + [sqes[slot]])[..head] == history[..head];
      history := history + [sqes[slot]];
      sqeTail := Wrap32(sqeTail + 1);
      tail := tail + 1;
    }

    /** io_uring_get_sqe of liburing: an entry if the ring has a free one. */
    method IoUringGetSqe() returns (got: Got)
      requires Valid()
      modifies this`sqeTail, this`tail, this`history
      ensures Valid()
      ensures got.Sqe? <==> old(|Pending()|) < entries
      ensures got.Sqe? ==>
        && tail == old(tail) + 1 && got.slot == old(tail) % entries
        && history == old(history) + [sqes[got.slot]]
      ensures !got.Sqe? ==> got.NullSqe? && tail == old(tail) && history == old(history)
    {
      var n := Unconsumed();
      if n < entries {
        var slot := TakeTail();
        got := Sqe(slot);
      } else {
        got := NullSqe;
      }
    }

    /** The kernel takes the entry at its head: the oldest one queued, whatever the counters wrapped to. */
    method KernelTakes()
      requires Valid() && head < tail
      modifies this`khead, this`head, this`inflight
      ensures Valid() && head == old(head) + 1 && inflight == old(inflight) + multiset{history[old(head)]}
    {
      MaskFindsPosition(head, order);
      var v := sqes[And(khead, entries - 1)];
      assert history[..head + 1] == history[..head] + [v];
      WrapAdd(head, 1);
      inflight := inflight + multiset{v};
      khead := Wrap32(khead + 1);
      head := head + 1;
    }

    /** The kernel ends an operation it has taken. */
    method KernelCompletes(v: T)
      requires Valid() && v in inflight
      modifies this`inflight, this`completed
      ensures Valid() && completed == old(completed) + multiset{v} && inflight == old(inflight) - multiset{v}
    {
      inflight := inflight - multiset{v};
      completed := completed + multiset{v};
    }

    /** io_uring_submit: the kernel refuses, or takes some prefix of what is queued. */
    method IoUringSubmit() returns (a: Answer)
      requires Valid() && budget > 0
      modifies this`khead, this`head, this`budget, this`inflight, this`answers
      ensures Valid() && budget == old(budget) - 1 && answers == old(answers) + [a]
      ensures reliable ==> a.Accepted?
      ensures !a.Accepted? ==> head == old(head)
      ensures a.Accepted? ==> a.n <= old(|Pending()|) && head == old(head) + a.n
    {
      budget := budget - 1;
      var refuse: bool := *;
      if refuse && !reliable {
        var busy: bool := *;
        a := if busy then Busy else Rejected;
      } else {
        var queued := Unconsumed();
        var n: nat :| n <= queued;
        a := Accepted(n);
        for i := 0 to n
          invariant Valid() && head == old(head) + i && budget == old(budget) - 1 && answers == old(answers)
        {
          KernelTakes();
        }
      }
      answers := answers + [a];
    }

    /** As many answers as the budget went down. */
    twostate predicate Counted()
      reads this
    {
      && old(answers) <= answers && budget <= old(budget)
      && |answers| + budget == old(|answers| + budget)
    }

    /** Some entries may have been taken and `more` was queued behind the others; nothing else changed. */
    twostate predicate Extends(more: seq<T>)
      requires old(Valid()) && Valid()
      reads this, sqes
    {
      && old(head) <= head <= old(tail)
      && history == old(history) + more
    }

    /** get_sqe(peek) for peek > 1. */
    method Reserve(peek: nat) returns (got: Got)
      requires Valid() && peek > 1
      modifies this`khead, this`head, this`budget, this`inflight, this`answers
      modifies this`submits, this`sqeTail, this`tail, this`history
      ensures Valid()
      ensures tail == old(tail) + (if got.Sqe? then 1 else 0)
      ensures got.Sqe? ==> got.slot == old(tail) % entries && Extends([sqes[got.slot]])
      ensures !got.Sqe? ==> Extends([])
      ensures got.Sqe? ==> |Pending()| + peek <= entries + 1
      ensures old(|Pending()|) + peek <= entries ==> got.Sqe? && head == old(head) && budget == old(budget)
      ensures budget <= old(budget) && submits == old(submits) + (old(budget) - budget)
      ensures completed == old(completed) && (budget == old(budget) ==> head == old(head))
      ensures got.NullSqe? ==> !reliable && budget < old(budget)
      ensures Counted() && (got.Cut? ==> budget == 0)
      ensures got.NullSqe? <==> RefusedSince(answers, old(|answers|), peek)
    {
      while true
        invariant Valid() && tail == old(tail)
        invariant Extends([])
        invariant budget <= old(budget) && submits == old(submits) + (old(budget) - budget)
        invariant budget == old(budget) ==> head == old(head)
        invariant Counted() && !RefusedSince(answers, old(|answers|), peek)
        invariant old(|Pending()|) + peek <= entries ==> head == old(head) && budget == old(budget)
        decreases budget
      {
        var n := Unconsumed();
        if n < entries && entries - n >= peek {
          var slot := TakeTail();
          return Sqe(slot);
        }
        if budget == 0 {
          return Cut;
        }
        submits := submits + 1;
        ghost var before := answers;
        var a := IoUringSubmit();
        OneMoreAnswer(before, a, old(|answers|), peek);
        if a.Rejected? {
          return NullSqe;
        }
      }
    }

    /** The full ring: submit once, then ask until there is an entry. */
    method SubmitAndAskAgain() returns (got: Got)
      requires Valid() && |Pending()| == entries
      modifies this`khead, this`head, this`budget, this`inflight, this`answers
      modifies this`submits, this`sqeTail, this`tail, this`history
      ensures Valid()
      ensures got.Sqe? ==> tail == old(tail) + 1 && got.slot == old(tail) % entries && Extends([sqes[got.slot]])
      ensures !got.Sqe? ==> tail == old(tail) && Extends([])
      ensures budget <= old(budget) && submits == old(submits) + (old(budget) - budget)
      ensures budget == old(budget) ==> head == old(head)
      ensures got.NullSqe? ==> !reliable && budget < old(budget)
      ensures Counted() && (got.Cut? ==> budget == 0 || Spins(answers))
      ensures got.NullSqe? <==> RefusedSince(answers, old(|answers|), 1)
    {
      if budget == 0 {
        return Cut;
      }
      submits := submits + 1;
      var a := IoUringSubmit();
      OneMoreAnswer(old(answers), a, old(|answers|), 1);
      if !a.Accepted? {
        return NullSqe;
      }
      got := IoUringGetSqe();
      if got.NullSqe? {
        // Nothing was taken: the code goes on asking and the ring stays full.
        got := Cut;
      }
    }

    /** get_sqe() for a single entry. */
    method GetOne() returns (got: Got)
      requires Valid()
      modifies this
      ensures Valid()
      ensures tail == old(tail) + (if got.Sqe? then 1 else 0)
      ensures got.Sqe? ==> got.slot == old(tail) % entries && Extends([sqes[got.slot]])
      ensures !got.Sqe? ==> Extends([])
      ensures old(|Pending()|) < entries ==> got.Sqe? && head == old(head) && budget == old(budget)
      ensures budget <= old(budget) && submits == old(submits) + (old(budget) - budget)
      ensures completed == old(completed) && (budget == old(budget) ==> head == old(head))
      ensures ringSubmit
      ensures got.NullSqe? ==> !reliable && budget < old(budget)
      ensures Counted() && (got.Cut? ==> budget == 0 || Spins(answers))
      ensures got.NullSqe? <==> RefusedSince(answers, old(|answers|), 1)
    {
      ringSubmit := true;
      got := IoUringGetSqe();
      if got.NullSqe? {
        got := SubmitAndAskAgain();
      }
    }

    method GetSqe(peek: nat) returns (got: Got)
      requires Valid()
      modifies this
      ensures Valid()
      ensures tail == old(tail) + (if got.Sqe? then 1 else 0)
      ensures got.Sqe? ==> got.slot == old(tail) % entries && Extends([sqes[got.slot]])
      ensures !got.Sqe? ==> Extends([])
      // After a reservation the rest of the chain fits.
      ensures got.Sqe? ==> |Pending()| + peek <= entries + 1
      // With room there is no submit and no failure.
      ensures (old(|Pending()|) < entries && old(|Pending()|) + peek <= entries) ==>
        got.Sqe? && head == old(head) && budget == old(budget)
      ensures budget <= old(budget) && submits == old(submits) + (old(budget) - budget)
      ensures completed == old(completed) && (budget == old(budget) ==> head == old(head))
      ensures ringSubmit == (old(ringSubmit) || peek <= 1)
      ensures got.NullSqe? ==> !reliable && budget < old(budget)
      // A refusal is the kernel's, and the run is only cut where the program would go on for ever.
      ensures Counted() && (got.Cut? ==> budget == 0 || (peek <= 1 && Spins(answers)))
      ensures got.NullSqe? <==> RefusedSince(answers, old(|answers|), peek)
    {
      if peek > 1 {
        got := Reserve(peek);
      } else {
        got := GetOne();
      }
    }

    /** Fill in an entry handed out earlier and not yet taken by the kernel. */
    method Prep(slot: nat, v: T)
      requires Valid() && tail > head && slot == (tail - 1) % entries
      modifies sqes, this`history
      ensures Valid() && history == old(history)[..tail - 1] + [v]
    {
      forall i | head <= i < tail - 1
        ensures i % entries != slot
      {
        DistinctPositions(i, tail - 1, entries);
      }
      assert (history[..tail - 1] + [v])[..head] == history[..head];
      sqes[slot] := v;
      history := history[..tail - 1] + [v];
    }

    /** One more entry while there is room: no submit and no failure. */
    method Append(v: T)
      requires Valid() && |Pending()| < entries
      modifies this, sqes
      ensures Valid() && ringSubmit
      ensures history == old(history) + [v] && head == old(head)
      ensures budget == old(budget) && submits == old(submits) && completed == old(completed) && answers == old(answers)
    {
      var next := GetSqe(1);
      Prep(next.slot, v);
    }

    /** The plain get_sqe calls behind a reservation that left room for them. */
    method AppendAll(ops: seq<T>)
      requires Valid() && |Pending()| + |ops| <= entries
      modifies this, sqes
      ensures Valid() && history == old(history) + ops && head == old(head)
      ensures budget == old(budget) && submits == old(submits) && completed == old(completed) && answers == old(answers)
      ensures ringSubmit == (old(ringSubmit) || ops != [])
    {
      var i := 0;
      while i < |ops|
        invariant 0 <= i <= |ops| && Valid() && head == old(head)
        invariant history == old(history) + ops[..i]
        invariant budget == old(budget) && submits == old(submits) && completed == old(completed)
        invariant answers == old(answers)
        invariant ringSubmit == (old(ringSubmit) || i > 0)
      {
        Append(ops[i]);
        assert ops[..i + 1] == ops[..i] + [ops[i]];
        i := i + 1;
      }
      assert ops[..i] == ops;
    }

    /**
      The shape of every chain in the program: one get_sqe(k) reserves, k - 1 plain calls follow.
      When the reservation succeeds, no later call can fail, none submits, and the chain lies in
      consecutive places behind everything queued before it.
     */
    method QueueChain(ops: seq<T>) returns (got: Got)
      requires Valid() && |ops| >= 1
      modifies this, sqes
      ensures Valid()
      ensures got.Sqe? ==> Extends(ops)
      ensures !got.Sqe? ==> Extends([])
      ensures old(|Pending()|) + |ops| <= entries ==> got.Sqe? && head == old(head) && budget == old(budget)
      ensures budget <= old(budget) && submits == old(submits) + (old(budget) - budget)
      ensures completed == old(completed) && (budget == old(budget) ==> head == old(head))
      ensures got.NullSqe? ==> !reliable && budget < old(budget)
      ensures Counted() && (got.Cut? ==> budget == 0 || (|ops| == 1 && Spins(answers)))
      ensures got.NullSqe? <==> RefusedSince(answers, old(|answers|), |ops|)
      ensures ringSubmit || (!got.Sqe? && |ops| > 1)
      ensures old(ringSubmit) ==> ringSubmit
    {
      got := GetSqe(|ops|);
      if got.Sqe? {
        Prep(got.slot, ops[0]);
        AppendAll(ops[1..]);
        assert ops == [ops[0]] + ops[1..];
      }
    }

    /**
      queue_fuse_read asks for its two entries before it looks at either. If the reservation is
      refused and the second call then gets an entry, that entry is never filled in: whatever lay
      there stays queued. Nothing is left behind in every other case.
     */
    method ReadPrologue() returns (first: Got, second: Got)
      requires Valid()
      modifies this
      ensures Valid()
      ensures first.Sqe? ==> second.Sqe? && |Pending()| == 2 + old(|Pending()|) - (head - old(head))
      ensures !first.Sqe? && !second.Sqe? ==> Extends([])
      ensures first.NullSqe? && second.Sqe? ==> Extends([old(sqes[tail % entries])])
      ensures old(|Pending()|) + 2 <= entries || reliable ==> !first.NullSqe?
      ensures Counted() && (first.NullSqe? ==> RefusedSince(answers, old(|answers|), 2))
      ensures first.Cut? || second.Cut? ==> budget == 0 || Spins(answers)
    {
      first := GetSqe(2);
      if first.Cut? {
        second := Cut;
        return;
      }
      second := GetSqe(1);
    }
  }
}
