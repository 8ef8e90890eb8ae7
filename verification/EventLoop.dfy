/**
  The event loop: n slots, each served by one task at a time; a submission ring, a completion ring
  and the loop that queues tasks, submits, waits and reaps completions in batches. A resumed task may
  queue and submit new operations while a batch is being reaped.

  What a task does between two waits is free: it queues one to three operations and waits for them,
  or it ends. Every operation in the rings is named by the slot of the task that waits for it. What
  a task does to its slot is what Dispatch.QueueFuseRead promises of the whole task; as no other task
  changes the slot meanwhile (SlotLayout.ActsOnOwnSlot), it is put down when the task ends.
 */
module EventLoop {
  import opened Bytes
  import opened SubmissionRing
  import opened FuseKernel
  import opened KernelOps
  import opened Dispatch
  import opened Counting

  // ---------------------------------------------------------- the completion ring

  datatype Next = NoCqe | Entry(slot: nat)

  class CompletionRing {
    const order: nat
    const entries: nat
    const cqes: array<nat>
    var khead: nat          // advanced by io_uring_cq_advance, 32 bits
    var ktail: nat          // advanced by the kernel, 32 bits
    ghost var head: nat
    ghost var posted: seq<nat>   // everything ever posted, oldest first

    ghost predicate Valid()
      reads this, cqes
    {
      && order <= 31 && entries == Pow2(order) && entries < TWO32 && cqes.Length == entries
      && head <= |posted| <= head + entries
      && khead == Wrap32(head) && ktail == Wrap32(|posted|)
      && forall i :: head <= i < |posted| ==> cqes[i % entries] == posted[i]
    }

    constructor (order: nat)
      requires order <= 31
      ensures Valid() && fresh(cqes) && this.order == order && head == 0 && posted == []
    {
      Pow2Monotone(order, 31);
      Pow2Of32();
      var n := Pow2(order);
      this.order, entries := order, n;
      cqes := new nat[n](_ => 0);
      khead, ktail, head, posted := 0, 0, 0, [];
    }

    /** The kernel's test for room. */
    method HasRoom() returns (room: bool)
      requires Valid()
      ensures room <==> |posted| < head + entries
    {
      DistanceSurvivesWrap(head, |posted|);
      room := Wrap32(ktail - khead) < entries;
    }

    /** The kernel posts a completion. */
    method Post(v: nat)
      requires Valid() && |posted| < head + entries
      modifies this`ktail, this`posted, cqes
      ensures Valid() && posted == old(posted) + [v]
    {
      TailIsFree(head, |posted|, order);
      cqes[And(ktail, entries - 1)] := v;
      ktail := Wrap32(ktail + 1);
      posted := posted + [v];
    }

    /** One test of io_uring_for_each_cqe: the tail is read again each time. */
    method Peek(cursor: nat, ghost at: nat) returns (next: Next)
      requires Valid() && head <= at <= |posted| && cursor == Wrap32(at)
      ensures next == if at < |posted| then Entry(posted[at]) else NoCqe
    {
      DistanceSurvivesWrap(at, |posted|);
      if cursor == ktail {
        next := NoCqe;
      } else {
        MaskFindsPosition(at, order);
        next := Entry(cqes[And(cursor, entries - 1)]);
      }
    }

    /** io_uring_cq_advance */
    method Advance(count: nat, ghost n: nat)
      requires Valid() && count == Wrap32(n) && head + n <= |posted|
      modifies this`khead, this`head
      ensures Valid() && head == old(head) + n
    {
      WrapSum(head, n);
      khead := Wrap32(khead + count);
      head := head + n;
    }
  }

  lemma WrapSum(a: nat, b: nat)
    ensures Wrap32(Wrap32(a) + Wrap32(b)) == Wrap32(a + b)
  {
    WrapAdd(b, Wrap32(a));
    WrapAdd(a, b);
  }

  lemma CursorStep(seen: nat, from: nat)
    requires from <= seen
    ensures Wrap32(Wrap32(seen) + 1) == Wrap32(seen + 1)
    ensures Wrap32(Wrap32(seen - from) + 1) == Wrap32(seen + 1 - from)
  {
    WrapAdd(seen, 1);
    WrapAdd(seen - from, 1);
  }

  // ------------------------------------------------------------------ the ledger

  function Sum(s: seq<nat>): nat {
    if s == [] then 0 else Sum(s[..|s| - 1]) + s[|s| - 1]
  }

  lemma {:induction false} SumUpdate(s: seq<nat>, i: nat, v: nat)
    requires i < |s|
    ensures Sum(s[i := v]) + s[i] == Sum(s) + v
  {
    var m := |s| - 1;
    if i < m {
      SumUpdate(s[..m], i, v);
      assert s[i := v][..m] == s[..m][i := v];
    } else {
      assert s[i := v][..m] == s[..m];
    }
  }

  lemma {:induction false} SumAtMostThree(s: seq<nat>)
    requires forall i :: 0 <= i < |s| ==> s[i] <= 3
    ensures Sum(s) <= 3 * |s|
  {
    if s != [] {
      SumAtMostThree(s[..|s| - 1]);
    }
  }

  lemma {:induction false} SumAtLeastOne(s: seq<nat>)
    requires forall i :: 0 <= i < |s| ==> s[i] >= 1
    ensures Sum(s) >= |s|
  {
    if s != [] {
      SumAtLeastOne(s[..|s| - 1]);
    }
  }

  lemma {:induction false} ZeroSum(s: seq<nat>)
    requires forall i :: 0 <= i < |s| ==> s[i] == 0
    ensures Sum(s) == 0
  {
    if s != [] {
      ZeroSum(s[..|s| - 1]);
    }
  }

  /** A list with a zero entry and no entry above three. */
  lemma SumWithGap(s: seq<nat>, i: nat)
    requires i < |s| && s[i] == 0 && forall k :: 0 <= k < |s| ==> s[k] <= 3
    ensures Sum(s) + 3 <= 3 * |s|
  {
    SumUpdate(s, i, 3);
    SumAtMostThree(s[i := 3]);
  }

  /** `running` is the slot whose task runs, or n when none does. */
  datatype Books = Books(
    n: nat, ios: seq<nat>, held: set<nat>, left: seq<nat>,  // free slots, slots of live tasks, tocomplete
    queued: seq<nat>, handled: seq<nat>)                    // every entry queued, every completion handled

  ghost predicate SlotOk(b: Books, running: nat, s: nat)
    requires s < b.n == |b.left|
  {
    && (s in b.held <==> s !in b.ios)
    && b.left[s] + multiset(b.handled)[s] == multiset(b.queued)[s]
    && (if s in b.held && s != running then 1 <= b.left[s] <= 3 else b.left[s] == 0)
  }

  /**
    Free slots and slots of live tasks partition the n slots, no slot twice; the countdown of every
    task is the number of its operations queued and not yet handled; a task that does not run waits
    for one to three operations.
   */
  ghost predicate Ledger(b: Books, running: nat) {
    && |b.left| == b.n
    && (forall i, j :: 0 <= i < j < |b.ios| ==> b.ios[i] != b.ios[j])
    && (forall s :: s in b.ios || s in b.held || s in b.queued ==> s < b.n)
    && (running < b.n ==> running in b.held)
    && (forall s: nat {:trigger SlotOk(b, running, s)} :: s < b.n ==> SlotOk(b, running, s))
    && Sum(b.left) + |b.handled| == |b.queued|
  }

  /** All n slots free, in the order of their creation. */
  function AllFree(n: nat): Books {
    Books(n, seq(n, i => i), {}, seq(n, _ => 0), [], [])
  }

  lemma LedgerStart(n: nat)
    ensures Ledger(AllFree(n), n)
  {
    var b := AllFree(n);
    forall s: nat | s < n
      ensures SlotOk(b, n, s)
    {
      assert b.ios[s] == s && b.left[s] == 0;
    }
    forall i, j | 0 <= i < j < |b.ios|
      ensures b.ios[i] != b.ios[j]
    {
      assert b.ios[i] == i && b.ios[j] == j;
    }
    forall s | s in b.ios
      ensures s < n
    {
      var i :| 0 <= i < n && b.ios[i] == s;
    }
    ZeroSum(b.left);
  }

  /** get_fuse_io */
  function TakeSlot(b: Books): Books
    requires b.ios != []
  {
    var m := |b.ios| - 1;
    b.(ios := b.ios[..m], held := b.held + {b.ios[m]})
  }

  lemma TakeKeeps(b: Books)
    requires Ledger(b, b.n) && b.ios != []
    ensures Ledger(TakeSlot(b), b.ios[|b.ios| - 1])
  {
    var m := |b.ios| - 1;
    var t := TakeSlot(b);
    var last := b.ios[m];
    assert last in b.ios;
    assert b.ios == t.ios + [last];
    assert last !in t.ios;
    forall s: nat | s < b.n
      ensures SlotOk(t, last, s)
    {
      assert SlotOk(b, b.n, s);
      assert s in b.ios <==> s in t.ios || s == last;
    }
    assert forall s :: s in t.ios ==> s in b.ios;
    assert forall i :: 0 <= i < m ==> t.ios[i] == b.ios[i];
  }

  /** release_fuse_io */
  function ReleaseSlot(b: Books, s: nat): Books {
    b.(ios := b.ios + [s], held := b.held - {s})
  }

  lemma ReleaseKeeps(b: Books, running: nat)
    requires Ledger(b, running) && running < b.n
    ensures Ledger(ReleaseSlot(b, running), b.n)
  {
    var t := ReleaseSlot(b, running);
    assert SlotOk(b, running, running);
    forall s: nat | s < b.n
      ensures SlotOk(t, b.n, s)
    {
      assert SlotOk(b, running, s);
    }
  }

  /** The running task of slot s queues k operations and waits for them. */
  function QueueOps(b: Books, s: nat, k: nat): Books
    requires s < |b.left|
  {
    b.(queued := b.queued + seq(k, _ => s), left := b.left[s := k])
  }

  lemma {:induction false} CountRepeats(s: nat, k: nat, other: nat)
    ensures multiset(seq(k, _ => s))[other] == if other == s then k else 0
  {
    if k > 0 {
      CountRepeats(s, k - 1, other);
      assert seq(k, _ => s) == seq(k - 1, _ => s) + [s];
    }
  }

  lemma QueueKeeps(b: Books, s: nat, k: nat)
    requires Ledger(b, s) && s < b.n && 1 <= k <= 3
    ensures Ledger(QueueOps(b, s, k), b.n)
  {
    var t := QueueOps(b, s, k);
    assert SlotOk(b, s, s);
    SumUpdate(b.left, s, k);
    forall r: nat | r < b.n
      ensures SlotOk(t, b.n, r)
    {
      assert SlotOk(b, s, r);
      CountRepeats(s, k, r);
      assert multiset(t.queued) == multiset(b.queued) + multiset(seq(k, _ => s));
    }
    forall r | r in t.queued
      ensures r < b.n
    {
      if r !in b.queued {
        assert r in seq(k, _ => s);
      }
    }
  }

  /** A completion of slot s: the countdown goes down; if it reaches zero the task runs. */
  function HandleOne(b: Books, s: nat): Books
    requires s < |b.left| && b.left[s] > 0
  {
    b.(handled := b.handled + [s], left := b.left[s := b.left[s] - 1])
  }

  lemma HandleKeeps(b: Books, s: nat)
    requires Ledger(b, b.n) && multiset(b.handled)[s] < multiset(b.queued)[s]
    ensures s < b.n && b.left[s] > 0
    ensures Ledger(HandleOne(b, s), if b.left[s] == 1 then s else b.n)
  {
    assert s in b.queued;
    assert SlotOk(b, b.n, s);
    var t := HandleOne(b, s);
    var running := if b.left[s] == 1 then s else b.n;
    SumUpdate(b.left, s, b.left[s] - 1);
    forall r: nat | r < b.n
      ensures SlotOk(t, running, r)
    {
      assert SlotOk(b, b.n, r);
      assert multiset(t.handled) == multiset(b.handled) + multiset{s};
    }
  }

  /** Slots are conserved: the free ones and the held ones are n together. */
  lemma SlotsConserved(b: Books, running: nat)
    requires Ledger(b, running)
    ensures |b.ios| + |b.held| == b.n
  {
    var free := Elements(b.ios);
    DistinctCard(b.ios);
    assert free !! b.held by {
      forall s | s in free
        ensures s !in b.held
      {
        assert SlotOk(b, running, s);
      }
    }
    assert free + b.held == Range(b.n) by {
      forall s: nat | s < b.n
        ensures s in free + b.held
      {
        assert SlotOk(b, running, s);
      }
    }
    assert |free + b.held| == |free| + |b.held|;
  }

  /**
    The books at a blocking wait: no slot is free, the task of every slot waits for an operation that
    is queued and not handled, and between n and 3n are outstanding in all.
   */
  ghost predicate NoneLost(b: Books) {
    && b.ios == [] && b.n <= |b.queued| - |b.handled| <= 3 * b.n
    && forall s: nat :: s < b.n ==> s in b.held && multiset(b.handled)[s] < multiset(b.queued)[s]
  }

  /** When no slot is free and no task runs, every task waits for something. */
  lemma OutstandingAtWait(b: Books)
    requires Ledger(b, b.n) && b.ios == []
    ensures NoneLost(b)
  {
    forall s: nat | s < b.n
      ensures s in b.held && 1 <= b.left[s] <= 3 && multiset(b.handled)[s] < multiset(b.queued)[s]
    {
      assert SlotOk(b, b.n, s);
    }
    SumAtMostThree(b.left);
    SumAtLeastOne(b.left);
  }

  /** While a task runs it has nothing outstanding, so three more entries stay within 3n. */
  lemma RoomWhileRunning(b: Books, s: nat)
    requires Ledger(b, s) && s < b.n
    ensures |b.queued| - |b.handled| + 3 <= 3 * b.n
  {
    assert SlotOk(b, s, s);
    forall r: nat | r < b.n
      ensures b.left[r] <= 3
    {
      assert SlotOk(b, s, r);
    }
    SumWithGap(b.left, s);
  }

  /** The completion ring, twice as large as a submission ring of at least 2n entries, holds 3n completions. */
  lemma CompletionRingFits(n: nat, order: nat)
    requires Pow2(order) >= 2 * n
    ensures 3 * n <= Pow2(order + 1)
  {
  }

  /**
    The calls of the requeue loop as get_sqe is granted or refused: a refused task ends at once, its
    slot is free again, and last_rc is set.
   */
  datatype Requeueing = Requeueing(free: nat, lastRc: int)

  function RequeueCalls(r: Requeueing, granted: seq<bool>): Requeueing {
    if granted == [] then r
    else
      var q, last := RequeueCalls(r, granted[..|granted| - 1]), granted[|granted| - 1];
      if q.free == 0 then q else if last then q.(free := q.free - 1) else q.(lastRc := -1)
  }

  function Grants(granted: seq<bool>): nat {
    if granted == [] then 0 else Grants(granted[..|granted| - 1]) + (if granted[|granted| - 1] then 1 else 0)
  }

  /**
    The requeue loop is left if and only if as many calls are granted as slots were free; that last_rc
    is set does not end it, so with every call refused it goes on for ever.
   */
  lemma {:induction false} RequeueIgnoresFailure(r: Requeueing, granted: seq<bool>)
    ensures RequeueCalls(r, granted).free == 0 <==> Grants(granted) >= r.free
    ensures Grants(granted) <= r.free ==> RequeueCalls(r, granted).free == r.free - Grants(granted)
    ensures Grants(granted) == 0 && granted != [] && r.free > 0 ==> RequeueCalls(r, granted) == Requeueing(r.free, -1)
  {
    if granted != [] {
      RequeueIgnoresFailure(r, granted[..|granted| - 1]);
    }
  }

  // -------------------------------------------------------- slots and their pipes

  /** A request begun: its slot's pipe then, and how many requests had been answered. */
  datatype Begun = Begun(slot: nat, pipe: seq<byte>, ended: nat)

  /** A request whose task ended with 0, and the kernel's answer to its payload splice. */
  datatype Ended = Ended(slot: nat, request: seq<byte>, moved: int)

  /** None of the requests answered on slot s was a WRITE that left payload behind. */
  predicate DrainedOn(ended: seq<Ended>, s: nat) {
    forall e :: e in ended && e.slot == s ==> !LeavesPayload(e.request, e.moved)
  }

  lemma DrainedBefore(ended: seq<Ended>, e: Ended, s: nat)
    requires DrainedOn(ended + [e], s)
    ensures DrainedOn(ended, s) && (e.slot == s ==> !LeavesPayload(e.request, e.moved))
  {
    assert forall x :: x in ended ==> x in ended + [e];
    assert e in ended + [e];
  }

  /** A task may end in any way: there is a result that keeps the promise of QueueFuseRead. */
  lemma SomeResult(s: Slot, rc: int, server: Server, len: nat, zero: nat)
    requires |s.scratch| == SCRATCH_BUF_SIZE && len == 40 && zero == 0
    ensures exists t: Slot, c: Course :: |t.scratch| == SCRATCH_BUF_SIZE && TaskResult(s, t, rc, server, c)
  {
    var req := RequestOf(len, zero, zero, zero, []);
    FirstFields(len, zero, zero, zero, []);
    var t := s.(request := req, replies := s.replies + [OutHeader(16, -ENOSYS, Unique(req))]);
    assert |t.scratch| == SCRATCH_BUF_SIZE && TaskResult(s, t, rc, server, Course(40, -1, rc == 0));
  }

  /** Whatever is posted was queued: the next completion belongs to a task that still waits for it. */
  lemma NextWasQueued(queued: seq<nat>, head: nat, inflight: multiset<nat>, posted: seq<nat>, h: nat)
    requires head <= |queued| && multiset(queued[..head]) == inflight + multiset(posted) && h < |posted|
    ensures multiset(posted[..h])[posted[h]] < multiset(queued)[posted[h]]
  {
    assert queued == queued[..head] + queued[head..];
    assert posted == posted[..h] + [posted[h]] + posted[h + 1..];
  }

  lemma HeadCovers(queued: seq<nat>, head: nat, inflight: multiset<nat>, posted: seq<nat>)
    requires head <= |queued| && multiset(queued[..head]) == inflight + multiset(posted)
    ensures |posted| <= head
  {
    assert |multiset(queued[..head])| == head;
  }

  // -------------------------------------------------------------------- the loop

  /**
    Why a run is not followed any further: it has made as many kernel calls as it is followed for; it
    asks for an entry of a full ring for ever; or an entry is queued that was never filled in.
   */
  datatype Why = OutOfCalls | Spinning | Stray

  /** run() goes on, returns a code, or the run is not followed any further. */
  datatype Exit = GoOn | Rc(code: int) | NotFollowed(why: Why)

  /** What was in the books and in the completion ring when the loop waited. */
  datatype Wait = Wait(books: Books, posted: seq<nat>)

  class FuseIoContext {
    const n: nat
    const ring: Ring<nat>
    const cq: CompletionRing
    const server: Server
    var ios: seq<nat>
    var left: seq<nat>            // tocomplete of what the task of each slot waits for
    var lastRc: int
    ghost var held: set<nat>      // slots owned by the FuseIoVal of a live task
    ghost var slots: seq<Slot>    // every slot as the last task that ended there left it
    ghost var handled: seq<nat>   // completions handled, in order
    ghost var begun: seq<Begun>   // requests begun, in order
    ghost var ended: seq<Ended>   // requests answered, in order
    ghost var waits: seq<Wait>    // every blocking wait

    ghost function Now(): Books
      reads this, ring
    {
      Books(n, ios, held, left, ring.history, handled)
    }

    ghost predicate Rings()
      reads this, ring, ring.sqes, cq, cq.cqes
    {
      && ring.Valid() && cq.Valid() && ring.sqes != cq.cqes
      && 3 * n <= cq.entries
      && ring.completed == multiset(cq.posted)
      && cq.head <= |handled| && handled <= cq.posted
    }

    /** Where a task may begin or runs, the pipe is empty unless a request answered there left payload behind. */
    ghost predicate Pipes()
      reads this
    {
      && |slots| == n && (forall s :: 0 <= s < n ==> |slots[s].scratch| == SCRATCH_BUF_SIZE)
      && (forall s :: 0 <= s < n && (s in held || lastRc == 0) && DrainedOn(ended, s) ==> slots[s].pipe == [])
    }

    /** No slot has anything in its pipe, unless a request answered there left payload behind. */
    ghost predicate AllClean()
      reads this
    {
      |slots| == n && forall s :: 0 <= s < n && DrainedOn(ended, s) ==> slots[s].pipe == []
    }

    /**
      A request was begun on an empty pipe, unless one answered before on the same slot was a WRITE
      with data that was for another node, of a wrong length or not taken whole.
     */
    ghost predicate BegunClean(b: Begun)
      reads this
    {
      b.ended <= |ended| && (DrainedOn(ended[..b.ended], b.slot) ==> b.pipe == [])
    }

    /** At a blocking wait no slot is free, nothing is lost, and all that was posted was handled, once and in order. */
    ghost predicate WaitOk(w: Wait) {
      w.books.n == n && NoneLost(w.books) && w.books.handled == w.posted
    }

    /** The run ended where the kernel ended it. */
    ghost predicate Justified(exit: Exit)
      reads ring
    {
      match exit
      case GoOn => true
      case Rc(code) => code == 18 ==> ring.answers != [] && !ring.answers[|ring.answers| - 1].Accepted?
      case NotFollowed(why) =>
        match why
        case OutOfCalls => ring.budget == 0
        case Spinning => Spins(ring.answers)
        case Stray => RefusedSince(ring.answers, 0, 2)
    }

    /** What the history of a run shows, also at a point where the run is not followed any further. */
    ghost predicate Logs()
      reads this, ring, cq
    {
      && (forall i :: 0 <= i < |waits| ==> WaitOk(waits[i]))
      && (forall b :: b in begun ==> BegunClean(b))
      && (3 * n <= ring.entries ==> ring.submits == 0)
      && handled <= cq.posted
    }

    ghost predicate Valid(running: nat)
      reads this, ring, ring.sqes, cq, cq.cqes
    {
      Rings() && Pipes() && Logs() && Ledger(Now(), running)
    }

    constructor (n: nat, order: nat, reliable: bool, server: Server, budget: nat)
      requires order <= 30 && 2 * n <= Pow2(order)
      ensures Valid(n) && fresh(ring) && fresh(ring.sqes) && fresh(cq) && fresh(cq.cqes)
      ensures this.n == n && this.server == server && lastRc == 0
      ensures begun == [] && ended == [] && waits == [] && handled == [] && cq.posted == []
    {
      this.n, this.server := n, server;
      ring := new Ring<nat>(order, reliable, budget, 0);
      cq := new CompletionRing(order + 1);
      ios, left, lastRc := seq(n, i => i), seq(n, _ => 0), 0;
      slots := seq(n, _ => Slot([], Zeros(HEADER_BUF_SIZE), Zeros(SCRATCH_BUF_SIZE), [], [], [], []));
      held, handled, begun, ended, waits := {}, [], [], [], [];
      new;
      CompletionRingFits(n, order);
      LedgerStart(n);
      assert Now() == AllFree(n);
    }

    /** The kernel ends one operation it has taken and posts the completion. */
    method KernelEnds(v: nat)
      requires Rings() && v in ring.inflight && |cq.posted| < cq.head + cq.entries
      modifies ring`inflight, ring`completed, cq`ktail, cq`posted, cq.cqes
      ensures Rings() && cq.posted == old(cq.posted) + [v] && |ring.inflight| < old(|ring.inflight|)
    {
      ring.KernelCompletes(v);
      cq.Post(v);
      assert multiset(cq.posted) == old(multiset(cq.posted)) + multiset{v};
    }

    /** The kernel ends any of the operations it has taken, in any order, while there is room to post them. */
    method KernelRuns()
      requires Rings()
      modifies ring`inflight, ring`completed, cq`ktail, cq`posted, cq.cqes
      ensures Rings() && old(cq.posted) <= cq.posted
    {
      while true
        invariant Rings() && old(cq.posted) <= cq.posted
        decreases |ring.inflight|
      {
        var stop: bool := *;
        var room := cq.HasRoom();
        if stop || !room || |ring.inflight| == 0 {
          return;
        }
        var v :| v in ring.inflight;
        KernelEnds(v);
      }
    }

    method GetFuseIo() returns (s: nat)
      requires Valid(n) && ios != [] && AllClean()
      modifies this
      ensures s < n && Valid(s) && AllClean() && Now() == TakeSlot(old(Now())) && s == old(ios[|ios| - 1])
      ensures lastRc == old(lastRc) && waits == old(waits) && ended == old(ended) && slots == old(slots)
      ensures begun == old(begun) + [Begun(s, slots[s].pipe, |ended|)]
    {
      TakeKeeps(Now());
      s := ios[|ios| - 1];
      assert s in ios;
      ios := ios[..|ios| - 1];
      held := held + {s};
      assert ended[..|ended|] == ended;
      begun := begun + [Begun(s, slots[s].pipe, |ended|)];
    }

    /** Where pipes are empty while the task of slot s runs, and when it has just ended. */
    ghost predicate PipesBefore(s: nat)
      requires s < n
      reads this
    {
      && |slots| == n && (forall r :: 0 <= r < n ==> |slots[r].scratch| == SCRATCH_BUF_SIZE)
      && (forall r :: 0 <= r < n && (r == s || r in held || lastRc == 0) && DrainedOn(ended, r) ==> slots[r].pipe == [])
    }

    method ReleaseFuseIo(s: nat)
      requires Valid(s) && s < n
      modifies this`ios, this`held
      ensures Rings() && Logs() && PipesBefore(s) && s !in held
      ensures Ledger(Now(), n) && Now() == ReleaseSlot(old(Now()), s)
    {
      ReleaseKeeps(Now(), s);
      ios := ios + [s];
      held := held - {s};
    }

    /** In a ring of 3n entries a running task finds room for its longest chain. */
    lemma RoomForChain(s: nat)
      requires Rings() && Ledger(Now(), s) && s < n
      ensures |ring.Pending()| + 3 <= 3 * n
    {
      RoomWhileRunning(Now(), s);
      HeadCovers(ring.history, ring.head, ring.inflight, cq.posted);
    }

    /** The task of slot s queues a chain of k operations and waits for them; a refusal changes nothing. */
    method QueueAndWait(s: nat, k: nat) returns (got: Got)
      requires Valid(s) && s < n && 1 <= k <= 3
      modifies this`left, ring, ring.sqes
      ensures Logs() && (ring.reliable || 3 * n <= ring.entries ==> !got.NullSqe?)
      ensures 3 * n <= ring.entries ==> got.Sqe?
      ensures got.Sqe? ==> Valid(n) && Now() == QueueOps(old(Now()), s, k)
      ensures got.NullSqe? ==> Valid(s) && Now() == old(Now()) && ring.budget < old(ring.budget)
      ensures ring.budget <= old(ring.budget) && (ring.budget == old(ring.budget) ==> ring.head == old(ring.head))
      ensures got.Cut? ==> ring.budget == 0 || (k == 1 && Spins(ring.answers))
      ensures got.NullSqe? ==> RefusedSince(ring.answers, old(|ring.answers|), k) && old(ring.answers) <= ring.answers
    {
      var ops := seq(k, _ => s);
      RoomForChain(s);
      QueueKeeps(Now(), s, k);
      got := ring.QueueChain(ops);
      if got.Sqe? {
        left := left[s := k];
      } else {
        assert ring.history == old(ring.history);
      }
    }

    /**
      queue_read_set_rc up to its first wait: a free slot is taken and the read of its next request is
      queued. If the reservation is refused, the plain get_sqe that follows may still hand out an
      entry, which is then queued with whatever it held: the run is not followed from there. If it is
      refused too, the task ends with -1 and the slot is free again.
     */
    method QueueReadSetRc() returns (exit: Exit, granted: bool)
      requires Valid(n) && ios != [] && AllClean()
      modifies this, ring, ring.sqes
      ensures Logs() && (exit == GoOn || exit.NotFollowed?) && Justified(exit)
      ensures 3 * n <= ring.entries ==> exit == GoOn && granted
      ensures ring.reliable && exit == GoOn ==> granted
      ensures exit == GoOn ==> Valid(n) && AllClean() && waits == old(waits) && handled == old(handled)
      ensures exit == GoOn && granted ==>
        Now() == QueueOps(TakeSlot(old(Now())), old(ios[|ios| - 1]), 2) && lastRc == old(lastRc)
      ensures exit == GoOn && !granted ==>
        Now() == ReleaseSlot(TakeSlot(old(Now())), old(ios[|ios| - 1])) && lastRc == -1
      ensures ring.budget <= old(ring.budget)
      ensures exit == GoOn && !granted ==> ring.budget < old(ring.budget)
    {
      var s := GetFuseIo();
      exit, granted := StartRead(s);
    }

    /** queue_fuse_read up to its first wait. */
    method StartRead(s: nat) returns (exit: Exit, granted: bool)
      requires Valid(s) && s < n && AllClean()
      modifies this`ios, this`held, this`lastRc, this`left, ring, ring.sqes
      ensures Logs() && (exit == GoOn || exit.NotFollowed?) && Justified(exit)
      ensures 3 * n <= ring.entries ==> exit == GoOn && granted
      ensures ring.reliable && exit == GoOn ==> granted
      ensures exit == GoOn ==> Valid(n) && AllClean()
      ensures exit == GoOn && granted ==> Now() == QueueOps(old(Now()), s, 2) && lastRc == old(lastRc)
      ensures exit == GoOn && !granted ==> Now() == ReleaseSlot(old(Now()), s) && lastRc == -1
      ensures ring.budget <= old(ring.budget)
      ensures exit == GoOn && !granted ==> ring.budget < old(ring.budget)
    {
      var got := QueueAndWait(s, 2);
      if got.Sqe? {
        return GoOn, true;
      }
      if got.Cut? {
        return NotFollowed(OutOfCalls), false;
      }
      granted := false;
      RefusedStays(ring.answers, ring.answers, old(|ring.answers|), 2);
      exit := AskOnceMore(s);
    }

    /** The second get_sqe of a task whose reservation was refused. */
    method AskOnceMore(s: nat) returns (exit: Exit)
      requires Valid(s) && s < n && AllClean() && 3 * n > ring.entries && RefusedSince(ring.answers, 0, 2)
      modifies this`ios, this`held, this`lastRc, ring
      ensures Logs() && (exit == GoOn || exit.NotFollowed?) && Justified(exit)
      ensures exit == GoOn ==> Valid(n) && AllClean() && Now() == ReleaseSlot(old(Now()), s) && lastRc == -1
      ensures ring.budget <= old(ring.budget)
    {
      var second := ring.GetSqe(1);
      RefusedStays(old(ring.answers), ring.answers, 0, 2);
      if second.Sqe? {
        return NotFollowed(Stray);
      }
      if second.Cut? {
        return NotFollowed(if ring.budget == 0 then OutOfCalls else Spinning);
      }
      assert ring.history == old(ring.history);
      EndUnstarted(s);
      exit := GoOn;
    }

    /** The task of slot s ends with -1 before it did anything. */
    method EndUnstarted(s: nat)
      requires Valid(s) && s < n && AllClean()
      modifies this`ios, this`held, this`lastRc
      ensures Valid(n) && AllClean() && Now() == ReleaseSlot(old(Now()), s) && lastRc == -1
    {
      ReleaseFuseIo(s);
      lastRc := -1;
    }

    /** A task that ended with 0 kept the promise; one that failed sets last_rc. */
    ghost method RecordResult(s: nat, rc: int, t: Slot, c: Course)
      requires s < n && s !in held && PipesBefore(s) && |t.scratch| == SCRATCH_BUF_SIZE
      requires TaskResult(slots[s], t, rc, server, c)
      modifies this`slots, this`ended
      ensures slots == old(slots)[s := t] && forall r :: 0 <= r < n ==> |slots[r].scratch| == SCRATCH_BUF_SIZE
      ensures forall r :: 0 <= r < n && (r in held || (rc == 0 && lastRc == 0)) && DrainedOn(ended, r) ==>
        slots[r].pipe == []
      ensures ended == old(ended) + (if rc == 0 then [Ended(s, t.request, c.moved)] else [])
    {
      slots := slots[s := t];
      if rc == 0 {
        ended := ended + [Ended(s, t.request, c.moved)];
      }
      forall r | 0 <= r < n && (r in held || (rc == 0 && lastRc == 0)) && DrainedOn(ended, r)
        ensures slots[r].pipe == []
      {
        if rc == 0 {
          DrainedBefore(old(ended), Ended(s, t.request, c.moved), r);
        }
        assert DrainedOn(old(ended), r) && old(slots[r].pipe) == [];
      }
    }

    lemma LogsAfterEnd(before: seq<Ended>)
      requires before <= ended
      requires forall b :: b in begun ==> b.ended <= |before| && (DrainedOn(before[..b.ended], b.slot) ==> b.pipe == [])
      ensures forall b :: b in begun ==> BegunClean(b)
    {
      forall b | b in begun
        ensures BegunClean(b)
      {
        assert ended[..b.ended] == before[..b.ended];
      }
    }

    /**
      The task of slot s ends, with any code if it was not refused an entry, having done to its slot
      anything that QueueFuseRead allows: the request is answered if the code is 0, else last_rc is set.
     */
    method EndTask(s: nat, refused: bool)
      requires Valid(s) && s < n
      modifies this
      ensures Valid(n) && Now() == ReleaseSlot(old(Now()), s) && waits == old(waits) && begun == old(begun)
      ensures lastRc == old(lastRc) || lastRc != 0
      ensures lastRc == 0 ==> |ended| == |old(ended)| + 1
      ensures refused ==> lastRc == -1 && |ended| == |old(ended)|
    {
      var rc: int := *;
      if refused {
        rc := -1;
      }
      ghost var t, c := AnyResult(slots[s], rc);
      ReleaseFuseIo(s);
      RecordEnd(s, rc, t, c);
    }

    /** Any slot that a task from v may leave when it ends with rc. */
    ghost method AnyResult(v: Slot, rc: int) returns (t: Slot, c: Course)
      requires |v.scratch| == SCRATCH_BUF_SIZE
      ensures |t.scratch| == SCRATCH_BUF_SIZE && TaskResult(v, t, rc, server, c)
    {
      SomeResult(v, rc, server, 40, 0);
      t, c :| |t.scratch| == SCRATCH_BUF_SIZE && TaskResult(v, t, rc, server, c);
    }

    /** queue_read_set_rc behind its co_await. */
    method RecordEnd(s: nat, rc: int, ghost t: Slot, ghost c: Course)
      requires Rings() && Logs() && Ledger(Now(), n) && s < n && s !in held && PipesBefore(s)
      requires |t.scratch| == SCRATCH_BUF_SIZE && TaskResult(slots[s], t, rc, server, c)
      modifies this`slots, this`ended, this`lastRc
      ensures Valid(n) && Now() == old(Now()) && begun == old(begun) && waits == old(waits)
      ensures lastRc == if rc != 0 then rc else old(lastRc)
      ensures |ended| == |old(ended)| + (if rc == 0 then 1 else 0)
    {
      RecordResult(s, rc, t, c);
      LogsAfterEnd(old(ended));
      if rc != 0 {
        lastRc := rc;
      }
    }

    /** The task of slot s goes on: it waits for more operations, or it ends. */
    method Resume(s: nat) returns (exit: Exit)
      requires Valid(s) && s < n
      modifies this, ring, ring.sqes
      ensures Logs() && (exit == GoOn || exit.NotFollowed?) && Justified(exit)
      ensures 3 * n <= ring.entries ==> exit == GoOn
      ensures exit == GoOn ==> Valid(n) && handled == old(handled) && waits == old(waits) && begun == old(begun)
      ensures old(lastRc) != 0 ==> lastRc != 0
      ensures ring.budget <= old(ring.budget) && (ring.budget == old(ring.budget) ==> ring.head == old(ring.head))
    {
      var k: nat := *;
      exit := GoOn;
      if 1 <= k <= 3 {
        var got := QueueAndWait(s, k);
        if got.Cut? {
          exit := NotFollowed(if ring.budget == 0 then OutOfCalls else Spinning);
        } else if got.NullSqe? {
          EndTask(s, true);
        }
      } else {
        EndTask(s, false);
      }
    }

    /** The next completion to be handled is one a task still waits for. */
    lemma NextIsAwaited()
      requires Valid(n) && |handled| < |cq.posted|
      ensures var s := cq.posted[|handled|];
              && s < n && left[s] > 0 && Ledger(HandleOne(Now(), s), if left[s] == 1 then s else n)
              && handled + [s] <= cq.posted
    {
      assert handled == cq.posted[..|handled|];
      NextWasQueued(ring.history, ring.head, ring.inflight, cq.posted, |handled|);
      HandleKeeps(Now(), cq.posted[|handled|]);
    }

    /** The result is stored and the countdown of its task goes down. */
    method CountDown(s: nat)
      requires Valid(n) && |handled| < |cq.posted| && s == cq.posted[|handled|]
      modifies this
      ensures s < n == |left| && Valid(if left[s] == 0 then s else n)
      ensures old(s < |left| && left[s] > 0) && Now() == HandleOne(old(Now()), s)
      ensures lastRc == old(lastRc) && begun == old(begun) && waits == old(waits)
      ensures slots == old(slots) && ended == old(ended)
    {
      NextIsAwaited();
      handled := handled + [s];
      left := left[s := left[s] - 1];
    }

    /** fuseuring_handle_cqe for a completion of slot s. */
    method HandleCqe(s: nat) returns (exit: Exit)
      requires Valid(n) && |handled| < |cq.posted| && s == cq.posted[|handled|]
      modifies this, ring, ring.sqes
      ensures Logs() && (exit == GoOn || exit.NotFollowed?) && Justified(exit)
      ensures 3 * n <= ring.entries ==> exit == GoOn
      ensures exit == GoOn ==> Valid(n) && handled == old(handled) + [s] && waits == old(waits) && begun == old(begun)
      ensures old(lastRc) != 0 ==> lastRc != 0
      ensures ring.budget <= old(ring.budget) && (ring.budget == old(ring.budget) ==> ring.head == old(ring.head))
    {
      CountDown(s);
      if left[s] == 0 {
        exit := Resume(s);
      } else {
        exit := GoOn;
      }
    }

    /** io_uring_submit, or io_uring_submit_and_wait when the caller blocks. */
    method Submit() returns (a: Answer)
      requires Rings() && ring.budget > 0
      modifies ring`khead, ring`head, ring`budget, ring`inflight, ring`answers, ring`completed, cq`ktail, cq`posted, cq.cqes
      ensures Rings() && ring.budget == old(ring.budget) - 1 && old(cq.posted) <= cq.posted
      ensures ring.answers == old(ring.answers) + [a]
      ensures ring.reliable ==> a.Accepted?
    {
      a := ring.IoUringSubmit();
      KernelRuns();
    }

    /** fuseuring_submit */
    method FuseuringSubmit(block: bool) returns (exit: Exit)
      requires Rings()
      modifies ring`khead, ring`head, ring`budget, ring`inflight, ring`answers, ring`completed, ring`ringSubmit
      modifies cq`ktail, cq`posted, cq.cqes
      ensures Rings() && old(cq.posted) <= cq.posted && ring.budget <= old(ring.budget)
      ensures (exit == GoOn || exit == NotFollowed(OutOfCalls) || exit == Rc(18)) && Justified(exit)
      ensures exit == GoOn && block ==> ring.budget < old(ring.budget)
      ensures exit == GoOn ==> !ring.ringSubmit
      // It returns 18 exactly if the kernel refused: EBUSY is waited out if something was queued.
      ensures old(ring.answers) <= ring.answers
      ensures exit == Rc(18) <==> RefusedSince(ring.answers, old(|ring.answers|), if old(ring.ringSubmit) then 2 else 1)
      ensures exit == GoOn && (block || old(ring.ringSubmit)) ==>
        |ring.answers| > old(|ring.answers|) && ring.answers[|ring.answers| - 1].Accepted?
      ensures ring.reliable ==> exit != Rc(18)
    {
      if ring.ringSubmit {
        while true
          invariant Rings() && old(cq.posted) <= cq.posted && ring.budget <= old(ring.budget)
          invariant old(ring.answers) <= ring.answers && !RefusedSince(ring.answers, old(|ring.answers|), 2)
          decreases ring.budget
        {
          if ring.budget == 0 {
            return NotFollowed(OutOfCalls);
          }
          ghost var before := ring.answers;
          var a := Submit();
          OneMoreAnswer(before, a, old(|ring.answers|), 2);
          if a.Rejected? {
            return Rc(18);
          }
          if a.Accepted? {
            break;
          }
        }
        ring.ringSubmit := false;
      } else if block {
        if ring.budget == 0 {
          return NotFollowed(OutOfCalls);
        }
        var a := Submit();
        OneMoreAnswer(old(ring.answers), a, old(|ring.answers|), 1);
        if !a.Accepted? {
          return Rc(18);
        }
      }
      exit := GoOn;
    }

    /** The 32-bit cursor is past the completions handled, and count says how many this batch handled. */
    ghost predicate At(cursor: nat, count: nat)
      reads this, cq
    {
      cq.head <= |handled| && cursor == Wrap32(|handled|) && count == Wrap32(|handled| - cq.head)
    }

    /** The kernel may have posted more by the time the tail is read. */
    method NextCqe(cursor: nat) returns (next: Next)
      requires Valid(n) && cursor == Wrap32(|handled|)
      modifies ring`inflight, ring`completed, cq`ktail, cq`posted, cq.cqes
      ensures Valid(n) && |cq.posted| <= ring.head
      ensures next.Entry? ==> |handled| < |cq.posted| && next.slot == cq.posted[|handled|]
      ensures next.NoCqe? ==> handled == cq.posted
    {
      KernelRuns();
      HeadCovers(ring.history, ring.head, ring.inflight, cq.posted);
      next := cq.Peek(cursor, |handled|);
    }

    /** Both 32-bit counters of the batch go on by one, and may wrap. */
    method StepCursor(cursor: nat, count: nat) returns (cursor': nat, count': nat)
      requires cq.head < |handled| && cursor == Wrap32(|handled| - 1) && count == Wrap32(|handled| - 1 - cq.head)
      ensures At(cursor', count')
    {
      CursorStep(|handled| - 1, cq.head);
      cursor', count' := Wrap32(cursor + 1), Wrap32(count + 1);
    }

    /** The entry visited is handled, and the counters go on. */
    method HandleNext(s: nat, cursor: nat, count: nat) returns (exit: Exit, cursor': nat, count': nat)
      requires Valid(n) && |handled| < |cq.posted| && s == cq.posted[|handled|] && At(cursor, count)
      modifies this, ring, ring.sqes
      ensures Logs() && (exit == GoOn || exit.NotFollowed?) && Justified(exit)
      ensures 3 * n <= ring.entries ==> exit == GoOn
      ensures exit == GoOn ==> Valid(n) && waits == old(waits) && begun == old(begun)
      ensures exit == GoOn ==> |handled| == old(|handled|) + 1 && At(cursor', count')
      ensures ring.budget <= old(ring.budget) && (ring.budget == old(ring.budget) ==> ring.head == old(ring.head))
    {
      exit := HandleCqe(s);
      cursor', count' := cursor, count;
      if exit == GoOn {
        cursor', count' := StepCursor(cursor, count);
      }
    }

    /** One turn of io_uring_for_each_cqe. */
    method ReapOne(cursor: nat, count: nat) returns (more: bool, exit: Exit, cursor': nat, count': nat)
      requires Valid(n) && At(cursor, count)
      modifies this, ring, ring.sqes, cq`ktail, cq`posted, cq.cqes
      ensures Logs() && (exit == GoOn || exit.NotFollowed?) && Justified(exit)
      ensures 3 * n <= ring.entries ==> exit == GoOn
      ensures exit == GoOn ==> Valid(n) && waits == old(waits) && begun == old(begun)
      ensures exit == GoOn ==> |handled| == old(|handled|) + (if more then 1 else 0)
      ensures exit == GoOn ==> At(cursor', count') && (!more ==> handled == cq.posted)
      ensures ring.budget <= old(ring.budget)
      ensures exit == GoOn && more && ring.budget == old(ring.budget) ==>
        old(|handled|) < ring.head == old(ring.head)
    {
      var next := NextCqe(cursor);
      more, exit, cursor', count' := next.Entry?, GoOn, cursor, count;
      if more {
        exit, cursor', count' := HandleNext(next.slot, cursor, count);
      }
    }

    /** io_uring_cq_advance over the entries visited. */
    method AdvancePast(count: nat)
      requires Valid(n) && count == Wrap32(|handled| - cq.head)
      modifies cq`khead, cq`head
      ensures Valid(n) && cq.head == |handled|
    {
      cq.Advance(count, |handled| - cq.head);
    }

    /**
      One batch: io_uring_for_each_cqe and io_uring_cq_advance. Every completion posted by the end of
      the batch is handled once, in order, and the head is advanced past exactly those.
     */
    method ReapBatch() returns (exit: Exit)
      requires Valid(n) && |handled| == cq.head
      modifies this, ring, ring.sqes, cq, cq.cqes
      ensures Logs() && (exit == GoOn || exit.NotFollowed?) && Justified(exit)
      ensures 3 * n <= ring.entries ==> exit == GoOn
      ensures exit == GoOn ==> Valid(n) && handled == cq.posted && cq.head == |handled|
      ensures exit == GoOn ==> waits == old(waits) && begun == old(begun)
      ensures ring.budget <= old(ring.budget)
    {
      var head, count, more := cq.khead, 0, true;
      exit := GoOn;
      while more
        invariant exit == GoOn && Valid(n)
        invariant At(head, count)
        invariant waits == old(waits) && begun == old(begun) && ring.budget <= old(ring.budget)
        invariant !more ==> handled == cq.posted
        decreases more, ring.budget, ring.head - |handled|
      {
        more, exit, head, count := ReapOne(head, count);
        if exit != GoOn {
          return;
        }
      }
      AdvancePast(count);
    }

    /**
      Queue a request for every free slot. A granted call takes exactly one, a refused one sets last_rc
      and takes none; the loop is left if and only if as many calls were granted as slots were free,
      however many were refused before.
     */
    method Requeue() returns (exit: Exit, ghost calls: seq<bool>)
      requires Valid(n) && lastRc == 0
      modifies this, ring, ring.sqes
      ensures Logs() && (exit == GoOn || exit.NotFollowed?) && Justified(exit)
      ensures 3 * n <= ring.entries ==> exit == GoOn
      ensures 3 * n <= ring.entries || ring.reliable ==> false !in calls
      ensures exit == GoOn ==> Valid(n) && ios == [] && handled == old(handled) && waits == old(waits)
      ensures exit == GoOn ==> lastRc == (if false in calls then -1 else 0)
      ensures exit == GoOn <==> Grants(calls) == old(|ios|)
      ensures exit == GoOn ==> RequeueCalls(Requeueing(old(|ios|), 0), calls) == Requeueing(0, lastRc)
      ensures ring.budget <= old(ring.budget)
    {
      exit, calls := GoOn, [];
      ghost var start := Requeueing(|ios|, 0);
      assert AllClean() by { EverySlot(); }
      while ios != []
        invariant exit == GoOn && Valid(n) && AllClean() && RequeueCalls(start, calls) == Requeueing(|ios|, lastRc)
        invariant lastRc == (if false in calls then -1 else 0) && Grants(calls) + |ios| == start.free
        invariant 3 * n <= ring.entries || ring.reliable ==> false !in calls
        invariant waits == old(waits) && handled == old(handled) && ring.budget <= old(ring.budget)
        decreases ring.budget, |ios|
      {
        var granted;
        exit, granted := QueueReadSetRc();
        if exit != GoOn {
          return;
        }
        CallsGrow(start, calls, granted);
        calls := calls + [granted];
      }
    }

    /** With last_rc still 0 every slot is free or held, so every pipe is empty. */
    lemma EverySlot()
      requires Valid(n) && lastRc == 0
      ensures AllClean()
    {
    }

    /** One turn of the loop: queue a request for every free slot, submit and wait, reap. */
    method Turn() returns (exit: Exit)
      requires Valid(n) && handled == cq.posted && |handled| == cq.head && lastRc == 0
      modifies this, ring, ring.sqes, cq, cq.cqes
      ensures Logs() && (exit == GoOn || exit.NotFollowed? || exit == Rc(18)) && Justified(exit)
      ensures exit == GoOn ==> Valid(n) && handled == cq.posted && |handled| == cq.head && ring.budget < old(ring.budget)
      ensures exit == GoOn ==> |waits| == old(|waits|) + 1
      ensures 3 * n <= ring.entries && exit.NotFollowed? ==> exit == NotFollowed(OutOfCalls)
      ensures ring.reliable ==> exit != Rc(18)
    {
      ghost var calls;
      exit, calls := Requeue();
      if exit != GoOn {
        return;
      }
      exit := BlockingSubmit();
      if exit != GoOn {
        return;
      }
      exit := ReapBatch();
    }

    /** fuseuring_submit(true), with no slot free. */
    method BlockingSubmit() returns (exit: Exit)
      requires Valid(n) && ios == [] && handled == cq.posted
      modifies this`waits
      modifies ring`khead, ring`head, ring`budget, ring`inflight, ring`answers, ring`completed, ring`ringSubmit
      modifies cq`ktail, cq`posted, cq.cqes
      ensures Logs() && (exit == GoOn || exit.NotFollowed? || exit == Rc(18)) && Justified(exit)
      ensures exit == GoOn ==> Valid(n) && ring.budget < old(ring.budget) && |waits| == |old(waits)| + 1
      ensures ring.reliable ==> exit != Rc(18)
      ensures exit.NotFollowed? ==> exit == NotFollowed(OutOfCalls)
    {
      OutstandingAtWait(Now());
      waits := waits + [Wait(Now(), cq.posted)];
      exit := FuseuringSubmit(true);
    }

    /**
      fuse_io_context::run. It only ends because a submit is refused, a task fails, or it is not
      followed any further. At every blocking wait no slot is free, every task waits for an operation
      and between n and 3n are outstanding, which the completion ring holds; and all that was posted
      has been handled, once and in order. Every request is begun on
      an empty pipe, unless one answered before on the same slot was a WRITE with data that was for
      another node, of a wrong length or not taken whole. If the submission ring holds 3n entries
      get_sqe never submits.
     */
    method Run() returns (exit: Exit)
      requires Valid(n) && lastRc == 0 && handled == cq.posted && |handled| == cq.head
      modifies this, ring, ring.sqes, cq, cq.cqes
      ensures exit.NotFollowed? || exit == Rc(18) || (exit == Rc(19) && lastRc != 0 && handled == cq.posted)
      ensures Justified(exit) && (3 * n <= ring.entries && exit.NotFollowed? ==> ring.budget == 0)
      ensures ring.reliable ==> exit != Rc(18)
      ensures 3 * n <= cq.entries && forall i :: 0 <= i < |waits| ==> WaitOk(waits[i])
      ensures forall b :: b in begun ==> b.ended <= |ended| && (DrainedOn(ended[..b.ended], b.slot) ==> b.pipe == [])
      ensures 3 * n <= ring.entries ==> ring.submits == 0
      ensures handled <= cq.posted
    {
      ring.ringSubmit := false;
      while true
        invariant Valid(n) && handled == cq.posted && |handled| == cq.head && lastRc == 0
        decreases ring.budget
      {
        exit := Turn();
        if exit != GoOn {
          return;
        }
        if lastRc != 0 {
          return Rc(19);
        }
      }
    }
  }

  lemma CallsGrow(r: Requeueing, calls: seq<bool>, granted: bool)
    requires RequeueCalls(r, calls).free > 0
    ensures var q := RequeueCalls(r, calls);
      RequeueCalls(r, calls + [granted]) == if granted then q.(free := q.free - 1) else q.(lastRc := -1)
    ensures Grants(calls + [granted]) == Grants(calls) + (if granted then 1 else 0)
  {
    assert (calls + [granted])[..|calls|] == calls;
  }
}
