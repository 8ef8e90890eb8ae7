/**
  That requests are served: from every state of the machine of all slots, with whatever the others are
  in the midst of, an idle slot can take any READ that fits the file and any WRITE and answer it, if
  the kernel moves the full length of its operations.
 */
module Serving {
  import opened Bytes
  import opened FuseKernel
  import opened KernelOps
  import opened SlotLayout
  import opened FileRequests
  import opened Interleaving

  /** Completion values are 32-bit, and a READ finds what it asks for in the file. */
  ghost predicate Servable(sys: System, file: seq<byte>, req: seq<byte>) {
    && FileRequest(req) && |req| < 0x8000_0000
    && (IsRead(req) ==>
          var m := Wanted(req, sys.fsize);
          16 + m < 0x8000_0000 && (m > 0 ==> OffsetOf(req) + m <= |file|))
  }

  /** Slot i is alone on the way from s0 to s, serving req: nothing of any other slot has changed. */
  ghost predicate Alone(sys: System, s0: State, s: State, i: nat, req: seq<byte>, pc: Pc) {
    && Inv(sys, s) && |s0.pcs| == sys.n && i < sys.n && Sized(s0.w, sys.n)
    && s.pcs == s0.pcs[i := pc] && s.answers == s0.answers && s.w.requests[i] == req
    && forall j :: 0 <= j < sys.n && j != i ==> View(s.w, sys.n, j) == View(s0.w, sys.n, j)
  }

  /** ... and it has not reached the backing file. */
  ghost predicate Before(sys: System, s0: State, s: State, i: nat, req: seq<byte>, pc: Pc) {
    Alone(sys, s0, s, i, req, pc) && s.w.log == s0.w.log && s.w.file == s0.w.file
  }

  /** ... or has one entry in its history, made on the contents it found. */
  ghost predicate Behind(sys: System, s0: State, s: State, i: nat, req: seq<byte>, pc: Pc) {
    && Alone(sys, s0, s, i, req, pc)
    && |s.w.log| == |s0.w.log| + 1 && s.w.log[..|s0.w.log|] == s0.w.log
    && s.w.log[|s0.w.log|].commit.before == s0.w.file && s.w.log[|s0.w.log|].commit.after == s.w.file
  }

  /** What has come of it: one more answer, that of the atomic operation on the contents found; all else as it was. */
  ghost predicate ServedTo(sys: System, s: State, t: State, i: nat, req: seq<byte>) {
    && |s.pcs| == sys.n && i < sys.n && Sized(s.w, sys.n) && Sized(t.w, sys.n)
    && t.pcs == s.pcs && |t.w.log| == |s.w.log| + 1 && t.w.log[..|s.w.log|] == s.w.log
    && (forall j :: 0 <= j < sys.n && j != i ==> View(t.w, sys.n, j) == View(s.w, sys.n, j))
    && |t.answers| == |s.answers| + 1 && t.answers[..|s.answers|] == s.answers
    && var a := t.answers[|s.answers|];
    && a.slot == i && a.request == req && a.start == a.at == |s.w.log|
    && FileRequest(req) && Atomic(req, sys.fsize, s.w.file) == Served(a.reply, t.w.file)
    && t.w.pipes[i] == [] && t.w.replies[i] == s.w.replies[i] + [a.reply]
  }

  function Full(n: nat, file: seq<byte>, req: seq<byte>): Outcome { Outcome(n, file, req, []) }

  /** All of these are steps of slot i. */
  ghost predicate By(steps: seq<Step>, i: nat) {
    forall k :: 0 <= k < |steps| ==> steps[k].i == i
  }

  /** Steps of slot i lead from s to t. */
  ghost predicate Leads(sys: System, s: State, steps: seq<Step>, t: State, i: nat) {
    Reaches(sys, s, steps, t) && By(steps, i)
  }

  lemma OneStepMore(sys: System, s: State, step: Step, u: State, steps: seq<Step>, t: State, i: nat)
    requires Enabled(sys, s, step) && u == Next(sys, s, step) && step.i == i && Leads(sys, u, steps, t, i)
    ensures Leads(sys, s, [step] + steps, t, i)
  {
    assert ([step] + steps)[1..] == steps;
  }

  // ------------------------------------------------------------ one operation

  /** An operation of slot i on a state where it is alone. */
  lemma Operates(sys: System, s0: State, s: State, i: nat, req: seq<byte>, pc: Pc, op: Op, o: Outcome, pc2: Pc)
    requires Alone(sys, s0, s, i, req, pc) && Submits(s.w, sys.fds, sys.n, i, op, o)
    ensures var v2, t := Exec(View(s.w, sys.n, i), op, o), Performed(sys, s, i, op, o, pc2);
      && Sized(t.w, sys.n) && t.pcs == s0.pcs[i := pc2] && t.answers == s0.answers && t.w.requests[i] == v2.request
      && (forall j :: 0 <= j < sys.n && j != i ==> View(t.w, sys.n, j) == View(s0.w, sys.n, j))
      && (if v2.commits == [] then t.w.log == s.w.log && t.w.file == s.w.file
          else
            && |v2.commits| == 1 && t.w.log == s.w.log + [Logged(i, v2.commits[0])]
            && v2.commits[0].before == s.w.file && t.w.file == v2.commits[0].after)
  {
    ActsOnOwnSlot(s.w, sys.fds, sys.n, i, op, o);
    var t := Performed(sys, s, i, op, o, pc2);
    assert t.w.requests[i] == View(t.w, sys.n, i).request;
    assert s0.pcs[i := pc][i := pc2] == s0.pcs[i := pc2];
  }

  /** A store of slot i into its own scratch buffer. */
  lemma StoresAlone(sys: System, s0: State, s: State, i: nat, req: seq<byte>, pc: Pc, b: seq<byte>, pc2: Pc)
    requires Before(sys, s0, s, i, req, pc) && |b| <= SCRATCH_BUF_SIZE && Inv(sys, Stored(sys, s, i, 0, b, pc2))
    ensures Before(sys, s0, Stored(sys, s, i, 0, b, pc2), i, req, pc2)
  {
    PokesOwnScratch(s.w, sys.n, i, 0, b);
    assert s0.pcs[i := pc][i := pc2] == s0.pcs[i := pc2];
  }

  // ------------------------------------------------------- the request comes in

  lemma Asks(sys: System, s: State, i: nat, req: seq<byte>) returns (step: Step, t: State)
    requires Inv(sys, s) && i < sys.n && s.pcs[i] == Idle && Servable(sys, s.w.file, req)
    ensures Enabled(sys, s, step) && t == Next(sys, s, step) && step.i == i
    ensures step.Ask? && Before(sys, s, t, i, req, Header(|s.w.log|, 0))
  {
    var o := Full(|req|, s.w.file, req);
    step := Ask(i, |req|, o);
    t := Next(sys, s, step);
    AskKeeps(sys, s, i, |req|, o);
    assert s.pcs == s.pcs[i := Idle];
    assert Performed(sys, s, i, FuseToPipe(|req|), o, Header(|s.w.log|, 0)) == t;
    Operates(sys, s, s, i, s.w.requests[i], Idle, FuseToPipe(|req|), o, Header(|s.w.log|, 0));
  }

  /** The first read brings `first` bytes. */
  lemma ReadsHeader(sys: System, s0: State, s: State, i: nat, req: seq<byte>, first: nat) returns (step: Step, t: State)
    requires Before(sys, s0, s, i, req, Header(|s0.w.log|, 0)) && FileRequest(req) && 40 <= first <= 80
    ensures Enabled(sys, s, step) && t == Next(sys, s, step) && step.i == i
    ensures step.ReadHeader? && step.o.res == first && Before(sys, s0, t, i, req, Header(|s0.w.log|, first))
  {
    var o := Full(first, s.w.file, []);
    step := ReadHeader(i, o);
    assert View(s.w, sys.n, i).pipe == req by {
      assert SlotInv(sys, s, i);
      assert View(s.w, sys.n, i).request == req && req[0..] == req;
    }
    t := Next(sys, s, step);
    assert Inv(sys, t) by { ReadHeaderKeeps(sys, s, i, o); }
    assert t == Performed(sys, s, i, HeaderRead(0), o, Header(|s0.w.log|, first));
    Operates(sys, s0, s, i, req, Header(|s0.w.log|, 0), HeaderRead(0), o, Header(|s0.w.log|, first));
  }

  lemma CopiesBody(sys: System, s0: State, s: State, i: nat, req: seq<byte>, first: nat) returns (step: Step, t: State)
    requires Before(sys, s0, s, i, req, Header(|s0.w.log|, first)) && FileRequest(req) && 40 <= first < 80
    ensures Enabled(sys, s, step) && t == Next(sys, s, step) && step.i == i
    ensures Before(sys, s0, t, i, req, Body(|s0.w.log|, first - 40))
  {
    step := CopyBody(i);
    t := Next(sys, s, step);
    CopyBodyKeeps(sys, s, i);
    StoresAlone(sys, s0, s, i, req, s.pcs[i], View(s.w, sys.n, i).header[40..first], Body(|s0.w.log|, first - 40));
  }

  lemma ReadsBody(sys: System, s0: State, s: State, i: nat, req: seq<byte>, got: nat) returns (step: Step, t: State)
    requires Before(sys, s0, s, i, req, Body(|s0.w.log|, got)) && FileRequest(req) && got < 40
    ensures Enabled(sys, s, step) && t == Next(sys, s, step) && step.i == i
    ensures Before(sys, s0, t, i, req, Body(|s0.w.log|, 40))
  {
    var o := Full(40 - got, s.w.file, []);
    step := ReadBody(i, o);
    assert View(s.w, sys.n, i).pipe == req[40 + got..] by {
      assert SlotInv(sys, s, i);
      assert View(s.w, sys.n, i).request == req;
    }
    t := Next(sys, s, step);
    assert Inv(sys, t) by { ReadBodyKeeps(sys, s, i, o); }
    assert t == Performed(sys, s, i, BodyRead(got), o, Body(|s0.w.log|, 40));
    Operates(sys, s0, s, i, req, Body(|s0.w.log|, got), BodyRead(got), o, Body(|s0.w.log|, 40));
  }

  /** The chain is made and queued, from wherever the body lies. */
  lemma Starts(sys: System, s0: State, s: State, i: nat, req: seq<byte>, pc: Pc) returns (step: Step, t: State)
    requires Before(sys, s0, s, i, req, pc) && FileRequest(req)
    requires pc == Header(|s0.w.log|, 80) || pc == Body(|s0.w.log|, 40)
    ensures Enabled(sys, s, step) && t == Next(sys, s, step) && step.i == i && |req| >= 80
    ensures Before(sys, s0, t, i, req, Running(|s0.w.log|, 0, 0, req[..80]))
  {
    step := Start(i);
    t := Next(sys, s, step);
    var mem := req[..80];
    assert MemoryOf(View(s.w, sys.n, i), pc) == mem by {
      MemoryIsRequest(sys, s, i);
      assert View(s.w, sys.n, i).request == req;
    }
    assert Inv(sys, t) by { StartKeeps(sys, s, i); }
    assert t == Stored(sys, s, i, 0, Head(mem, sys.fsize), Running(|s0.w.log|, 0, 0, mem));
    StoresAlone(sys, s0, s, i, req, pc, Head(mem, sys.fsize), Running(|s0.w.log|, 0, 0, mem));
  }

  // -------------------------------------------------------------------- the chain

  /** What an operation of the chain finds in the pipe, so that it can move its full length. */
  lemma FindsAll(sys: System, s: State, i: nat, file0: seq<byte>, req: seq<byte>)
    requires Inv(sys, s) && i < sys.n && s.pcs[i].Running? && s.pcs[i].k < 3 && s.w.requests[i] == req
    requires Servable(sys, file0, req) && (s.pcs[i].k == FileOp(req) ==> s.w.file == file0)
    ensures |s.pcs[i].mem| == 80 && s.pcs[i].mem == req[..80]
    ensures var op := ChainOf(s.pcs[i].mem, sys.fsize)[s.pcs[i].k].op;
      Submits(s.w, sys.fds, sys.n, i, op, Full(op.len, s.w.file, []))
  {
    RunningSlot(sys, s, i);
    var v, k := View(s.w, sys.n, i), s.pcs[i].k;
    assert Progress(sys, v, s.w.log, i, k, s.pcs[i].at) && |v.scratch| == SCRATCH_BUF_SIZE by {
      assert SlotInv(sys, s, i);
    }
    if IsRead(req) {
      if k == 2 {
        ReplyWaits(sys, v, s.w.log, i, s.pcs[i].at);
      }
      ReadFindsAll(sys, v, s.w.file, req, k);
    } else {
      WriteFindsAll(sys, v, s.w.log, i, s.w.file, req, k, s.pcs[i].at);
    }
  }

  lemma ReadFindsAll(sys: System, v: Slot, file: seq<byte>, req: seq<byte>, k: nat)
    requires FileRequest(req) && IsRead(req) && k < 3
    requires var m := Wanted(req, sys.fsize);
      && 16 + m < 0x8000_0000 && (k == 1 && m > 0 ==> OffsetOf(req) + m <= |file|)
      && (k == 2 ==> |v.pipe| == 16 + m)
    requires |v.scratch| == SCRATCH_BUF_SIZE
    ensures var op := ChainOf(req, sys.fsize)[k].op; InBounds(v, op) && Possible(v, op, Full(op.len, file, []))
    ensures var op := ChainOf(req, sys.fsize)[k].op; op.WritePipe? ==> op.buf == ScratchBuf && op.len == 16
  {
    var off, m := OffsetOf(req), Wanted(req, sys.fsize);
    assert ChainOf(req, sys.fsize) == ReadChain(off, m);
    if k == 0 {
      assert ReadChain(off, m)[k].op == WritePipe(ScratchBuf, 16);
    } else if k == 1 {
      assert ReadChain(off, m)[k].op == FileToPipe(off, m);
    } else {
      assert ReadChain(off, m)[k].op == PipeToFuse(16 + m);
    }
  }

  lemma WriteFindsAll(sys: System, v: Slot, log: seq<Logged>, i: nat, file: seq<byte>, req: seq<byte>, k: nat, at: nat)
    requires FileRequest(req) && !IsRead(req) && v.request == req && k < 3 && Progress(sys, v, log, i, k, at)
    requires |req| < 0x8000_0000 && |v.scratch| == SCRATCH_BUF_SIZE
    ensures var op := ChainOf(req, sys.fsize)[k].op; InBounds(v, op) && Possible(v, op, Full(op.len, file, []))
    ensures var op := ChainOf(req, sys.fsize)[k].op; op.WritePipe? ==> op.buf == ScratchBuf && op.len == 24
  {
  }

  /** The next operation of the chain moves its full length. */
  lemma RunsOne(sys: System, s0: State, s: State, i: nat, req: seq<byte>) returns (step: Step, t: State)
    requires i < |s.pcs| && Alone(sys, s0, s, i, req, s.pcs[i]) && s.pcs[i].Running? && s.pcs[i].k < 3
    requires Servable(sys, s0.w.file, req) && (s.pcs[i].k == FileOp(req) ==> s.w.file == s0.w.file)
    ensures Enabled(sys, s, step) && t == Next(sys, s, step) && step.i == i
    ensures var pc := s.pcs[i];
      Alone(sys, s0, t, i, req, Running(pc.start, pc.k + 1, if pc.k == FileOp(req) then |s.w.log| else pc.at, pc.mem))
    ensures if s.pcs[i].k == FileOp(req) then OneMore(s, t) else t.w.log == s.w.log && t.w.file == s.w.file
  {
    var pc := s.pcs[i];
    FindsAll(sys, s, i, s0.w.file, req);
    assert FileOp(pc.mem) == FileOp(req) by { MadeOfMemory(pc.mem, req, sys.fsize); }
    var op := ChainOf(pc.mem, sys.fsize)[pc.k].op;
    var o := Full(op.len, s.w.file, []);
    step := Run(i, o);
    t := Next(sys, s, step);
    var pc2 := Running(pc.start, pc.k + 1, if pc.k == FileOp(req) then |s.w.log| else pc.at, pc.mem);
    assert Performed(sys, s, i, op, o, pc2) == t;
    assert Inv(sys, t) by { RunKeeps(sys, s, i, o); }
    ChainRequest(sys, s, i, o);
    OperatesAt(sys, s0, s, i, req, op, o, pc2);
  }

  lemma OperatesAt(sys: System, s0: State, s: State, i: nat, req: seq<byte>, op: Op, o: Outcome, pc2: Pc)
    requires i < |s.pcs| && Alone(sys, s0, s, i, req, s.pcs[i]) && Submits(s.w, sys.fds, sys.n, i, op, o)
    requires Inv(sys, Performed(sys, s, i, op, o, pc2)) && Exec(View(s.w, sys.n, i), op, o).request == req
    ensures var v2, t := Exec(View(s.w, sys.n, i), op, o), Performed(sys, s, i, op, o, pc2);
      && Alone(sys, s0, t, i, req, pc2)
      && (if v2.commits == [] then t.w.log == s.w.log && t.w.file == s.w.file else OneMore(s, t))
  {
    Operates(sys, s0, s, i, req, s.pcs[i], op, o, pc2);
  }

  /** The log has one more entry, from the contents before to those after. */
  ghost predicate OneMore(s: State, t: State) {
    && |t.w.log| == |s.w.log| + 1 && t.w.log[..|s.w.log|] == s.w.log
    && t.w.log[|s.w.log|].commit.before == s.w.file && t.w.log[|s.w.log|].commit.after == t.w.file
  }

  lemma ChainRequest(sys: System, s: State, i: nat, o: Outcome)
    requires Inv(sys, s) && Enabled(sys, s, Run(i, o)) && o.res >= 0
    ensures var v, pc := View(s.w, sys.n, i), s.pcs[i];
      var v2 := Exec(v, ChainOf(pc.mem, sys.fsize)[pc.k].op, o);
      v2.request == s.w.requests[i] && (v2.commits != [] <==> pc.k == FileOp(pc.mem))
  {
    assert View(s.w, sys.n, i).request == s.w.requests[i];
    if s.pcs[i].k == FileOp(s.pcs[i].mem) {
      FileOpEffect(sys, s, i, o);
    } else {
      OtherOpNoEffect(sys, s, i, o);
    }
  }

  /** The coroutine sees three full results. */
  lemma Finishes(sys: System, s0: State, s: State, i: nat, req: seq<byte>) returns (step: Step, t: State)
    requires Inv(sys, s0) && i < sys.n && s0.pcs[i] == Idle && FileRequest(req) && |req| >= 80
    requires Behind(sys, s0, s, i, req, Running(|s0.w.log|, 3, |s0.w.log|, req[..80]))
    ensures Enabled(sys, s, step) && t == Next(sys, s, step) && step.i == i && ServedTo(sys, s0, t, i, req)
  {
    step := Finish(i);
    FinishAnswers(sys, s0, s, i, req);
    t := Next(sys, s, step);
    FinishLeaves(sys, s, i);
    assert s0.pcs[i := s.pcs[i]][i := Idle] == s0.pcs;
  }

  lemma FinishLeaves(sys: System, s: State, i: nat)
    requires Enabled(sys, s, Finish(i))
    ensures var t, mine, pc := Next(sys, s, Finish(i)), s.w.replies[i], s.pcs[i];
      && t.w == s.w && t.pcs == s.pcs[i := Idle]
      && t.answers == s.answers + [Answer(i, s.w.requests[i], pc.start, pc.at, |s.w.log|, mine[|mine| - 1])]
  {
    assert View(s.w, sys.n, i).request == s.w.requests[i];
  }

  lemma FinishAnswers(sys: System, s0: State, s: State, i: nat, req: seq<byte>)
    requires Inv(sys, s0) && Inv(sys, s) && i < sys.n && s0.pcs[i] == Idle && s.answers == s0.answers
    requires s.pcs[i].Running? && s.pcs[i].k == 3 && s.w.requests[i] == req
    ensures var mine := s.w.replies[i];
      && mine != [] && mine == s0.w.replies[i] + [mine[|mine| - 1]] && s.w.pipes[i] == []
      && AnsweredBy(req, sys.fsize, s.w.log, i, s.pcs[i].at, mine[|mine| - 1])
  {
    assert SlotInv(sys, s0, i) && SlotInv(sys, s, i);
    FinisherReady(sys, s, i);
  }

  /** The chain after k operations: the file operation is still to come, or done. */
  ghost predicate InChain(sys: System, s0: State, s: State, i: nat, req: seq<byte>, k: nat)
    requires |req| >= 80
  {
    if k <= FileOp(req) then Before(sys, s0, s, i, req, Running(|s0.w.log|, k, 0, req[..80]))
    else Behind(sys, s0, s, i, req, Running(|s0.w.log|, k, |s0.w.log|, req[..80]))
  }

  lemma RunsOn(sys: System, s0: State, s: State, i: nat, req: seq<byte>, k: nat) returns (step: Step, t: State)
    requires Servable(sys, s0.w.file, req) && |req| >= 80 && k < 3 && InChain(sys, s0, s, i, req, k)
    ensures Enabled(sys, s, step) && t == Next(sys, s, step) && step.i == i
    ensures InChain(sys, s0, t, i, req, k + 1)
  {
    step, t := RunsOne(sys, s0, s, i, req);
    var pc := s.pcs[i];
    if k < FileOp(req) {
      assert Before(sys, s0, t, i, req, Running(pc.start, k + 1, 0, pc.mem));
    } else {
      assert Behind(sys, s0, t, i, req, Running(pc.start, k + 1, |s0.w.log|, pc.mem));
    }
  }

  /** From the queued chain, or its middle, to the answer. */
  lemma {:induction false} RunsChain(sys: System, s0: State, s: State, i: nat, req: seq<byte>, k: nat)
      returns (steps: seq<Step>, t: State)
    requires Inv(sys, s0) && i < sys.n && s0.pcs[i] == Idle && Servable(sys, s0.w.file, req) && |req| >= 80
    requires k <= 3 && InChain(sys, s0, s, i, req, k)
    ensures Leads(sys, s, steps, t, i) && ServedTo(sys, s0, t, i, req) && |steps| == 4 - k
    decreases 3 - k
  {
    var step, u;
    if k == 3 {
      step, t := Finishes(sys, s0, s, i, req);
      OneStepMore(sys, s, step, t, [], t, i);
      steps := [step] + [];
    } else {
      var rest;
      step, u := RunsOn(sys, s0, s, i, req, k);
      rest, t := RunsChain(sys, s0, u, i, req, k + 1);
      OneStepMore(sys, s, step, u, rest, t, i);
      steps := [step] + rest;
    }
  }

  /** From header and body in memory. */
  lemma FromMemory(sys: System, s0: State, s: State, i: nat, req: seq<byte>, pc: Pc)
      returns (steps: seq<Step>, t: State)
    requires Inv(sys, s0) && i < sys.n && s0.pcs[i] == Idle && Servable(sys, s0.w.file, req)
    requires Before(sys, s0, s, i, req, pc) && (pc == Header(|s0.w.log|, 80) || pc == Body(|s0.w.log|, 40))
    ensures Leads(sys, s, steps, t, i) && ServedTo(sys, s0, t, i, req) && |steps| == 5
  {
    var step, u := Starts(sys, s0, s, i, req, pc);
    assert InChain(sys, s0, u, i, req, 0);
    var rest;
    rest, t := RunsChain(sys, s0, u, i, req, 0);
    OneStepMore(sys, s, step, u, rest, t, i);
    steps := [step] + rest;
  }

  /** From a part of the body in the scratch buffer. */
  lemma FromBody(sys: System, s0: State, s: State, i: nat, req: seq<byte>, got: nat)
      returns (steps: seq<Step>, t: State)
    requires Inv(sys, s0) && i < sys.n && s0.pcs[i] == Idle && Servable(sys, s0.w.file, req)
    requires got < 40 && Before(sys, s0, s, i, req, Body(|s0.w.log|, got))
    ensures Leads(sys, s, steps, t, i) && ServedTo(sys, s0, t, i, req) && |steps| == 6
  {
    var step, u := ReadsBody(sys, s0, s, i, req, got);
    var rest;
    rest, t := FromMemory(sys, s0, u, i, req, Body(|s0.w.log|, 40));
    OneStepMore(sys, s, step, u, rest, t, i);
    steps := [step] + rest;
  }

  /** From the first read: the rest of the body is copied and read if it did not come with the header. */
  lemma FromHeader(sys: System, s0: State, s: State, i: nat, req: seq<byte>, first: nat)
      returns (steps: seq<Step>, t: State)
    requires Inv(sys, s0) && i < sys.n && s0.pcs[i] == Idle && Servable(sys, s0.w.file, req) && 40 <= first <= 80
    requires Before(sys, s0, s, i, req, Header(|s0.w.log|, first))
    ensures Leads(sys, s, steps, t, i) && ServedTo(sys, s0, t, i, req) && |steps| == if first == 80 then 5 else 7
  {
    if first == 80 {
      steps, t := FromMemory(sys, s0, s, i, req, Header(|s0.w.log|, 80));
    } else {
      var step, u := CopiesBody(sys, s0, s, i, req, first);
      var rest;
      rest, t := FromBody(sys, s0, u, i, req, first - 40);
      OneStepMore(sys, s, step, u, rest, t, i);
      steps := [step] + rest;
    }
  }

  /** From the request in the pipe. */
  lemma FromPipe(sys: System, s0: State, s: State, i: nat, req: seq<byte>, first: nat)
      returns (steps: seq<Step>, t: State)
    requires Inv(sys, s0) && i < sys.n && s0.pcs[i] == Idle && Servable(sys, s0.w.file, req) && 40 <= first <= 80
    requires Before(sys, s0, s, i, req, Header(|s0.w.log|, 0))
    ensures Leads(sys, s, steps, t, i) && ServedTo(sys, s0, t, i, req) && |steps| == if first == 80 then 6 else 8
    ensures steps[0].ReadHeader? && steps[0].o.res == first
  {
    var step, u := ReadsHeader(sys, s0, s, i, req, first);
    var rest;
    rest, t := FromHeader(sys, s0, u, i, req, first);
    OneStepMore(sys, s, step, u, rest, t, i);
    steps := [step] + rest;
  }

  lemma ServesFrom(sys: System, s: State, i: nat, req: seq<byte>, first: nat) returns (steps: seq<Step>, t: State)
    requires Inv(sys, s) && i < sys.n && s.pcs[i] == Idle && Servable(sys, s.w.file, req) && 40 <= first <= 80
    ensures Leads(sys, s, steps, t, i) && ServedTo(sys, s, t, i, req) && |steps| == if first == 80 then 7 else 9
    ensures steps[0].Ask? && steps[1].ReadHeader? && steps[1].o.res == first
  {
    var step, u := Asks(sys, s, i, req);
    var rest;
    rest, t := FromPipe(sys, s, u, i, req, first);
    OneStepMore(sys, s, step, u, rest, t, i);
    steps := [step] + rest;
  }

  /**
    Any idle slot, at any point of any run, whatever the other slots are in the midst of, serves any
    request that can be served, whether its 40 bytes of body all come with the header, or some, or
    none: seven or nine steps of this slot alone lead to one more answer, the one of the atomic
    operation on the contents found, and to a slot that is idle again.
   */
  lemma EveryRequestIsServed(sys: System, s0: State, run: seq<Step>, s: State, i: nat, req: seq<byte>, first: nat)
      returns (steps: seq<Step>, t: State)
    requires Initial(sys, s0) && Reaches(sys, s0, run, s)
    requires i < sys.n && |s.pcs| == sys.n && s.pcs[i] == Idle && Servable(sys, s.w.file, req) && 40 <= first <= 80
    ensures Reaches(sys, s, steps, t) && By(steps, i) && ServedTo(sys, s, t, i, req)
    ensures |steps| == if first == 80 then 7 else 9
    ensures steps[0].Ask? && steps[1].ReadHeader? && steps[1].o.res == first
  {
    InvHolds(sys, s0);
    RunsKeep(sys, s0, run, s);
    steps, t := ServesFrom(sys, s, i, req, first);
  }
}
