/**
  What each action of a run does, frame by frame: what it gives, starts, suspends, resumes, destroys
  and detaches, and that it touches nothing else.
 */
module CoroutineSteps {
  import opened Coroutine

  /** The bodies on the call stack, outermost first. */
  function Bodies(stack: seq<Activation>): seq<nat> {
    if stack == [] then []
    else
      var last := stack[|stack| - 1];
      Bodies(stack[..|stack| - 1]) + (if last.Body? then [last.f] else [])
  }

  lemma {:induction false} UnwoundBodies(stack: seq<Activation>)
    ensures Bodies(Unwind(stack)) == Bodies(stack)
    decreases |stack|
  {
    if stack != [] && stack[|stack| - 1].Epilogue? {
      UnwoundBodies(stack[..|stack| - 1]);
    }
  }

  lemma PushedBodies(stack: seq<Activation>, f: nat)
    ensures Bodies(stack + [Body(f)]) == Bodies(stack) + [f]
  {
    assert (stack + [Body(f)])[..|stack|] == stack;
  }

  lemma OneBody(f: nat)
    ensures Bodies([Body(f)]) == [f]
  {
    var stack := [Body(f)];
    assert stack[..0] == [] && Bodies(stack[..0]) == [];
    assert [] + [f] == [f];
  }

  /** The running body leaves the stack, and the one below goes on. */
  ghost predicate Leaves(t: State, u: State, p: nat) {
    Bodies(t.stack) == Bodies(u.stack) + [p]
  }

  lemma PopLeaves(t: State, u: State)
    requires t.stack != [] && t.stack[|t.stack| - 1].Body? && u.stack == Unwind(t.stack[..|t.stack| - 1])
    ensures Leaves(t, u, Top(t))
  {
    UnwoundBodies(t.stack[..|t.stack| - 1]);
  }

  /** Old frames other than those named are as they were. */
  ghost predicate Only(t: State, u: State, touched: set<nat>) {
    |t.frames| <= |u.frames| && forall c: nat :: c < |t.frames| && c !in touched ==> u.frames[c] == t.frames[c]
  }

  /** The destructor of a task object: a coroutine that ended is destroyed, another one detached and runs on. */
  ghost predicate TaskGone(before: Frame, after: Frame) {
    if before.returned.Some? then after == before.(at := Destroyed, owner := Nobody)
    else after == before.(resState := Detached, owner := Nobody)
  }

  lemma RunningBody(actions: seq<Action>, t: State)
    requires Reaches(START, actions, t) && t.stack != []
    ensures t.stack[|t.stack| - 1].Body? && Top(t) < |t.frames|
  {
    RunsKeep(START, actions, t);
    TopRuns(t);
  }

  /** A task which the running frame holds: another frame, with a result exactly if its body has ended. */
  lemma TaskOf(actions: seq<Action>, t: State, c: nat)
    requires Reaches(START, actions, t) && t.stack != [] && Top(t) < |t.frames| && c in t.frames[Top(t)].tasks
    ensures t.stack[|t.stack| - 1].Body? && Top(t) < c < |t.frames|
    ensures t.frames[c].returned.Some? <==> t.frames[c].resState == Res
    ensures t.frames[c].returned.Some? ==> t.frames[c].returned == Some(t.frames[c].res)
    ensures t.frames[c].returned.Some? <==> Done(t.frames[c])
  {
    RunsKeep(START, actions, t);
    TopRuns(t);
    assert FrameOk(t, c);
  }

  // ------------------------------------------------------------------ co_await

  /** co_await of a task that has ended gives the value it co_returned at once; nobody is suspended. */
  lemma AwaitOfEnded(actions: seq<Action>, t: State, c: nat)
    requires Reaches(START, actions, t) && Enabled(t, AwaitTask(c)) && t.frames[c].returned.Some?
    ensures var p, u := Top(t), Next(t, AwaitTask(c));
      && u.stack == t.stack && u.temp == t.temp && u.destroys == t.destroys
      && |u.frames| == |t.frames| && Only(t, u, {p})
      && u.frames[p] == t.frames[p].(asked := t.frames[p].asked + [c],
                                     got := t.frames[p].got + [t.frames[c].returned.value])
  {
    TaskOf(actions, t, c);
  }

  /** co_await of one that has not ended suspends the caller there, which the child will know as its awaiter. */
  lemma AwaitOfUnended(actions: seq<Action>, t: State, c: nat)
    requires Reaches(START, actions, t) && Enabled(t, AwaitTask(c)) && t.frames[c].returned == None
    ensures var p, u := Top(t), Next(t, AwaitTask(c));
      && Leaves(t, u, p) && u.temp == t.temp && u.destroys == t.destroys
      && |u.frames| == |t.frames| && Only(t, u, {p, c}) && p != c
      && u.frames[p] == t.frames[p].(at := AtTask(c), asked := t.frames[p].asked + [c])
      && u.frames[c] == t.frames[c].(awaiter := Some(p))
  {
    TaskOf(actions, t, c);
    var u := Next(t, AwaitTask(c));
    assert u.stack == Unwind(t.stack[..|t.stack| - 1]);
    PopLeaves(t, u);
  }

  /** co_await of operations suspends the caller until the loop resumes it. */
  lemma AwaitOfIo(actions: seq<Action>, t: State)
    requires Reaches(START, actions, t) && Enabled(t, AwaitIo)
    ensures var p, u := Top(t), Next(t, AwaitIo);
      && Leaves(t, u, p) && u.temp == t.temp && u.destroys == t.destroys
      && |u.frames| == |t.frames| && Only(t, u, {p}) && u.frames[p] == t.frames[p].(at := AtIo)
  {
    RunningBody(actions, t);
    var p, u := Top(t), Next(t, AwaitIo);
    assert u.stack == Unwind(t.stack[..|t.stack| - 1]);
    PopLeaves(t, u);
  }

  lemma LoopResumes(actions: seq<Action>, t: State, f: nat)
    requires Reaches(START, actions, t) && Enabled(t, LoopResume(f))
    ensures var u := Next(t, LoopResume(f));
      && Bodies(u.stack) == [f] && u.temp == t.temp && u.destroys == t.destroys
      && |u.frames| == |t.frames| && Only(t, u, {f}) && u.frames[f] == t.frames[f].(at := Running)
  {
    OneBody(f);
  }

  // ------------------------------------------------------------ calls and drops

  /** A frame as it begins: running, no result, nobody waiting, nothing held. */
  ghost predicate Begun(f: Frame, owner: Owner) {
    && f.at == Running && f.resState == Init && f.awaiter == None && f.tasks == {} && f.owner == owner
    && f.returned == None && f.asked == [] && f.got == []
  }

  /** A call runs a new frame at once, on top of the caller, who holds its task. */
  lemma SpawnRuns(actions: seq<Action>, t: State)
    requires Reaches(START, actions, t) && Enabled(t, Spawn)
    ensures var p, c, u := Top(t), |t.frames|, Next(t, Spawn);
      && Bodies(u.stack) == Bodies(t.stack) + [c] && u.temp == t.temp && u.destroys == t.destroys
      && |u.frames| == c + 1 && Begun(u.frames[c], ByFrame(p)) && Only(t, u, {p})
      && u.frames[p] == t.frames[p].(tasks := t.frames[p].tasks + {c}) && c !in t.frames[p].tasks
  {
    RunsKeep(START, actions, t);
    TopRuns(t);
    PushedBodies(t.stack, |t.frames|);
  }

  lemma LoopSpawnRuns(actions: seq<Action>, t: State)
    requires Reaches(START, actions, t) && Enabled(t, LoopSpawn)
    ensures var c, u := |t.frames|, Next(t, LoopSpawn);
      && Bodies(u.stack) == [c] && u.temp == Some(c) && u.destroys == t.destroys
      && |u.frames| == c + 1 && Begun(u.frames[c], ByLoop) && Only(t, u, {})
  {
    PushedBodies(t.stack, |t.frames|);
  }

  /** A single task object dies: its coroutine is destroyed now, or runs on detached. */
  lemma OneDropped(s: State, c: nat)
    requires c < |s.frames|
    ensures DropAll(s, {c}).destroys == s.destroys + if Done(s.frames[c]) then [c] else []
  {
    var doomed := Doomed(s.frames, {c}, 0);
    if Done(s.frames[c]) {
      assert doomed == {} + {c};
      NothingListed(|s.frames|);
      ListedTo({}, doomed, c, |s.frames|);
    } else {
      assert doomed == {};
      NothingListed(|s.frames|);
    }
  }

  lemma {:induction false} NothingListed(n: nat)
    ensures Coroutine.Listed({}, n) == []
  {
    if n > 0 {
      NothingListed(n - 1);
    }
  }

  lemma DropOfTask(actions: seq<Action>, t: State, c: nat)
    requires Reaches(START, actions, t) && Enabled(t, DropTask(c))
    ensures c < |t.frames|
    ensures var p, u := Top(t), Next(t, DropTask(c));
      && u.stack == t.stack && u.temp == t.temp && |u.frames| == |t.frames| && Only(t, u, {p, c}) && p != c
      && u.frames[p] == t.frames[p].(tasks := t.frames[p].tasks - {c}) && TaskGone(t.frames[c], u.frames[c])
      && u.destroys == t.destroys + if t.frames[c].returned.Some? then [c] else []
  {
    RunningBody(actions, t);
    TaskOf(actions, t, c);
    var p := Top(t);
    OneDropped(t.(frames := t.frames[p := t.frames[p].(tasks := t.frames[p].tasks - {c})]), c);
  }

  lemma LoopDrops(actions: seq<Action>, t: State)
    requires Reaches(START, actions, t) && Enabled(t, LoopDrop)
    ensures var c, u := t.temp.value, Next(t, LoopDrop);
      && c < |t.frames| && u.stack == t.stack && u.temp == None && |u.frames| == |t.frames| && Only(t, u, {c})
      && TaskGone(t.frames[c], u.frames[c])
      && u.destroys == t.destroys + if t.frames[c].returned.Some? then [c] else []
  {
    RunsKeep(START, actions, t);
    assert FrameOk(t, t.temp.value);
    OneDropped(t, t.temp.value);
  }

  // ----------------------------------------------------------------- co_return

  ghost predicate Decreasing(s: seq<nat>) {
    forall j, k :: 0 <= j < k < |s| ==> s[j] > s[k]
  }

  lemma {:induction false} ListedDecreasing(cs: set<nat>, n: nat)
    ensures Decreasing(Coroutine.Listed(cs, n))
    ensures forall c: nat :: c in Coroutine.Listed(cs, n) <==> c in cs && c < n
  {
    if n > 0 {
      ListedDecreasing(cs, n - 1);
      var rest := Coroutine.Listed(cs, n - 1);
      assert forall k :: 0 <= k < |rest| ==> rest[k] in rest;
    }
  }

  /** The frames which co_return destroys: the ended tasks among the locals, and itself if nobody will. */
  ghost predicate Dies(t: State, c: nat)
    requires t.stack != [] && Top(t) < |t.frames|
  {
    c < |t.frames| &&
    ((c in t.frames[Top(t)].tasks && t.frames[c].returned.Some?) || (c == Top(t) && t.frames[c].resState == Detached))
  }

  /** The frame that runs and its awaiter, as co_return finds them. */
  lemma AtReturn(actions: seq<Action>, t: State)
    requires Reaches(START, actions, t) && t.stack != []
    ensures t.stack[|t.stack| - 1] == Body(Top(t)) && Top(t) < |t.frames|
    ensures t.frames[Top(t)].awaiter.Some? ==>
      t.frames[Top(t)].resState != Detached && t.frames[Top(t)].awaiter.value < Top(t)
  {
    RunsKeep(START, actions, t);
    TopRuns(t);
  }

  /** The locals of the running frame are newer than itself. */
  lemma LocalsAtReturn(actions: seq<Action>, t: State)
    requires Reaches(START, actions, t) && t.stack != []
    ensures Top(t) < |t.frames|
    ensures forall c :: c in t.frames[Top(t)].tasks ==>
      Top(t) < c < |t.frames| && (Done(t.frames[c]) <==> t.frames[c].returned.Some?)
  {
    RunningBody(actions, t);
    forall c | c in t.frames[Top(t)].tasks
      ensures Top(t) < c < |t.frames| && (Done(t.frames[c]) <==> t.frames[c].returned.Some?)
    {
      TaskOf(actions, t, c);
    }
  }

  lemma ReturnLeaves(actions: seq<Action>, t: State, v: int)
    requires Reaches(START, actions, t) && Enabled(t, Return(v))
    ensures Coroutine.Returned(t, Top(t), v, Next(t, Return(v)))
  {
    RunsKeep(START, actions, t);
    if t.frames[Top(t)].awaiter.Some? {
      ReturnToAwaiter(t, v);
    } else {
      ReturnToNobody(t, v);
    }
  }

  /**
    co_return v: every task among the locals is destroyed or detached, the newest first; the frame has
    ended with v, and destroys itself if it was detached; its awaiter, if any, is resumed on top of the
    stack with the value, else the body below goes on. All other frames are as they were.
   */
  lemma ReturnEnds(actions: seq<Action>, t: State, v: int)
    requires Reaches(START, actions, t) && Enabled(t, Return(v))
    ensures var p, self, u := Top(t), t.frames[Top(t)], Next(t, Return(v));
      && |u.frames| == |t.frames| && u.temp == t.temp
      && u.frames[p].returned == Some(v) && u.frames[p].tasks == {}
      && (if self.resState == Detached then u.frames[p].at == Destroyed
          else u.frames[p].at == Final && u.frames[p].resState == Res && u.frames[p].res == v)
      && (forall c: nat :: c < |t.frames| && c in self.tasks ==> TaskGone(t.frames[c], u.frames[c]))
      && (forall c: nat :: c < |t.frames| && c !in self.tasks && c != p && self.awaiter != Some(c) ==>
            u.frames[c] == t.frames[c])
      && (self.awaiter.Some? ==>
            var a := self.awaiter.value;
            a < |t.frames| && u.frames[a] == t.frames[a].(at := Running, got := t.frames[a].got + [v]))
  {
    AtReturn(actions, t);
    LocalsAtReturn(actions, t);
    ReturnLeaves(actions, t, v);
  }

  /** final_suspend resumes the awaiter on top of itself. */
  lemma WokenBodies(stack: seq<Activation>, p: nat, a: nat)
    requires stack != [] && stack[|stack| - 1] == Body(p)
    ensures var n := |stack| - 1;
      && Bodies(stack) == Bodies(stack[..n]) + [p]
      && Bodies(stack[n := Epilogue(p)] + [Body(a)]) == Bodies(stack[..n]) + [a]
  {
    var n := |stack| - 1;
    var below := stack[n := Epilogue(p)];
    assert below[..n] == stack[..n];
    assert Bodies(below) == Bodies(stack[..n]) + [] == Bodies(stack[..n]);
    PushedBodies(below, a);
  }

  /** The frame and the history when its locals are gone. */
  lemma LocalsGone(t: State, v: int)
    requires t.stack != [] && Top(t) < |t.frames| && Top(t) !in t.frames[Top(t)].tasks
    ensures var p, self, b := Top(t), t.frames[Top(t)], BeforeFinal(t, Top(t), v);
      && b.stack == t.stack && |b.frames| == |t.frames|
      && b.frames[p].resState == (if self.resState == Detached then Detached else Res)
      && b.frames[p].awaiter == self.awaiter
      && b.destroys == t.destroys + Coroutine.Listed(
           Coroutine.Doomed(t.frames[p := ReturnValue(self, v).(tasks := {})], self.tasks, 0), |t.frames|)
  {
  }

  /** Its stack and what it destroys, by the definition of co_return. */
  lemma ReturnParts(t: State, v: int)
    requires t.stack != [] && Top(t) < |t.frames| && Enabled(t, Return(v)) && Top(t) !in t.frames[Top(t)].tasks
    requires t.frames[Top(t)].awaiter.Some? ==> t.frames[Top(t)].resState != Detached
    ensures var p, self, b, u := Top(t), t.frames[Top(t)], BeforeFinal(t, Top(t), v), Next(t, Return(v));
      && u.stack == (if self.awaiter.Some? then t.stack[|t.stack| - 1 := Epilogue(p)] + [Body(self.awaiter.value)]
                     else Unwind(t.stack[..|t.stack| - 1]))
      && u.destroys == b.destroys + (if self.resState == Detached then [p] else [])
  {
    var p, b := Top(t), BeforeFinal(t, Top(t), v);
    LocalsGone(t, v);
    assert Next(t, Return(v)) == FinalSuspend(b, p);
    if t.frames[p].resState == Detached {
      assert FinalSuspend(b, p) == Pop(Destroy(b, p));
    }
  }

  lemma ReturnStack(actions: seq<Action>, t: State, v: int)
    requires Reaches(START, actions, t) && Enabled(t, Return(v))
    ensures var p, awaiter, u := Top(t), t.frames[Top(t)].awaiter, Next(t, Return(v));
      if awaiter == None then Leaves(t, u, p)
      else exists rest :: Bodies(t.stack) == rest + [p] && Bodies(u.stack) == rest + [awaiter.value]
  {
    AtReturn(actions, t);
    LocalsAtReturn(actions, t);
    ReturnParts(t, v);
    var p := Top(t);
    if t.frames[p].awaiter.Some? {
      WokenBodies(t.stack, p, t.frames[p].awaiter.value);
    } else {
      PopLeaves(t, Next(t, Return(v)));
    }
  }

  lemma ReturnDestroys(actions: seq<Action>, t: State, v: int)
    requires Reaches(START, actions, t) && Enabled(t, Return(v))
    ensures var u := Next(t, Return(v));
      && t.destroys <= u.destroys && Decreasing(u.destroys[|t.destroys|..])
      && forall c: nat :: c in u.destroys[|t.destroys|..] <==> Dies(t, c)
  {
    AtReturn(actions, t);
    LocalsAtReturn(actions, t);
    var p, self := Top(t), t.frames[Top(t)];
    var gone, last := EndedLocals(t, v), if self.resState == Detached then [p] else [];
    assert Next(t, Return(v)).destroys == t.destroys + (gone + last) by {
      LocalsGone(t, v);
      ReturnParts(t, v);
      assert (t.destroys + gone) + last == t.destroys + (gone + last);
    }
    EndedThenSelf(t, v);
    assert Next(t, Return(v)).destroys[|t.destroys|..] == gone + last;
  }

  lemma EndedThenSelf(t: State, v: int)
    requires t.stack != [] && Top(t) < |t.frames|
    requires forall c :: c in t.frames[Top(t)].tasks ==>
      Top(t) < c < |t.frames| && (Done(t.frames[c]) <==> t.frames[c].returned.Some?)
    ensures var ds := EndedLocals(t, v) + (if t.frames[Top(t)].resState == Detached then [Top(t)] else []);
      Decreasing(ds) && forall c: nat :: c in ds <==> Dies(t, c)
  {
    EndedLocalsAre(t, v);
    OneMoreBelow(EndedLocals(t, v), if t.frames[Top(t)].resState == Detached then [Top(t)] else [], Top(t));
  }

  function EndedLocals(t: State, v: int): seq<nat>
    requires t.stack != [] && Top(t) < |t.frames|
  {
    var p, self := Top(t), t.frames[Top(t)];
    Coroutine.Listed(Coroutine.Doomed(t.frames[p := ReturnValue(self, v).(tasks := {})], self.tasks, 0), |t.frames|)
  }

  lemma EndedLocalsAre(t: State, v: int)
    requires t.stack != [] && Top(t) < |t.frames|
    requires forall c :: c in t.frames[Top(t)].tasks ==>
      Top(t) < c < |t.frames| && (Done(t.frames[c]) <==> t.frames[c].returned.Some?)
    ensures Decreasing(EndedLocals(t, v))
    ensures forall c: nat :: c in EndedLocals(t, v) <==> c in t.frames[Top(t)].tasks && t.frames[c].returned.Some?
  {
    var p, self := Top(t), t.frames[Top(t)];
    ListedDecreasing(Coroutine.Doomed(t.frames[p := ReturnValue(self, v).(tasks := {})], self.tasks, 0), |t.frames|);
  }

  lemma OneMoreBelow(gone: seq<nat>, last: seq<nat>, p: nat)
    requires Decreasing(gone) && (last == [] || last == [p]) && forall c :: c in gone ==> c > p
    ensures Decreasing(gone + last) && forall c: nat :: c in gone + last <==> c in gone || c in last
  {
    assert forall k :: 0 <= k < |gone| ==> gone[k] in gone;
  }

  // --------------------------------------------------------------- no run is stuck

  /**
    What may happen next in any run: a running body may call, wait for operations, end with any value,
    and await or drop every task it holds; with none running the loop drops the task object it has, or
    else calls again and resumes any coroutine that waits for operations.
   */
  lemma MayHappen(actions: seq<Action>, t: State)
    requires Reaches(START, actions, t)
    ensures t.stack != [] ==> Enabled(t, Spawn) && Enabled(t, AwaitIo) && forall v :: Enabled(t, Return(v))
    ensures t.stack != [] ==>
      && Top(t) < |t.frames|
      && forall c :: c in t.frames[Top(t)].tasks ==> Enabled(t, AwaitTask(c)) && Enabled(t, DropTask(c))
    ensures t.stack == [] && t.temp.Some? ==> Enabled(t, LoopDrop)
    ensures t.stack == [] && t.temp == None ==>
      Enabled(t, LoopSpawn) && forall f: nat :: f < |t.frames| && t.frames[f].at == AtIo ==> Enabled(t, LoopResume(f))
  {
    if t.stack != [] {
      AtReturn(actions, t);
      LocalsAtReturn(actions, t);
    }
  }

  function Open(frames: seq<Frame>): nat {
    if frames == [] then 0
    else Open(frames[..|frames| - 1]) + (if Unfinished(frames[|frames| - 1]) then 1 else 0)
  }

  /** If frame p ends and no other one begins anew, one less is open. */
  lemma {:induction false} OneEnds(a: seq<Frame>, b: seq<Frame>, p: nat)
    requires |a| == |b| && p < |a| && Unfinished(a[p]) && !Unfinished(b[p])
    requires forall c: nat :: c < |a| && c != p ==> (Unfinished(b[c]) <==> Unfinished(a[c]))
    ensures Open(b) + 1 == Open(a)
  {
    var n := |a| - 1;
    if p == n {
      SameOpen(a[..n], b[..n]);
    } else {
      OneEnds(a[..n], b[..n], p);
    }
  }

  lemma {:induction false} SameOpen(a: seq<Frame>, b: seq<Frame>)
    requires |a| == |b| && forall c: nat :: c < |a| ==> (Unfinished(b[c]) <==> Unfinished(a[c]))
    ensures Open(a) == Open(b)
  {
    if a != [] {
      SameOpen(a[..|a| - 1], b[..|a| - 1]);
    }
  }

  lemma {:induction false} OpenOne(frames: seq<Frame>) returns (p: nat)
    requires Open(frames) > 0
    ensures p < |frames| && Unfinished(frames[p])
    ensures forall c: nat :: p < c < |frames| ==> !Unfinished(frames[c])
  {
    var n := |frames| - 1;
    if Unfinished(frames[n]) {
      p := n;
    } else {
      p := OpenOne(frames[..n]);
    }
  }

  lemma {:induction false} NoneOpen(frames: seq<Frame>, c: nat)
    requires Open(frames) == 0 && c < |frames|
    ensures !Unfinished(frames[c])
  {
    var n := |frames| - 1;
    if c < n {
      NoneOpen(frames[..n], c);
    }
  }

  lemma OneActionMore(s: State, a: Action, actions: seq<Action>, t: State)
    requires Enabled(s, a) && Reaches(Next(s, a), actions, t)
    ensures Reaches(s, [a] + actions, t)
  {
    assert ([a] + actions)[1..] == actions;
  }

  /** The running body ends: one less is open. */
  lemma ReturnCloses(t: State)
    requires Inv(t) && t.stack != []
    ensures Enabled(t, Return(0)) && Inv(Next(t, Return(0))) && Open(Next(t, Return(0)).frames) + 1 == Open(t.frames)
  {
    TopRuns(t);
    StepKeeps(t, Return(0));
    var p, u := Top(t), Next(t, Return(0));
    assert Coroutine.Returned(t, p, 0, u) by {
      if t.frames[p].awaiter.Some? {
        ReturnToAwaiter(t, 0);
      } else {
        ReturnToNobody(t, 0);
      }
    }
    forall c: nat | c < |t.frames| && c != p
      ensures Unfinished(u.frames[c]) <==> Unfinished(t.frames[c])
    {
      assert FrameOk(t, c);
    }
    OneEnds(t.frames, u.frames, p);
  }

  lemma DropCloses(t: State)
    requires Inv(t) && Enabled(t, LoopDrop)
    ensures Inv(Next(t, LoopDrop)) && Open(Next(t, LoopDrop).frames) == Open(t.frames)
    ensures Next(t, LoopDrop).temp == None && Next(t, LoopDrop).stack == []
  {
    StepKeeps(t, LoopDrop);
    SameOpen(t.frames, Next(t, LoopDrop).frames);
  }

  /** With nothing running, the newest open frame waits for operations, not for a task. */
  lemma NewestWaitsForIo(t: State, p: nat)
    requires Inv(t) && t.stack == [] && p < |t.frames| && Unfinished(t.frames[p])
    requires forall c: nat :: p < c < |t.frames| ==> !Unfinished(t.frames[c])
    ensures t.frames[p].at == AtIo
  {
    assert FrameOk(t, p);
  }

  lemma ResumeOpens(t: State, p: nat)
    requires Inv(t) && Enabled(t, LoopResume(p))
    ensures Inv(Next(t, LoopResume(p))) && Next(t, LoopResume(p)).stack != []
    ensures Open(Next(t, LoopResume(p)).frames) == Open(t.frames)
  {
    StepKeeps(t, LoopResume(p));
    SameOpen(t.frames, Next(t, LoopResume(p)).frames);
  }

  lemma {:induction false} EndsFrom(t: State) returns (actions: seq<Action>, u: State)
    requires Inv(t)
    ensures Reaches(t, actions, u) && Inv(u) && u.stack == [] && u.temp == None && Open(u.frames) == 0
    decreases Open(t.frames), t.temp.Some?, t.stack == []
  {
    var a: Action;
    if t.stack != [] {
      ReturnCloses(t);
      a := Return(0);
    } else if t.temp.Some? {
      DropCloses(t);
      a := LoopDrop;
    } else if Open(t.frames) > 0 {
      var p := OpenOne(t.frames);
      NewestWaitsForIo(t, p);
      ResumeOpens(t, p);
      a := LoopResume(p);
    } else {
      return [], t;
    }
    var rest;
    rest, u := EndsFrom(Next(t, a));
    OneActionMore(t, a, rest, u);
    actions := [a] + rest;
  }

  /**
    No run is ever stuck: whatever awaits whatever, from every state of every run some actions lead to
    one in which every body has ended and every frame has been destroyed exactly once.
   */
  lemma EverythingCanEnd(run: seq<Action>, t: State) returns (actions: seq<Action>, u: State)
    requires Reaches(START, run, t)
    ensures Reaches(t, actions, u) && u.stack == [] && u.temp == None
    ensures forall c: nat :: c < |u.frames| ==> u.frames[c].returned.Some? && u.frames[c].at == Destroyed
    ensures multiset(u.destroys) == multiset(seq(|u.frames|, c requires 0 <= c < |u.frames| => c as nat))
  {
    RunsKeep(START, run, t);
    actions, u := EndsFrom(t);
    forall c: nat | c < |u.frames|
      ensures u.frames[c].returned.Some?
    {
      NoneOpen(u.frames, c);
      assert FrameOk(u, c);
    }
    ReachesOn(START, run, t, actions, u);
    DestroyedExactlyOnce(run + actions, u);
    forall c: nat | c < |u.frames|
      ensures u.frames[c].at == Destroyed
    {
      InAll(u, c);
    }
  }

  lemma InAll(u: State, c: nat)
    requires Inv(u) && c < |u.frames|
    requires multiset(u.destroys) == multiset(seq(|u.frames|, d requires 0 <= d < |u.frames| => d as nat))
    ensures u.frames[c].at == Destroyed
  {
    var all := seq(|u.frames|, d requires 0 <= d < |u.frames| => d as nat);
    assert all[c] == c && c in multiset(all);
    assert c in multiset(u.destroys);
    assert c in u.destroys;
  }

  lemma FirstAction(s: State, run: seq<Action>, t: State) returns (u: State)
    requires run != [] && Reaches(s, run, t)
    ensures Enabled(s, run[0]) && u == Next(s, run[0]) && Reaches(u, run[1..], t)
  {
    u := Next(s, run[0]);
  }

  lemma FirstOfSum(run: seq<Action>, actions: seq<Action>)
    requires run != []
    ensures run + actions == [run[0]] + (run[1..] + actions)
  {
  }

  lemma {:induction false} ReachesOn(s: State, run: seq<Action>, t: State, actions: seq<Action>, u: State)
    requires Reaches(s, run, t) && Reaches(t, actions, u)
    ensures Reaches(s, run + actions, u)
    decreases |run|
  {
    if run == [] {
      assert run + actions == actions;
    } else {
      var a, more := run[0], run[1..];
      FirstOfSum(run, actions);
      var s1 := FirstAction(s, run, t);
      ReachesOn(s1, more, t, actions, u);
      OneActionMore(s, a, more + actions, u);
    }
  }
}
