/**
  The life of coroutine frames: who owns a frame, who waits for it, when it is destroyed. The state
  is that of all frames and of the C++ call stack; the actions are what a running coroutine or the
  event loop may do, in any order and to any depth.

  Resuming and destroying a suspended coroutine, and when it counts as done, are as in sections
  9.5.4 and 17.12 of ISO/IEC 14882:2020.
 */
module Coroutine {

  datatype Option<T> = None | Some(value: T)

  /** e_res_state */
  datatype ResState = Init | Detached | Res

  datatype Where =
    | Running            // on the call stack
    | AtIo               // suspended in co_await io.complete(...)
    | AtTask(child: nat) // suspended in co_await of the task of child
    | Final              // suspended at its final suspend point: done() is true
    | Destroyed

  /** Who holds the io_uring_task object of a frame. */
  datatype Owner = ByFrame(p: nat) | ByLoop | Nobody

  datatype Frame = Frame(
    at: Where,
    resState: ResState, res: int, awaiter: Option<nat>,   // the promise
    tasks: set<nat>,                                      // task objects among its locals
    owner: Owner, returned: Option<int>,                  // history: holder of its task, value co_returned,
    asked: seq<nat>, got: seq<int>)                       // tasks it awaited and values the co_awaits gave

  /** The call stack: bodies that run, and final_suspend calls that have resumed an awaiter. */
  datatype Activation = Body(f: nat) | Epilogue(f: nat)

  datatype State = State(
    frames: seq<Frame>, stack: seq<Activation>,
    temp: Option<nat>,             // the task object run() is about to drop
    destroys: seq<nat>)            // history: frames destroyed, in order

  datatype Action =
    | LoopSpawn           // run() calls a coroutine and gets its task
    | LoopDrop            // ... and destroys that task object at the end of the statement
    | LoopResume(f: nat)  // the event loop resumes a coroutine whose operations completed
    | Spawn               // the running coroutine calls another one
    | AwaitIo             // ... waits for operations
    | AwaitTask(c: nat)   // ... waits for a task it holds
    | DropTask(c: nat)    // ... destroys a task object it holds
    | Return(v: int)      // ... co_returns

  const FRESH: Frame := Frame(Running, Init, 0, None, {}, ByLoop, None, [], [])

  // ------------------------------------------------------------ the actions

  predicate Done(f: Frame) { f.at == Final }

  /** A final_suspend call whose awaiter has returned to it does nothing more and touches no frame. */
  function Unwind(stack: seq<Activation>): (r: seq<Activation>)
    ensures r == [] || r[|r| - 1].Body?
    ensures |r| <= |stack| && r == stack[..|r|]
    ensures forall k :: |r| <= k < |stack| ==> stack[k].Epilogue?
  {
    if stack == [] || stack[|stack| - 1].Body? then stack else Unwind(stack[..|stack| - 1])
  }

  function Pop(s: State): State
    requires s.stack != []
  {
    s.(stack := Unwind(s.stack[..|s.stack| - 1]))
  }

  function Dropped(f: Frame, dropped: bool): Frame {
    if !dropped then f
    else if Done(f) then f.(at := Destroyed, owner := Nobody)
    else f.(resState := Detached, owner := Nobody)
  }

  /** ~io_uring_task for every task in cs: a done coroutine is destroyed, another one detached. */
  function DropAll(s: State, cs: set<nat>): (t: State)
    ensures |t.frames| == |s.frames|
  {
    s.(frames := seq(|s.frames|, c requires 0 <= c < |s.frames| => Dropped(s.frames[c], c in cs)),
       destroys := s.destroys + Listed(Doomed(s.frames, cs, 0), |s.frames|))
  }

  /** The members of cs from i on whose coroutine is done. */
  function Doomed(frames: seq<Frame>, cs: set<nat>, i: nat): set<nat> {
    set c | c in cs && i <= c < |frames| && Done(frames[c])
  }

  /** The elements of a set of numbers below n, newest first: locals die in reverse order. */
  function Listed(cs: set<nat>, n: nat): seq<nat> {
    if n == 0 then [] else (if n - 1 in cs then [n - 1] else []) + Listed(cs, n - 1)
  }

  function Call(s: State, owner: Owner): State {
    s.(frames := s.frames + [FRESH.(owner := owner)], stack := s.stack + [Body(|s.frames|)])
  }

  function SpawnBy(s: State, f: nat): State
    requires f < |s.frames|
  {
    var held := s.frames[f].(tasks := s.frames[f].tasks + {|s.frames|});
    Call(s.(frames := s.frames[f := held]), ByFrame(f))
  }

  function Give(f: Frame, v: int): Frame { f.(got := f.got + [v]) }

  /** co_await of a task: await_ready, then await_resume at once or await_suspend. */
  function CoAwait(s: State, f: nat, c: nat): State
    requires f < |s.frames| && c < |s.frames| && s.stack != []
  {
    var asking := s.frames[f].(asked := s.frames[f].asked + [c]);
    if s.frames[c].resState == Res then s.(frames := s.frames[f := Give(asking, s.frames[c].res)])
    else
      var waiting := s.frames[f := asking.(at := AtTask(c))];
      Pop(s.(frames := waiting[c := waiting[c].(awaiter := Some(f))]))
  }

  function Destroy(s: State, f: nat): State
    requires f < |s.frames|
  {
    s.(frames := s.frames[f := s.frames[f].(at := Destroyed, owner := Nobody)], destroys := s.destroys + [f])
  }

  function ReturnValue(f: Frame, v: int): Frame {
    if f.resState == Detached then f.(returned := Some(v)) else f.(resState := Res, res := v, returned := Some(v))
  }

  function FinalSuspend(s: State, f: nat): State
    requires f < |s.frames| && s.stack != []
    requires s.frames[f].awaiter.Some? ==> s.frames[f].awaiter.value < |s.frames|
  {
    var promise := s.frames[f];
    if promise.resState == Detached then
      Pop(Destroy(if promise.awaiter.Some? then Destroy(s, promise.awaiter.value) else s, f))
    else if promise.awaiter.Some? then
      var p := promise.awaiter.value;
      s.(frames := s.frames[p := Give(s.frames[p].(at := Running), promise.res)],
         stack := s.stack[|s.stack| - 1 := Epilogue(f)] + [Body(p)])
    else Pop(s)
  }

  /** co_return v: return_value, destruction of the locals, final_suspend. */
  function CoReturn(s: State, f: nat, v: int): State
    requires f < |s.frames| && s.stack != []
    requires s.frames[f].awaiter.Some? ==> s.frames[f].awaiter.value < |s.frames|
  {
    var s1 := s.(frames := s.frames[f := ReturnValue(s.frames[f], v).(tasks := {})]);
    var s2 := DropAll(s1, s.frames[f].tasks);
    FinalSuspend(s2.(frames := s2.frames[f := s2.frames[f].(at := Final)]), f)
  }

  /** The coroutine that runs. */
  function Top(s: State): nat
    requires s.stack != []
  {
    s.stack[|s.stack| - 1].f
  }

  predicate Enabled(s: State, a: Action) {
    match a
    case LoopSpawn => s.stack == [] && s.temp == None
    case LoopDrop => s.stack == [] && s.temp.Some?
    case LoopResume(f) => s.stack == [] && s.temp == None && f < |s.frames| && s.frames[f].at == AtIo
    case Spawn => s.stack != [] && Top(s) < |s.frames|
    case AwaitIo => s.stack != [] && Top(s) < |s.frames|
    case AwaitTask(c) => s.stack != [] && Top(s) < |s.frames| && c < |s.frames| && c in s.frames[Top(s)].tasks
    case DropTask(c) => s.stack != [] && Top(s) < |s.frames| && c in s.frames[Top(s)].tasks
    case Return(_) =>
      && s.stack != [] && Top(s) < |s.frames|
      && (s.frames[Top(s)].awaiter.Some? ==> s.frames[Top(s)].awaiter.value < |s.frames|)
  }

  function Next(s: State, a: Action): State
    requires Enabled(s, a)
  {
    match a
    case LoopSpawn => Call(s, ByLoop).(temp := Some(|s.frames|))
    case LoopDrop => DropAll(s, {s.temp.value}).(temp := None)
    case LoopResume(f) => s.(frames := s.frames[f := s.frames[f].(at := Running)], stack := [Body(f)])
    case Spawn => SpawnBy(s, Top(s))
    case AwaitIo => Pop(s.(frames := s.frames[Top(s) := s.frames[Top(s)].(at := AtIo)]))
    case AwaitTask(c) => CoAwait(s, Top(s), c)
    case DropTask(c) =>
      var f := Top(s);
      DropAll(s.(frames := s.frames[f := s.frames[f].(tasks := s.frames[f].tasks - {c})]), {c})
    case Return(v) => CoReturn(s, Top(s), v)
  }

  ghost predicate Reaches(s: State, actions: seq<Action>, t: State)
    decreases |actions|
  {
    if actions == [] then s == t
    else Enabled(s, actions[0]) && Reaches(Next(s, actions[0]), actions[1..], t)
  }

  const START: State := State([], [], None, [])

  // ----------------------------------------------------------- the invariant

  predicate Alive(f: Frame) { f.at != Destroyed }

  /** The body has still to run to its end. */
  predicate Unfinished(f: Frame) { f.at != Final && f.at != Destroyed }

  /** A frame has exactly one holder, or none and it is detached and unfinished. */
  ghost predicate Held(s: State, c: nat)
    requires c < |s.frames|
  {
    var f := s.frames[c];
    match f.owner
    case ByFrame(p) =>
      p < c && Alive(f) && Unfinished(s.frames[p]) && c in s.frames[p].tasks && f.resState != Detached
    case ByLoop => Alive(f) && s.temp == Some(c) && f.resState != Detached && f.awaiter == None
    case Nobody => Alive(f) ==> f.resState == Detached && f.at != Final && f.awaiter == None
  }

  /** What a frame holds exists, is newer and is held by no one else; a finished one holds nothing. */
  ghost predicate Holds(s: State, c: nat)
    requires c < |s.frames|
  {
    var f := s.frames[c];
    && (forall d :: d in f.tasks ==> c < d < |s.frames| && Alive(s.frames[d]) && s.frames[d].owner == ByFrame(c))
    && (!Unfinished(f) ==> f.tasks == {})
  }

  /** A frame waits for a child exactly if the unfinished child knows it as its awaiter. */
  ghost predicate Waits(s: State, c: nat)
    requires c < |s.frames|
  {
    var f := s.frames[c];
    && (f.at.AtTask? ==>
          var d := f.at.child;
          d in f.tasks && c < d < |s.frames| && Unfinished(s.frames[d]) && s.frames[d].awaiter == Some(c))
    && (Unfinished(f) && f.awaiter.Some? ==>
          var p := f.awaiter.value;
          p < c && f.owner == ByFrame(p) && s.frames[p].at == AtTask(c))
  }

  /** A result is there when and only when the body has ended, and it is the value co_returned. */
  ghost predicate Results(f: Frame) {
    && (Unfinished(f) <==> f.returned == None)
    && (Unfinished(f) ==> f.resState != Res)
    && (f.at == Final ==> f.resState == Res)
    && (f.resState == Res ==> f.returned == Some(f.res))
  }

  /** Every co_await but the one under way has given the value which that very child co_returned. */
  ghost predicate Answers(s: State, c: nat)
    requires c < |s.frames|
  {
    var f := s.frames[c];
    && |f.asked| == |f.got| + (if f.at.AtTask? then 1 else 0)
    && (f.at.AtTask? ==> f.asked[|f.got|] == f.at.child)
    && (forall i :: 0 <= i < |f.got| ==> f.asked[i] < |s.frames| && s.frames[f.asked[i]].returned == Some(f.got[i]))
  }

  ghost predicate FrameOk(s: State, c: nat)
    requires c < |s.frames|
  {
    && Held(s, c) && Holds(s, c) && Waits(s, c) && Results(s.frames[c]) && Answers(s, c)
    && (s.frames[c].at == Running ==> Body(c) in s.stack)
  }

  /** The frames on the call stack run, each once. */
  ghost predicate StackOk(s: State) {
    && (s.stack == [] || s.stack[|s.stack| - 1].Body?)
    && (forall k :: 0 <= k < |s.stack| && s.stack[k].Body? ==>
          s.stack[k].f < |s.frames| && s.frames[s.stack[k].f].at == Running)
    && (forall j, k :: 0 <= j < k < |s.stack| && s.stack[j].Body? && s.stack[k].Body? ==> s.stack[j].f != s.stack[k].f)
  }

  /** No frame is destroyed twice, and the destroyed ones are those in the list. */
  ghost predicate DestroysOk(s: State) {
    && (forall j, k :: 0 <= j < k < |s.destroys| ==> s.destroys[j] != s.destroys[k])
    && (forall c: nat :: c in s.destroys <==> c < |s.frames| && s.frames[c].at == Destroyed)
  }

  ghost predicate Inv(s: State) {
    && (forall c: nat {:trigger FrameOk(s, c)} :: c < |s.frames| ==> FrameOk(s, c))
    && StackOk(s) && DestroysOk(s)
    && (s.temp.Some? ==> s.temp.value < |s.frames| && s.frames[s.temp.value].owner == ByLoop)
  }

  // ------------------------------------------------------ every step keeps it

  lemma {:induction false} ListedFacts(cs: set<nat>, n: nat)
    ensures forall c: nat :: c in Listed(cs, n) <==> c in cs && c < n
    ensures forall j, k :: 0 <= j < k < |Listed(cs, n)| ==> Listed(cs, n)[j] != Listed(cs, n)[k]
  {
    if n > 0 {
      ListedFacts(cs, n - 1);
    }
  }

  /** Taking the running body off the stack leaves every other body on it. */
  lemma BodiesStay(stack: seq<Activation>, e: nat)
    requires stack != [] && stack[|stack| - 1] != Body(e) && Body(e) in stack
    ensures Body(e) in Unwind(stack[..|stack| - 1])
  {
    var k :| 0 <= k < |stack| && stack[k] == Body(e);
    var rest := stack[..|stack| - 1];
    assert rest[k] == Body(e);
    assert Unwind(rest)[k] == Body(e);
  }

  /** A shorter stack is well formed if the frames of the remaining bodies still run. */
  lemma StackPrefix(s: State, t: State)
    requires StackOk(s) && |t.stack| < |s.stack| && t.stack <= s.stack && |t.frames| == |s.frames|
    requires t.stack == [] || t.stack[|t.stack| - 1].Body?
    requires forall c: nat :: c < |s.frames| && c != Top(s) && s.frames[c].at == Running ==> t.frames[c].at == Running
    ensures StackOk(t)
  {
    forall k | 0 <= k < |t.stack| && t.stack[k].Body?
      ensures t.stack[k].f < |t.frames| && t.frames[t.stack[k].f].at == Running
    {
      assert s.stack[k] == t.stack[k] && s.stack[k].f != s.stack[|s.stack| - 1].f;
    }
  }

  lemma StackAfterPop(s: State, t: State)
    requires StackOk(s) && s.stack != []
    requires t.stack == Unwind(s.stack[..|s.stack| - 1]) && |t.frames| == |s.frames|
    requires forall c: nat :: c < |s.frames| && c != Top(s) && s.frames[c].at == Running ==> t.frames[c].at == Running
    ensures StackOk(t)
    ensures forall c: nat :: c != Top(s) && Body(c) in s.stack ==> Body(c) in t.stack
  {
    assert StackOk(t) by { StackPrefix(s, t); }
    forall c: nat | c != Top(s) && Body(c) in s.stack
      ensures Body(c) in t.stack
    {
      BodiesStay(s.stack, c);
    }
  }

  /** The frame that runs is unfinished and on top of a well-formed stack. */
  lemma TopRuns(s: State)
    requires Inv(s) && s.stack != []
    ensures Top(s) < |s.frames| && s.frames[Top(s)].at == Running && FrameOk(s, Top(s))
  {
    assert s.stack[|s.stack| - 1].Body?;
    assert FrameOk(s, Top(s));
  }

  /** What DropAll adds to the history: the done ones among frames that were alive. */
  lemma DestroysAfterDrop(s: State, cs: set<nat>)
    requires DestroysOk(s)
    ensures DestroysOk(DropAll(s, cs))
  {
    var doomed := Doomed(s.frames, cs, 0);
    ListedFacts(doomed, |s.frames|);
    var t := DropAll(s, cs);
    forall c: nat
      ensures c in t.destroys <==> c < |t.frames| && t.frames[c].at == Destroyed
    {
      assert c in t.destroys <==> c in s.destroys || c in Listed(doomed, |s.frames|);
    }
    forall j, k | 0 <= j < k < |t.destroys|
      ensures t.destroys[j] != t.destroys[k]
    {
      if j < |s.destroys| <= k {
        assert t.destroys[j] in s.destroys;
        assert t.destroys[k] == Listed(doomed, |s.frames|)[k - |s.destroys|];
        assert t.destroys[k] in Listed(doomed, |s.frames|);
      }
    }
  }

  lemma LoopSpawnKeeps(s: State)
    requires Inv(s) && Enabled(s, LoopSpawn)
    ensures Inv(Next(s, LoopSpawn))
  {
    var t := Next(s, LoopSpawn);
    forall c: nat | c < |t.frames|
      ensures FrameOk(t, c)
    {
      if c < |s.frames| {
        assert FrameOk(s, c);
      }
    }
  }

  lemma SpawnFrame(s: State, f: nat, t: State, c: nat)
    requires f < |s.frames| && c < |s.frames| && FrameOk(s, c) && Unfinished(s.frames[f])
    requires |t.frames| == |s.frames| + 1 && t.temp == s.temp
    requires forall e: nat :: Body(e) in s.stack ==> Body(e) in t.stack
    requires t.frames[f] == s.frames[f].(tasks := s.frames[f].tasks + {|s.frames|})
    requires t.frames[|s.frames|] == FRESH.(owner := ByFrame(f))
    requires forall e: nat :: e < |s.frames| && e != f ==> t.frames[e] == s.frames[e]
    ensures FrameOk(t, c)
  {
    assert Held(t, c) && Holds(t, c);
    assert Waits(t, c);
    assert Answers(t, c);
  }

  lemma SpawnKeeps(s: State)
    requires Inv(s) && Enabled(s, Spawn)
    ensures Inv(Next(s, Spawn))
  {
    TopRuns(s);
    var t := Next(s, Spawn);
    forall c: nat | c < |s.frames|
      ensures FrameOk(t, c)
    {
      assert FrameOk(s, c);
      SpawnFrame(s, Top(s), t, c);
    }
    assert t.stack[|s.stack|] == Body(|s.frames|);
    assert FrameOk(t, |s.frames|);
  }

  lemma MoveFrame(s: State, f: nat, at: Where, t: State, c: nat)
    requires f < |s.frames| && c < |s.frames| && FrameOk(s, f) && FrameOk(s, c)
    requires Unfinished(s.frames[f]) && !s.frames[f].at.AtTask? && (at == AtIo || at == Running)
    requires |t.frames| == |s.frames| && t.temp == s.temp
    requires forall e: nat :: e != f && Body(e) in s.stack ==> Body(e) in t.stack
    requires at == Running ==> Body(f) in t.stack
    requires t.frames[f] == s.frames[f].(at := at)
    requires forall e: nat :: e < |s.frames| && e != f ==> t.frames[e] == s.frames[e]
    ensures FrameOk(t, c)
  {
    assert Held(t, c) && Holds(t, c);
    assert Waits(t, c);
    assert Answers(t, c);
  }

  lemma LoopResumeKeeps(s: State, f: nat)
    requires Inv(s) && Enabled(s, LoopResume(f))
    ensures Inv(Next(s, LoopResume(f)))
  {
    var t := Next(s, LoopResume(f));
    forall c: nat | c < |t.frames|
      ensures FrameOk(t, c)
    {
      assert FrameOk(s, f) && FrameOk(s, c);
      MoveFrame(s, f, Running, t, c);
    }
  }

  lemma AwaitIoKeeps(s: State)
    requires Inv(s) && Enabled(s, AwaitIo)
    ensures Inv(Next(s, AwaitIo))
  {
    TopRuns(s);
    var t := Next(s, AwaitIo);
    assert t.stack == Unwind(s.stack[..|s.stack| - 1]);
    StackAfterPop(s, t);
    forall c: nat | c < |t.frames|
      ensures FrameOk(t, c)
    {
      assert FrameOk(s, c);
      MoveFrame(s, Top(s), AtIo, t, c);
    }
  }

  lemma LoopDropKeeps(s: State)
    requires Inv(s) && Enabled(s, LoopDrop)
    ensures Inv(Next(s, LoopDrop))
  {
    var t := Next(s, LoopDrop);
    DestroysAfterDrop(s, {s.temp.value});
    forall c: nat | c < |t.frames|
      ensures FrameOk(t, c)
    {
      assert FrameOk(s, c);
    }
  }

  lemma DropTaskFrame(s: State, f: nat, d: nat, t: State, c: nat)
    requires f < |s.frames| && d < |s.frames| && c < |s.frames|
    requires FrameOk(s, f) && FrameOk(s, d) && FrameOk(s, c)
    requires s.frames[f].at == Running && d in s.frames[f].tasks
    requires |t.frames| == |s.frames| && t.stack == s.stack && t.temp == s.temp
    requires t.frames[f] == s.frames[f].(tasks := s.frames[f].tasks - {d})
    requires t.frames[d] == Dropped(s.frames[d], true)
    requires forall e: nat :: e < |s.frames| && e != f && e != d ==> t.frames[e] == s.frames[e]
    ensures FrameOk(t, c)
  {
    assert Held(t, c);
    assert Holds(t, c);
    assert Waits(t, c);
    assert Answers(t, c);
  }

  lemma DropTaskFrames(s: State, f: nat, d: nat, t: State)
    requires forall c: nat {:trigger FrameOk(s, c)} :: c < |s.frames| ==> FrameOk(s, c)
    requires f < |s.frames| && s.frames[f].at == Running && d in s.frames[f].tasks
    requires t == DropAll(s.(frames := s.frames[f := s.frames[f].(tasks := s.frames[f].tasks - {d})]), {d})
    ensures forall c: nat {:trigger FrameOk(t, c)} :: c < |t.frames| ==> FrameOk(t, c)
  {
    forall c: nat | c < |t.frames|
      ensures FrameOk(t, c)
    {
      assert FrameOk(s, f) && FrameOk(s, d) && FrameOk(s, c);
      DropTaskFrame(s, f, d, t, c);
    }
  }

  lemma DropTaskKeeps(s: State, d: nat)
    requires Inv(s) && Enabled(s, DropTask(d))
    ensures Inv(Next(s, DropTask(d)))
  {
    TopRuns(s);
    var f := Top(s);
    var s1 := s.(frames := s.frames[f := s.frames[f].(tasks := s.frames[f].tasks - {d})]);
    var t := DropAll(s1, {d});
    DropTaskFrames(s, f, d, t);
    DestroysAfterDrop(s1, {d});
    assert s.temp.Some? ==> s.temp.value != d;
  }

  lemma AwaitFrame(s: State, f: nat, d: nat, t: State, c: nat)
    requires f < |s.frames| && d < |s.frames| && c < |s.frames|
    requires FrameOk(s, f) && FrameOk(s, d) && FrameOk(s, c)
    requires s.frames[f].at == Running && d in s.frames[f].tasks && s.frames[d].resState != Res
    requires |t.frames| == |s.frames| && t.temp == s.temp
    requires forall e: nat :: e != f && Body(e) in s.stack ==> Body(e) in t.stack
    requires t.frames[f] == s.frames[f].(asked := s.frames[f].asked + [d], at := AtTask(d))
    requires t.frames[d] == s.frames[d].(awaiter := Some(f))
    requires forall e: nat :: e < |s.frames| && e != f && e != d ==> t.frames[e] == s.frames[e]
    ensures FrameOk(t, c)
  {
    assert Held(t, c);
    assert Holds(t, c);
    assert Waits(t, c);
    assert Answers(t, c);
  }

  lemma ReadyFrame(s: State, f: nat, d: nat, t: State, c: nat)
    requires f < |s.frames| && d < |s.frames| && c < |s.frames|
    requires FrameOk(s, f) && FrameOk(s, d) && FrameOk(s, c)
    requires s.frames[f].at == Running && s.frames[d].resState == Res
    requires |t.frames| == |s.frames| && t.temp == s.temp && t.stack == s.stack
    requires t.frames[f] == s.frames[f].(asked := s.frames[f].asked + [d], got := s.frames[f].got + [s.frames[d].res])
    requires forall e: nat :: e < |s.frames| && e != f ==> t.frames[e] == s.frames[e]
    ensures FrameOk(t, c)
  {
    assert Held(t, c);
    assert Holds(t, c);
    assert Waits(t, c);
    assert Answers(t, c);
  }

  lemma AwaitReadyKeeps(s: State, d: nat)
    requires Inv(s) && Enabled(s, AwaitTask(d)) && s.frames[d].resState == Res
    ensures Inv(Next(s, AwaitTask(d)))
  {
    var f := Top(s);
    var t := CoAwait(s, f, d);
    forall c: nat | c < |t.frames|
      ensures FrameOk(t, c)
    {
      assert FrameOk(s, f) && FrameOk(s, d) && FrameOk(s, c);
      ReadyFrame(s, f, d, t, c);
    }
  }

  lemma AwaitFrames(s: State, f: nat, d: nat, t: State)
    requires forall c: nat {:trigger FrameOk(s, c)} :: c < |s.frames| ==> FrameOk(s, c)
    requires f < d < |s.frames| && s.frames[f].at == Running && d in s.frames[f].tasks && s.frames[d].resState != Res
    requires t.temp == s.temp && forall e: nat :: e != f && Body(e) in s.stack ==> Body(e) in t.stack
    requires t.frames == s.frames[f := s.frames[f].(asked := s.frames[f].asked + [d], at := AtTask(d))][
                                  d := s.frames[d].(awaiter := Some(f))]
    ensures forall c: nat {:trigger FrameOk(t, c)} :: c < |t.frames| ==> FrameOk(t, c)
  {
    forall c: nat | c < |t.frames|
      ensures FrameOk(t, c)
    {
      assert FrameOk(s, f) && FrameOk(s, d) && FrameOk(s, c);
      AwaitFrame(s, f, d, t, c);
    }
  }

  lemma SameDestroys(s: State, t: State)
    requires DestroysOk(s) && t.destroys == s.destroys && |t.frames| == |s.frames|
    requires forall c: nat :: c < |s.frames| ==> (t.frames[c].at == Destroyed <==> s.frames[c].at == Destroyed)
    ensures DestroysOk(t)
  {
  }

  lemma AwaitStack(s: State, f: nat, d: nat)
    requires StackOk(s) && DestroysOk(s) && s.stack != [] && Top(s) == f < d < |s.frames|
    requires s.frames[d].resState != Res && s.frames[f].at == Running
    ensures var t := CoAwait(s, f, d);
            && StackOk(t) && DestroysOk(t) && t.temp == s.temp
            && t.frames == s.frames[f := s.frames[f].(asked := s.frames[f].asked + [d], at := AtTask(d))][
                                    d := s.frames[d].(awaiter := Some(f))]
            && forall e: nat :: e != f && Body(e) in s.stack ==> Body(e) in t.stack
  {
    var t := CoAwait(s, f, d);
    assert StackOk(t) && forall e: nat :: e != f && Body(e) in s.stack ==> Body(e) in t.stack by {
      StackAfterPop(s, t);
    }
    assert DestroysOk(t) by { SameDestroys(s, t); }
  }

  lemma AwaitSuspendKeeps(s: State, d: nat)
    requires Inv(s) && Enabled(s, AwaitTask(d)) && s.frames[d].resState != Res
    ensures Inv(Next(s, AwaitTask(d)))
  {
    TopRuns(s);
    AwaitStack(s, Top(s), d);
    AwaitFrames(s, Top(s), d, CoAwait(s, Top(s), d));
  }

  /** What co_return v leaves of every frame, when a detached frame has no awaiter. */
  ghost predicate Returned(s: State, f: nat, v: int, t: State)
    requires f < |s.frames|
  {
    var self := s.frames[f];
    && |t.frames| == |s.frames| && t.temp == s.temp
    && t.frames[f] ==
       (if self.resState == Detached then self.(returned := Some(v), tasks := {}, at := Destroyed, owner := Nobody)
        else self.(returned := Some(v), res := v, resState := Res, tasks := {}, at := Final))
    && (forall e: nat :: e < |s.frames| && e != f ==>
          t.frames[e] == (if e in self.tasks then Dropped(s.frames[e], true)
                          else if self.awaiter == Some(e) then Give(s.frames[e].(at := Running), v)
                          else s.frames[e]))
    && (forall e: nat :: e != f && Body(e) in s.stack ==> Body(e) in t.stack)
    && (self.awaiter.Some? ==> Body(self.awaiter.value) in t.stack)
  }

  lemma ReturnHeld(s: State, f: nat, v: int, t: State, c: nat)
    requires f < |s.frames| && c < |s.frames| && s.frames[f].at == Running
    requires FrameOk(s, f) && FrameOk(s, c)
    requires Returned(s, f, v, t)
    ensures Held(t, c)
  {
  }

  lemma ReturnHolds(s: State, f: nat, v: int, t: State, c: nat)
    requires f < |s.frames| && c < |s.frames| && s.frames[f].at == Running
    requires FrameOk(s, f) && FrameOk(s, c)
    requires Returned(s, f, v, t)
    ensures Holds(t, c)
  {
  }

  lemma ReturnWaits(s: State, f: nat, v: int, t: State, c: nat)
    requires f < |s.frames| && c < |s.frames| && s.frames[f].at == Running
    requires FrameOk(s, f) && FrameOk(s, c)
    requires Returned(s, f, v, t)
    ensures Waits(t, c)
  {
  }

  lemma ReturnAnswers(s: State, f: nat, v: int, t: State, c: nat)
    requires f < |s.frames| && c < |s.frames| && s.frames[f].at == Running
    requires FrameOk(s, f) && FrameOk(s, c)
    requires Returned(s, f, v, t)
    ensures Results(t.frames[c]) && Answers(t, c)
  {
    forall i | 0 <= i < |s.frames[c].got|
      ensures t.frames[s.frames[c].asked[i]].returned == Some(s.frames[c].got[i])
    {
      assert s.frames[c].asked[i] != f;
    }
  }

  lemma ReturnFrame(s: State, f: nat, v: int, t: State, c: nat)
    requires f < |s.frames| && c < |s.frames| && s.frames[f].at == Running
    requires FrameOk(s, f) && FrameOk(s, c)
    requires Returned(s, f, v, t)
    ensures FrameOk(t, c)
  {
    ReturnHeld(s, f, v, t, c);
    ReturnHolds(s, f, v, t, c);
    ReturnWaits(s, f, v, t, c);
    ReturnAnswers(s, f, v, t, c);
  }

  /** The state before final_suspend. */
  function BeforeFinal(s: State, f: nat, v: int): State
    requires f < |s.frames|
  {
    var s2 := DropAll(s.(frames := s.frames[f := ReturnValue(s.frames[f], v).(tasks := {})]), s.frames[f].tasks);
    s2.(frames := s2.frames[f := s2.frames[f].(at := Final)])
  }

  lemma BeforeFinalFrames(s: State, f: nat, v: int)
    requires Inv(s) && f < |s.frames| && s.frames[f].at == Running
    ensures var t := BeforeFinal(s, f, v);
            && |t.frames| == |s.frames| && t.temp == s.temp && t.stack == s.stack
            && t.frames[f] == ReturnValue(s.frames[f], v).(tasks := {}, at := Final)
            && forall e: nat :: e < |s.frames| && e != f ==> t.frames[e] == Dropped(s.frames[e], e in s.frames[f].tasks)
  {
    assert FrameOk(s, f);
  }

  lemma BeforeFinalDestroys(s: State, f: nat, v: int)
    requires Inv(s) && f < |s.frames| && s.frames[f].at == Running
    ensures DestroysOk(BeforeFinal(s, f, v))
  {
    assert FrameOk(s, f);
    var s1 := s.(frames := s.frames[f := ReturnValue(s.frames[f], v).(tasks := {})]);
    DestroysAfterDrop(s1, s.frames[f].tasks);
  }

  /** What the locals' destructors and the promise leave behind before final_suspend. */
  ghost predicate Ready(s: State, f: nat, v: int, b: State) {
    && f < |s.frames| && s.frames[f].at == Running && FrameOk(s, f) && StackOk(s) && DestroysOk(b)
    && s.stack != [] && Top(s) == f && b.stack == s.stack && b.temp == s.temp && |b.frames| == |s.frames|
    && b.frames[f] == ReturnValue(s.frames[f], v).(tasks := {}, at := Final)
    && forall e: nat :: e < |s.frames| && e != f ==> b.frames[e] == Dropped(s.frames[e], e in s.frames[f].tasks)
  }

  lemma FinalDetached(s: State, f: nat, v: int, b: State)
    requires Ready(s, f, v, b) && s.frames[f].resState == Detached
    ensures var t := Pop(Destroy(b, f)); Returned(s, f, v, t) && StackOk(t) && DestroysOk(t)
  {
    var t := Pop(Destroy(b, f));
    assert StackOk(t) by { StackAfterPop(s, t); }
    assert t.destroys == b.destroys + [f];
    assert f !in b.destroys;
    assert forall c: nat :: c in t.destroys <==> c in b.destroys || c == f;
    assert Returned(s, f, v, t) by { StackAfterPop(s, t); }
  }

  lemma FinalHeld(s: State, f: nat, v: int, b: State)
    requires Ready(s, f, v, b) && s.frames[f].resState != Detached && s.frames[f].awaiter == None
    ensures var t := Pop(b); Returned(s, f, v, t) && StackOk(t) && DestroysOk(t)
  {
    var t := Pop(b);
    StackAfterPop(s, t);
  }

  lemma ReturnToNobody(s: State, v: int)
    requires Inv(s) && Enabled(s, Return(v)) && s.frames[Top(s)].awaiter == None
    ensures var t := Next(s, Return(v)); Returned(s, Top(s), v, t) && StackOk(t) && DestroysOk(t)
  {
    TopRuns(s);
    BeforeFinalFrames(s, Top(s), v);
    BeforeFinalDestroys(s, Top(s), v);
    if s.frames[Top(s)].resState == Detached {
      FinalDetached(s, Top(s), v, BeforeFinal(s, Top(s), v));
    } else {
      FinalHeld(s, Top(s), v, BeforeFinal(s, Top(s), v));
    }
  }

  lemma WakeStep(s: State, f: nat, v: int, b: State)
    requires Ready(s, f, v, b) && s.frames[f].awaiter.Some?
    ensures var t := FinalSuspend(b, f); Returned(s, f, v, t) && StackOk(t) && DestroysOk(t)
  {
    var t := FinalSuspend(b, f);
    var p, n := s.frames[f].awaiter.value, |s.stack|;
    assert p < f && p !in s.frames[f].tasks && s.frames[p].at == AtTask(f);
    assert t.stack == s.stack[..n - 1] + [Epilogue(f), Body(p)];
    forall e: nat | e != f && Body(e) in s.stack
      ensures Body(e) in t.stack
    {
      var k :| 0 <= k < n && s.stack[k] == Body(e);
      assert t.stack[k] == Body(e);
    }
    assert t.stack[n] == Body(p);
    assert StackOk(t) by {
      assert forall k :: 0 <= k < n - 1 ==> t.stack[k] == s.stack[k];
    }
    assert t.destroys == b.destroys;
  }

  lemma ReturnToAwaiter(s: State, v: int)
    requires Inv(s) && Enabled(s, Return(v)) && s.frames[Top(s)].awaiter.Some?
    ensures var t := Next(s, Return(v)); Returned(s, Top(s), v, t) && StackOk(t) && DestroysOk(t)
  {
    TopRuns(s);
    BeforeFinalFrames(s, Top(s), v);
    BeforeFinalDestroys(s, Top(s), v);
    WakeStep(s, Top(s), v, BeforeFinal(s, Top(s), v));
  }

  lemma ReturnKeeps(s: State, v: int)
    requires Inv(s) && Enabled(s, Return(v))
    ensures Inv(Next(s, Return(v)))
  {
    TopRuns(s);
    var f := Top(s);
    var t := Next(s, Return(v));
    if s.frames[f].awaiter.Some? {
      ReturnToAwaiter(s, v);
    } else {
      ReturnToNobody(s, v);
    }
    forall c: nat | c < |t.frames|
      ensures FrameOk(t, c)
    {
      assert FrameOk(s, c);
      ReturnFrame(s, f, v, t, c);
    }
  }

  lemma StepKeeps(s: State, a: Action)
    requires Inv(s) && Enabled(s, a)
    ensures Inv(Next(s, a))
  {
    match a
    case LoopSpawn => LoopSpawnKeeps(s);
    case LoopDrop => LoopDropKeeps(s);
    case LoopResume(f) => LoopResumeKeeps(s, f);
    case Spawn => SpawnKeeps(s);
    case AwaitIo => AwaitIoKeeps(s);
    case AwaitTask(c) =>
      if s.frames[c].resState == Res {
        AwaitReadyKeeps(s, c);
      } else {
        AwaitSuspendKeeps(s, c);
      }
    case DropTask(c) => DropTaskKeeps(s, c);
    case Return(v) => ReturnKeeps(s, v);
  }

  lemma {:induction false} RunsKeep(s: State, actions: seq<Action>, t: State)
    requires Inv(s) && Reaches(s, actions, t)
    ensures Inv(t)
    decreases |actions|
  {
    if actions != [] {
      StepKeeps(s, actions[0]);
      RunsKeep(Next(s, actions[0]), actions[1..], t);
    }
  }

  // -------------------------------------------------------------- what follows

  /**
    Any run: no frame is destroyed twice and none before its body has ended; a frame that ended but
    is not destroyed is held by an unfinished frame or by the statement run() is executing.
   */
  lemma DestroyedAtMostOnce(actions: seq<Action>, t: State)
    requires Reaches(START, actions, t)
    ensures forall j, k :: 0 <= j < k < |t.destroys| ==> t.destroys[j] != t.destroys[k]
    ensures forall c :: c in t.destroys ==> c < |t.frames| && t.frames[c].returned.Some?
    ensures forall c: nat :: c < |t.frames| && t.frames[c].returned.Some? && c !in t.destroys ==>
              t.temp == Some(c) || exists p: nat :: p < c && t.frames[p].returned == None && c in t.frames[p].tasks
  {
    RunsKeep(START, actions, t);
    forall c | c in t.destroys
      ensures c < |t.frames| && t.frames[c].returned.Some?
    {
      assert FrameOk(t, c);
    }
    forall c: nat | c < |t.frames| && t.frames[c].returned.Some? && c !in t.destroys
      ensures t.temp == Some(c) || exists p: nat :: p < c && t.frames[p].returned == None && c in t.frames[p].tasks
    {
      assert FrameOk(t, c);
      if t.frames[c].owner.ByFrame? {
        assert FrameOk(t, t.frames[c].owner.p);
      }
    }
  }

  /** When every body has ended and run() holds no task, every frame has been destroyed exactly once. */
  lemma DestroyedExactlyOnce(actions: seq<Action>, t: State)
    requires Reaches(START, actions, t) && t.temp == None
    requires forall c: nat :: c < |t.frames| ==> t.frames[c].returned.Some?
    ensures multiset(t.destroys) == multiset(seq(|t.frames|, c requires 0 <= c < |t.frames| => c as nat))
  {
    DestroyedAtMostOnce(actions, t);
    var all := seq(|t.frames|, c requires 0 <= c < |t.frames| => c as nat);
    forall c: nat | c < |t.frames|
      ensures c in t.destroys
    {
      assert t.frames[c].returned.Some?;
    }
    assert forall c: nat :: c in t.destroys <==> c < |t.frames|;
    forall c: nat
      ensures c in all <==> c < |t.frames|
    {
      if c < |t.frames| {
        assert all[c] == c;
      }
    }
    DistinctMultiset(t.destroys);
    DistinctMultiset(all);
  }

  lemma {:induction false} DistinctMultiset(s: seq<nat>)
    requires forall j, k :: 0 <= j < k < |s| ==> s[j] != s[k]
    ensures forall c: nat :: multiset(s)[c] == if c in s then 1 else 0
  {
    if s != [] {
      var n := |s| - 1;
      DistinctMultiset(s[..n]);
      assert s == s[..n] + [s[n]];
    }
  }

  /** The frames whose promise or handle an action reads or writes. */
  ghost function Touched(s: State, a: Action): set<nat>
    requires Enabled(s, a)
  {
    match a
    case LoopSpawn => {}
    case LoopDrop => {s.temp.value}
    case LoopResume(f) => {f}
    case Spawn => {Top(s)}
    case AwaitIo => {Top(s)}
    case AwaitTask(c) => {Top(s), c}
    case DropTask(c) => {Top(s), c}
    case Return(_) =>
      var f := s.frames[Top(s)];
      {Top(s)} + f.tasks + (if f.awaiter.Some? then {f.awaiter.value} else {})
  }

  /** No action of any run uses a frame after its destruction. */
  lemma NeverUsedAfterwards(actions: seq<Action>, t: State, a: Action)
    requires Reaches(START, actions, t) && Enabled(t, a)
    ensures forall c :: c in Touched(t, a) ==> c < |t.frames| && c !in t.destroys
  {
    RunsKeep(START, actions, t);
    if t.stack != [] {
      TopRuns(t);
    }
    forall c | c in Touched(t, a)
      ensures c < |t.frames| && c !in t.destroys
    {
      if c < |t.frames| {
        assert FrameOk(t, c);
      }
    }
  }

  /** A detached frame never has an awaiter, so final_suspend never destroys one. */
  lemma DetachedHasNoAwaiter(actions: seq<Action>, t: State, c: nat)
    requires Reaches(START, actions, t) && c < |t.frames|
    requires t.frames[c].resState == Detached && c !in t.destroys
    ensures t.frames[c].awaiter == None
  {
    RunsKeep(START, actions, t);
    assert FrameOk(t, c);
  }

  /**
    Any frame in any run: its co_awaits have given, in order, exactly the values which the children
    it named co_returned. Only the last may still be open, and then the child has not ended yet.
   */
  lemma AwaitsGiveWhatWasReturned(actions: seq<Action>, t: State, p: nat)
    requires Reaches(START, actions, t) && p < |t.frames|
    ensures var f := t.frames[p];
            && |f.got| <= |f.asked| <= |f.got| + 1
            && (forall i :: 0 <= i < |f.got| ==>
                  f.asked[i] < |t.frames| && t.frames[f.asked[i]].returned == Some(f.got[i]))
            && (|f.asked| > |f.got| ==>
                  var child := f.asked[|f.got|];
                  f.at == AtTask(child) && child < |t.frames| && t.frames[child].returned == None)
  {
    RunsKeep(START, actions, t);
    assert FrameOk(t, p);
    if t.frames[p].at.AtTask? {
      assert FrameOk(t, t.frames[p].at.child);
    }
  }

  /** The step in which an awaited child ends hands its value to the parent at once, and the result is set. */
  lemma ReturnWakesParent(actions: seq<Action>, t: State, v: int)
    requires Reaches(START, actions, t) && Enabled(t, Return(v))
    requires t.frames[Top(t)].awaiter.Some?
    ensures var child, p := Top(t), t.frames[Top(t)].awaiter.value;
            var u := Next(t, Return(v));
            && t.frames[p].at == AtTask(child)
            && u.frames[p].at == Running && u.stack != [] && Top(u) == p
            && u.frames[p].got == t.frames[p].got + [v]
            && u.frames[child].resState == Res && u.frames[child].at == Final
  {
    var child, p := Top(t), t.frames[Top(t)].awaiter.value;
    assert Returned(t, child, v, Next(t, Return(v))) && t.frames[child].resState != Detached by {
      RunsKeep(START, actions, t);
      TopRuns(t);
      ReturnToAwaiter(t, v);
    }
    assert p < child && p !in t.frames[child].tasks && t.frames[p].at == AtTask(child) by {
      RunsKeep(START, actions, t);
      TopRuns(t);
      assert FrameOk(t, p);
    }
  }

  // --------------------------------------------------------------- the objects

  /** Taking one more element, below all those taken, makes the list one longer. */
  lemma {:induction false} ListedTo(cs: set<nat>, more: set<nat>, i: nat, n: nat)
    requires i < n && (forall c :: c in cs ==> c > i) && more == cs + {i}
    ensures Listed(more, n) == Listed(cs, n) + [i]
  {
    if n - 1 > i {
      ListedTo(cs, more, i, n - 1);
    } else {
      NoneListed(cs, n);
      NoneListed(more, n - 1);
    }
  }

  lemma {:induction false} NoneListed(cs: set<nat>, n: nat)
    requires forall c :: c in cs ==> c >= n
    ensures Listed(cs, n) == []
  {
    if n > 0 {
      NoneListed(cs, n - 1);
    }
  }

  lemma DoomedStep(frames: seq<Frame>, cs: set<nat>, i: nat)
    requires i < |frames|
    ensures Doomed(frames, cs, i) == Doomed(frames, cs, i + 1) + (if i in cs && Done(frames[i]) then {i} else {})
  {
  }

  /** The heap of frames and the call stack as the program changes them. */
  class Runtime {
    var frames: seq<Frame>
    var stack: seq<Activation>
    var temp: Option<nat>
    ghost var destroys: seq<nat>

    ghost function Now(): State
      reads this
    {
      State(frames, stack, temp, destroys)
    }

    constructor ()
      ensures Now() == START && Inv(Now())
    {
      frames, stack, temp, destroys := [], [], None, [];
    }

    method DestroyFrame(c: nat)
      requires c < |frames|
      modifies this
      ensures Now() == Destroy(old(Now()), c)
    {
      frames := frames[c := frames[c].(at := Destroyed, owner := Nobody)];
      destroys := destroys + [c];
    }

    /** ~io_uring_task */
    method DestroyTask(c: nat)
      requires c < |frames|
      modifies this
      ensures frames == old(frames)[c := Dropped(old(frames[c]), true)] && stack == old(stack) && temp == old(temp)
      ensures destroys == old(destroys) + (if Done(old(frames[c])) then [c] else [])
    {
      if frames[c].at != Final {
        frames := frames[c := frames[c].(resState := Detached, owner := Nobody)];
      } else {
        DestroyFrame(c);
      }
    }

    /** The end of a scope: the task objects in it are destroyed one by one, the newest first. */
    method DestroyLocals(locals: set<nat>)
      modifies this
      ensures Now() == DropAll(old(Now()), locals)
    {
      var i := |frames|;
      ghost var s, n := Now(), |frames|;
      NoneListed(Doomed(s.frames, locals, n), n);
      while i > 0
        invariant 0 <= i <= n == |frames|
        invariant stack == s.stack && temp == s.temp
        invariant forall c :: 0 <= c < n ==> frames[c] == Dropped(s.frames[c], c in locals && c >= i)
        invariant destroys == s.destroys + Listed(Doomed(s.frames, locals, i), n)
      {
        ghost var before, after := Doomed(s.frames, locals, i), Doomed(s.frames, locals, i - 1);
        i := i - 1;
        if i in locals {
          DestroyTask(i);
        }
        DoomedStep(s.frames, locals, i);
        if i in locals && Done(s.frames[i]) {
          ListedTo(before, after, i, n);
        } else {
          assert after == before;
        }
      }
      assert frames == DropAll(s, locals).frames;
    }

    /** The top activation ends; control falls back to the next body below. */
    method Leave()
      requires stack != []
      modifies this
      ensures Now() == Pop(old(Now()))
    {
      stack := stack[..|stack| - 1];
      while stack != [] && stack[|stack| - 1].Epilogue?
        invariant Unwind(stack) == Unwind(old(stack)[..|old(stack)| - 1])
        invariant frames == old(frames) && temp == old(temp) && destroys == old(destroys)
        decreases |stack|
      {
        stack := stack[..|stack| - 1];
      }
    }

    /** final_awaiter::await_suspend */
    method SuspendFinally(f: nat)
      requires f < |frames| && stack != []
      requires frames[f].awaiter.Some? ==> frames[f].awaiter.value < |frames|
      modifies this
      ensures Now() == FinalSuspend(old(Now()), f)
    {
      var promise := frames[f];
      if promise.resState == Detached {
        if promise.awaiter.Some? {
          DestroyFrame(promise.awaiter.value);
        }
        DestroyFrame(f);
        Leave();
      } else if promise.awaiter.Some? {
        var p := promise.awaiter.value;
        frames := frames[p := frames[p].(at := Running, got := frames[p].got + [promise.res])];
        stack := stack[|stack| - 1 := Epilogue(f)] + [Body(p)];
      } else {
        Leave();
      }
    }

    method ReturnFrom(f: nat, v: int)
      requires f < |frames| && stack != []
      requires frames[f].awaiter.Some? ==> frames[f].awaiter.value < |frames|
      modifies this
      ensures Now() == CoReturn(old(Now()), f, v)
    {
      var locals := frames[f].tasks;
      if frames[f].resState != Detached {
        frames := frames[f := frames[f].(resState := Res, res := v)];
      }
      frames := frames[f := frames[f].(returned := Some(v), tasks := {})];
      assert frames == old(frames)[f := ReturnValue(old(frames[f]), v).(tasks := {})];
      DestroyLocals(locals);
      frames := frames[f := frames[f].(at := Final)];
      SuspendFinally(f);
    }

    method AwaitTaskOf(f: nat, c: nat)
      requires f < |frames| && c < |frames| && stack != []
      modifies this
      ensures Now() == CoAwait(old(Now()), f, c)
      // await_ready: the result at once, or suspension with the awaiter set.
      ensures old(frames[c].resState) == Res ==>
        && stack == old(stack) && frames[f].at == old(frames[f].at)
        && frames[f].got == old(frames[f].got) + [old(frames[c].res)]
      ensures old(frames[c].resState) != Res ==>
        && |stack| < |old(stack)| && frames[c].awaiter == Some(f)
        && (c != f ==> frames[f].at == AtTask(c) && frames[f].got == old(frames[f].got))
    {
      var ready, res := frames[c].resState == Res, frames[c].res;
      var asking := frames[f].(asked := frames[f].asked + [c]);
      if ready {
        frames := frames[f := Give(asking, res)];
      } else {
        frames := frames[f := asking.(at := AtTask(c))];
        frames := frames[c := frames[c].(awaiter := Some(f))];
        Leave();
      }
    }

    /** What run() does between resumptions. */
    method LoopStep(a: Action)
      requires Inv(Now()) && Enabled(Now(), a) && (a.LoopSpawn? || a.LoopDrop? || a.LoopResume?)
      modifies this
      ensures Now() == Next(old(Now()), a) && Inv(Now())
    {
      StepKeeps(Now(), a);
      match a
      case LoopSpawn =>
        temp := Some(|frames|);
        stack := stack + [Body(|frames|)];
        frames := frames + [FRESH];
      case LoopDrop =>
        DestroyLocals({temp.value});
        temp := None;
      case LoopResume(f) =>
        frames, stack := frames[f := frames[f].(at := Running)], [Body(f)];
    }

    /** What the running coroutine does. */
    method BodyStep(a: Action)
      requires Inv(Now()) && Enabled(Now(), a) && stack != []
      modifies this
      ensures Now() == Next(old(Now()), a) && Inv(Now())
    {
      StepKeeps(Now(), a);
      var f := stack[|stack| - 1].f;
      match a
      case Spawn =>
        var c := |frames|;
        frames := frames[f := frames[f].(tasks := frames[f].tasks + {c})];
        stack := stack + [Body(c)];
        frames := frames + [FRESH.(owner := ByFrame(f))];
      case AwaitIo =>
        frames := frames[f := frames[f].(at := AtIo)];
        Leave();
      case AwaitTask(c) => AwaitTaskOf(f, c);
      case DropTask(c) =>
        frames := frames[f := frames[f].(tasks := frames[f].tasks - {c})];
        DestroyLocals({c});
      case Return(v) => ReturnFrom(f, v);
    }
  }
}
