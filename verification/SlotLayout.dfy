/**
  How fuseuring_run lays out the slots, and what that buys: an operation a slot submits, described
  to the kernel by file numbers and addresses, changes nothing of any other slot. It may read another
  slot's memory: a reply longer than the scratch buffer goes on with those of the slots behind.
 */
module SlotLayout {
  import opened Bytes
  import opened FuseKernel
  import opened KernelOps

  /** An open file of the process. */
  datatype File = Backing | PipeRead(i: nat) | PipeWrite(i: nat) | FuseDev(i: nat)

  /** struct FuseIo: registered file numbers and addresses within the two registered buffers. */
  datatype FuseIoSlot = FuseIoSlot(fuseFd: nat, pipeR: nat, pipeW: nat, headerBuf: nat, scratchBuf: nat)

  const BACKING_FD: nat := 0

  function SlotAt(i: nat): FuseIoSlot {
    FuseIoSlot(3 * i + 3, 3 * i + 1, 3 * i + 2, HEADER_BUF_SIZE * i, SCRATCH_BUF_SIZE * i)
  }

  /** The registered file table of n slots. */
  ghost predicate Registered(fixedFds: seq<File>, n: nat) {
    && |fixedFds| == 1 + 3 * n && fixedFds[BACKING_FD] == Backing
    && forall i :: 0 <= i < n ==>
         && fixedFds[SlotAt(i).pipeR] == PipeRead(i)
         && fixedFds[SlotAt(i).pipeW] == PipeWrite(i)
         && fixedFds[SlotAt(i).fuseFd] == FuseDev(i)
  }

  /** The set-up loop; making a pipe, sizing it or cloning the fuse fd may fail. */
  method SetUpSlots(n: nat) returns (rc: int, ios: seq<FuseIoSlot>, fixedFds: seq<File>)
    ensures rc in {0, 11, 12, 13}
    ensures rc == 0 ==> |ios| == n && Registered(fixedFds, n) && forall i :: 0 <= i < n ==> ios[i] == SlotAt(i)
  {
    ios, fixedFds := [], [Backing];
    var headerBuf, scratchBuf := 0, 0;
    var i := 0;
    while i < n
      invariant 0 <= i <= n && |ios| == i && Registered(fixedFds, i)
      invariant forall k :: 0 <= k < i ==> ios[k] == SlotAt(k)
      invariant headerBuf == HEADER_BUF_SIZE * i && scratchBuf == SCRATCH_BUF_SIZE * i
    {
      var made: bool, sized: bool, cloned: bool := *, *, *;
      if !made {
        return 11, ios, fixedFds;
      }
      if !sized {
        return 12, ios, fixedFds;
      }
      fixedFds := fixedFds + [PipeRead(i)];
      var r := |fixedFds| - 1;
      fixedFds := fixedFds + [PipeWrite(i)];
      var w := |fixedFds| - 1;
      if !cloned {
        return 13, ios, fixedFds;
      }
      ios := ios + [FuseIoSlot(|fixedFds|, r, w, headerBuf, scratchBuf)];
      fixedFds := fixedFds + [FuseDev(i)];
      headerBuf := headerBuf + HEADER_BUF_SIZE;
      scratchBuf := scratchBuf + SCRATCH_BUF_SIZE;
      i := i + 1;
    }
    rc := 0;
  }

  /** The regions of different slots do not meet, lie inside the registered buffers, and no file is shared. */
  lemma SlotsDisjoint(n: nat, i: nat, j: nat)
    requires i < n && j < n && i != j
    ensures
      var a, b := SlotAt(i), SlotAt(j);
      && (a.headerBuf + HEADER_BUF_SIZE <= b.headerBuf || b.headerBuf + HEADER_BUF_SIZE <= a.headerBuf)
      && (a.scratchBuf + SCRATCH_BUF_SIZE <= b.scratchBuf || b.scratchBuf + SCRATCH_BUF_SIZE <= a.scratchBuf)
      && a.headerBuf + HEADER_BUF_SIZE <= HEADER_BUF_SIZE * n
      && a.scratchBuf + SCRATCH_BUF_SIZE <= SCRATCH_BUF_SIZE * n
      && {a.fuseFd, a.pipeR, a.pipeW} !! {b.fuseFd, b.pipeR, b.pipeW}
      && BACKING_FD !in {a.fuseFd, a.pipeR, a.pipeW}
  {
  }

  // ------------------------------------------------------ the kernel's view

  /** An operation as submitted: file numbers, offsets (-1 for none) and addresses. */
  datatype Request =
    | Splice(fdIn: nat, offIn: int, fdOut: nat, offOut: int, len: nat)
    | ReadFixed(fd: nat, bufIndex: nat, at: nat, len: nat)
    | WriteFixed(fd: nat, bufIndex: nat, at: nat, len: nat)

  /** What the handlers prepare for slot i when they mean op. */
  function Prepare(i: nat, op: Op): Request
    requires op.ReadPipe? || op.WritePipe? ==> op.buf != HeapBuf
  {
    var s := SlotAt(i);
    match op
    case FuseToPipe(len) => Splice(s.fuseFd, -1, s.pipeW, -1, len)
    case ReadPipe(b, at, len) =>
      if b == HeaderBuf then ReadFixed(s.pipeR, 0, s.headerBuf + at, len)
      else ReadFixed(s.pipeR, 1, s.scratchBuf + at, len)
    case WritePipe(b, len) =>
      if b == HeaderBuf then WriteFixed(s.pipeW, 0, s.headerBuf, len) else WriteFixed(s.pipeW, 1, s.scratchBuf, len)
    case FileToPipe(off, len) => Splice(BACKING_FD, off, s.pipeW, -1, len)
    case PipeToFile(off, len) => Splice(s.pipeR, -1, BACKING_FD, off, len)
    case PipeToFuse(len) => Splice(s.pipeR, -1, s.fuseFd, -1, len)
  }

  /** One entry of the history of the backing file: which slot's pipe was on the other end. */
  datatype Logged = Logged(slot: nat, commit: Commit)

  /** The kernel objects and the memory of all slots. */
  datatype World = World(
    file: seq<byte>, log: seq<Logged>, pipes: seq<seq<byte>>,
    headers: seq<byte>, scratch: seq<byte>,
    requests: seq<seq<byte>>, replies: seq<seq<seq<byte>>>)

  ghost predicate Sized(w: World, n: nat) {
    && |w.pipes| == |w.requests| == |w.replies| == n
    && |w.headers| == HEADER_BUF_SIZE * n && |w.scratch| == SCRATCH_BUF_SIZE * n
  }

  /** The file numbers of a request are valid, and the memory that a read fills. */
  ghost predicate Resolves(w: World, fds: seq<File>, r: Request) {
    match r
    case Splice(fi, oi, fo, oo, _) => fi < |fds| && fo < |fds| && InOfSplice(fds[fi], oi) && OutOfSplice(fds[fo], oo)
        && (fds[fi].Backing? ==> fds[fo].PipeWrite?) && (fds[fi].FuseDev? ==> fds[fo].PipeWrite?)
        && FileIn(w, fds[fi]) && FileIn(w, fds[fo])
    case ReadFixed(fd, b, at, len) => fd < |fds| && fds[fd].PipeRead? && FileIn(w, fds[fd]) && at + len <= |Memory(w, b)|
    case WriteFixed(fd, _, _, _) => fd < |fds| && fds[fd].PipeWrite? && FileIn(w, fds[fd])
  }

  predicate InOfSplice(f: File, off: int) { if f.Backing? then off >= 0 else off == -1 && !f.PipeWrite? }

  predicate OutOfSplice(f: File, off: int) { if f.Backing? then off >= 0 else off == -1 && !f.PipeRead? }

  predicate FileIn(w: World, f: File) {
    f.Backing? || (f.i < |w.pipes| && f.i < |w.requests| && f.i < |w.replies|)
  }

  function Memory(w: World, bufIndex: nat): seq<byte> { if bufIndex == 0 then w.headers else w.scratch }

  function WithMemory(w: World, bufIndex: nat, m: seq<byte>): World {
    if bufIndex == 0 then w.(headers := m) else w.(scratch := m)
  }

  /** How many bytes a request may move. A write from memory outside the registered buffer is refused. */
  ghost predicate MayMove(w: World, fds: seq<File>, r: Request, o: Outcome)
    requires Resolves(w, fds, r)
  {
    && -0x8000_0000 <= o.res < 0x8000_0000 && o.file == w.file
    && (o.res >= 0 ==>
      && o.res <= r.len
      && match r
         case Splice(fi, oi, fo, oo, _) =>
           (match fds[fi]
            case Backing => o.res > 0 ==> oi + o.res <= |w.file|
            case PipeRead(i) => o.res <= |w.pipes[i]|
            case PipeWrite(_) => true
            case FuseDev(i) => o.res == |o.request| && WellFormed(o.request))
         case ReadFixed(fd, _, _, _) => o.res <= |w.pipes[fds[fd].i]|
         case WriteFixed(_, b, at, len) => at + len <= |Memory(w, b)|)
  }

  /** The kernel carries out a request on the open files and the registered memory. */
  ghost function Act(w: World, fds: seq<File>, r: Request, o: Outcome): World
    requires Resolves(w, fds, r) && MayMove(w, fds, r, o)
  {
    match r
    case Splice(fi, oi, fo, oo, _) =>
      (match fds[fi]
       case FuseDev(i) =>
         if o.res < 0 then w
         else
           var p := fds[fo].i;
           w.(pipes := w.pipes[p := w.pipes[p] + o.request], requests := w.requests[i := o.request])
       case Backing =>
         if o.res < 0 then w
         else
           var p := fds[fo].i;
           var data := if o.res > 0 then w.file[oi..oi + o.res] else [];
           w.(pipes := w.pipes[p := w.pipes[p] + data],
              log := w.log + [Logged(p, Commit(false, oi, data, w.file, w.file))])
       case PipeRead(p) =>
         if fds[fo].Backing? then
           if o.res < 0 then w
           else
             var data := w.pipes[p][..o.res];
             var after := Overwrite(w.file, oo, data);
             w.(pipes := w.pipes[p := w.pipes[p][o.res..]], file := after,
                log := w.log + [Logged(p, Commit(true, oo, data, w.file, after))])
         else if fds[fo].FuseDev? then
           if o.res < 0 then w.(pipes := w.pipes[p := o.junk])
           else
             w.(pipes := w.pipes[p := w.pipes[p][o.res..]],
                replies := w.replies[fds[fo].i := w.replies[fds[fo].i] + Message(w.pipes[p][..o.res])])
         else w
       case PipeWrite(_) => w)
    case ReadFixed(fd, b, at, _) =>
      if o.res < 0 then w
      else
        var p := fds[fd].i;
        WithMemory(w, b, Patch(Memory(w, b), at, w.pipes[p][..o.res])).(pipes := w.pipes[p := w.pipes[p][o.res..]])
    case WriteFixed(fd, b, at, _) =>
      if o.res < 0 then w
      else
        var p := fds[fd].i;
        w.(pipes := w.pipes[p := w.pipes[p] + Memory(w, b)[at..at + o.res]])
  }

  // -------------------------------------------------------- one slot's part

  /** The part of the world that belongs to slot i. */
  function View(w: World, n: nat, i: nat): Slot
    requires i < n && |w.pipes| == |w.requests| == |w.replies| == n
    requires |w.headers| == HEADER_BUF_SIZE * n && |w.scratch| == SCRATCH_BUF_SIZE * n
  {
    Slot(w.pipes[i], w.headers[HEADER_BUF_SIZE * i..HEADER_BUF_SIZE * i + HEADER_BUF_SIZE],
         w.scratch[SCRATCH_BUF_SIZE * i..SCRATCH_BUF_SIZE * i + SCRATCH_BUF_SIZE], [],
         w.requests[i], w.replies[i], [])
  }

  /** From w to w2, slot i's part became v and nothing else changed but the file, by the commits of v. */
  ghost predicate OnlySlot(w: World, w2: World, n: nat, i: nat, v: Slot)
    requires i < n && Sized(w, n)
  {
    && Sized(w2, n)
    && View(w2, n, i) == v.(commits := [])
    && (forall j :: 0 <= j < n && j != i ==> View(w2, n, j) == View(w, n, j))
    && (if v.commits == [] then w2.log == w.log && w2.file == w.file
        else
          && |v.commits| == 1 && w2.log == w.log + [Logged(i, v.commits[0])]
          && v.commits[0].before == w.file && w2.file == v.commits[0].after)
  }

  function RegionSize(b: Buf): nat { if b == HeaderBuf then HEADER_BUF_SIZE else SCRATCH_BUF_SIZE }

  /** The registered memory in which all slots have their buffers of one kind. */
  function Regions(w: World, b: Buf): seq<byte> { Memory(w, if b == HeaderBuf then 0 else 1) }

  /** A write that ends inside the registered memory; `junk` is what lies there behind the slot's buffer. */
  ghost predicate RunsOver(w: World, i: nat, b: Buf, len: nat, o: Outcome) {
    var m, size := Regions(w, b), RegionSize(b);
    size * i + len <= |m| && size * i + size <= |m| && o.junk == m[size * i + size..]
  }

  /**
    What a slot may submit: any operation on its own pipe, buffers and fuse fd, or on the file. A write
    longer than the slot's buffer moves something only if the registered buffer is long enough, and
    then goes on with the memory behind.
   */
  ghost predicate Submits(w: World, fds: seq<File>, n: nat, i: nat, op: Op, o: Outcome)
  {
    && i < n && Sized(w, n) && Registered(fds, n)
    && (op.ReadPipe? || op.WritePipe? ==> op.buf != HeapBuf)
    && (op.WritePipe? && o.res >= 0 ==> op.len <= RegionSize(op.buf) || RunsOver(w, i, op.buf, op.len, o))
    && InBounds(View(w, n, i), op) && o.file == w.file && Possible(View(w, n, i), op, o)
  }

  /**
    The frame theorem: what slot i submits acts on its own part exactly as the one-slot semantics
    says, leaves every other slot's part alone, and reaches the shared file only by the commits of
    that semantics.
   */
  lemma ActsOnOwnSlot(w: World, fds: seq<File>, n: nat, i: nat, op: Op, o: Outcome)
    requires Submits(w, fds, n, i, op, o)
    ensures Resolves(w, fds, Prepare(i, op)) && MayMove(w, fds, Prepare(i, op), o)
    ensures OnlySlot(w, Act(w, fds, Prepare(i, op), o), n, i, Exec(View(w, n, i), op, o))
  {
    match op {
      case ReadPipe(b, at, len) =>
        if b == HeaderBuf {
          ReadsOwnHeader(w, fds, n, i, at, len, o);
        } else {
          ReadsOwnScratch(w, fds, n, i, at, len, o);
        }
      case WritePipe(b, len) => WritesOwnPipe(w, fds, n, i, b, len, o);
      case FuseToPipe(_) => SplicesRequest(w, fds, n, i, op, o);
      case FileToPipe(_, _) => SplicesFromFile(w, fds, n, i, op, o);
      case PipeToFile(_, _) => SplicesToFile(w, fds, n, i, op, o);
      case PipeToFuse(_) => SplicesReply(w, fds, n, i, op, o);
    }
  }

  lemma SplicesRequest(w: World, fds: seq<File>, n: nat, i: nat, op: Op, o: Outcome)
    requires Submits(w, fds, n, i, op, o) && op.FuseToPipe?
    ensures Resolves(w, fds, Prepare(i, op)) && MayMove(w, fds, Prepare(i, op), o)
    ensures OnlySlot(w, Act(w, fds, Prepare(i, op), o), n, i, Exec(View(w, n, i), op, o))
  {
    OwnFiles(fds, n, i);
  }

  lemma SplicesFromFile(w: World, fds: seq<File>, n: nat, i: nat, op: Op, o: Outcome)
    requires Submits(w, fds, n, i, op, o) && op.FileToPipe?
    ensures Resolves(w, fds, Prepare(i, op)) && MayMove(w, fds, Prepare(i, op), o)
    ensures OnlySlot(w, Act(w, fds, Prepare(i, op), o), n, i, Exec(View(w, n, i), op, o))
  {
    OwnFiles(fds, n, i);
  }

  lemma SplicesToFile(w: World, fds: seq<File>, n: nat, i: nat, op: Op, o: Outcome)
    requires Submits(w, fds, n, i, op, o) && op.PipeToFile?
    ensures Resolves(w, fds, Prepare(i, op)) && MayMove(w, fds, Prepare(i, op), o)
    ensures OnlySlot(w, Act(w, fds, Prepare(i, op), o), n, i, Exec(View(w, n, i), op, o))
  {
    OwnFiles(fds, n, i);
  }

  lemma SplicesReply(w: World, fds: seq<File>, n: nat, i: nat, op: Op, o: Outcome)
    requires Submits(w, fds, n, i, op, o) && op.PipeToFuse?
    ensures Resolves(w, fds, Prepare(i, op)) && MayMove(w, fds, Prepare(i, op), o)
    ensures OnlySlot(w, Act(w, fds, Prepare(i, op), o), n, i, Exec(View(w, n, i), op, o))
  {
    OwnFiles(fds, n, i);
  }

  lemma OwnFiles(fds: seq<File>, n: nat, i: nat)
    requires Registered(fds, n) && i < n
    ensures var a := SlotAt(i);
      fds[a.pipeR] == PipeRead(i) && fds[a.pipeW] == PipeWrite(i) && fds[a.fuseFd] == FuseDev(i)
  {
  }

  /** What lies from the start of region i on is the region, then what lies behind it. */
  lemma WrittenFrom(m: seq<byte>, start: nat, size: nat, beyond: seq<byte>, n: nat)
    requires start + size <= |m| && start + n <= |m|
    requires n <= size || beyond == m[start + size..]
    ensures n <= size + |beyond| && Written(m[start..start + size], beyond, n) == m[start..start + n]
  {
    if n <= size {
      SubSlice(m, start, size, 0, n);
    } else {
      assert m[start + size..][..n - size] == m[start + size..start + n];
      assert m[start..start + size] + m[start + size..start + n] == m[start..start + n];
    }
  }

  /** What a write puts into the pipe, by addresses and by the one-slot semantics. */
  lemma WriteMoves(w: World, fds: seq<File>, n: nat, i: nat, b: Buf, len: nat, o: Outcome)
    requires Submits(w, fds, n, i, WritePipe(b, len), o) && o.res >= 0
    ensures var m, start := Regions(w, b), RegionSize(b) * i;
      && start + len <= |m|
      && Exec(View(w, n, i), WritePipe(b, len), o)
         == View(w, n, i).(pipe := w.pipes[i] + m[start..start + o.res])
  {
    var m, size := Regions(w, b), RegionSize(b);
    var v := View(w, n, i);
    assert size * i + size <= |m|;
    assert BufOf(v, b) == m[size * i..size * i + size];
    WrittenFrom(m, size * i, size, o.junk, o.res);
  }

  lemma WriteActs(w: World, fds: seq<File>, n: nat, i: nat, b: Buf, len: nat, o: Outcome)
    requires Submits(w, fds, n, i, WritePipe(b, len), o)
    ensures var r, m, start := Prepare(i, WritePipe(b, len)), Regions(w, b), RegionSize(b) * i;
      && Resolves(w, fds, r) && MayMove(w, fds, r, o)
      && (if o.res < 0 then Act(w, fds, r, o) == w
          else
            && start + o.res <= |m|
            && Act(w, fds, r, o) == w.(pipes := w.pipes[i := w.pipes[i] + m[start..start + o.res]]))
  {
    OwnFiles(fds, n, i);
    if o.res >= 0 {
      WriteMoves(w, fds, n, i, b, len, o);
    }
  }

  lemma WritesOwnPipe(w: World, fds: seq<File>, n: nat, i: nat, b: Buf, len: nat, o: Outcome)
    requires Submits(w, fds, n, i, WritePipe(b, len), o)
    ensures Resolves(w, fds, Prepare(i, WritePipe(b, len))) && MayMove(w, fds, Prepare(i, WritePipe(b, len)), o)
    ensures OnlySlot(w, Act(w, fds, Prepare(i, WritePipe(b, len)), o), n, i, Exec(View(w, n, i), WritePipe(b, len), o))
  {
    WriteActs(w, fds, n, i, b, len, o);
    if o.res >= 0 {
      WriteMoves(w, fds, n, i, b, len, o);
      var start := RegionSize(b) * i;
      TakesOwnPipe(w, n, i, w.pipes[i] + Regions(w, b)[start..start + o.res]);
    }
  }

  /**
    The bytes of a reply of any length: byte k lies in the scratch buffer of the slot k / 4096 places
    further on, so one longer than 4096 bytes sends what other slots' buffers hold.
   */
  lemma ReplySpansSlots(w: World, fds: seq<File>, n: nat, i: nat, len: nat, o: Outcome, k: nat)
    requires Submits(w, fds, n, i, WritePipe(ScratchBuf, len), o) && k < o.res
    ensures var op := WritePipe(ScratchBuf, len);
      && Resolves(w, fds, Prepare(i, op)) && MayMove(w, fds, Prepare(i, op), o)
      && var p := Act(w, fds, Prepare(i, op), o).pipes[i];
      && |p| == |w.pipes[i]| + o.res && p[..|w.pipes[i]|] == w.pipes[i]
      && i + k / SCRATCH_BUF_SIZE < n
      && p[|w.pipes[i]| + k] == View(w, n, i + k / SCRATCH_BUF_SIZE).scratch[k % SCRATCH_BUF_SIZE]
  {
    WriteActs(w, fds, n, i, ScratchBuf, len, o);
    WriteMoves(w, fds, n, i, ScratchBuf, len, o);
    PlaceInRegions(i, k, n);
  }

  lemma PlaceInRegions(i: nat, k: nat, n: nat)
    requires SCRATCH_BUF_SIZE * i + k < SCRATCH_BUF_SIZE * n
    ensures i + k / SCRATCH_BUF_SIZE < n
    ensures SCRATCH_BUF_SIZE * i + k == SCRATCH_BUF_SIZE * (i + k / SCRATCH_BUF_SIZE) + k % SCRATCH_BUF_SIZE
  {
  }

  lemma ReadsOwnHeader(w: World, fds: seq<File>, n: nat, i: nat, at: nat, len: nat, o: Outcome)
    requires Submits(w, fds, n, i, ReadPipe(HeaderBuf, at, len), o)
    ensures var op := ReadPipe(HeaderBuf, at, len);
      && Resolves(w, fds, Prepare(i, op)) && MayMove(w, fds, Prepare(i, op), o)
      && OnlySlot(w, Act(w, fds, Prepare(i, op), o), n, i, Exec(View(w, n, i), op, o))
  {
    OwnFiles(fds, n, i);
    if o.res >= 0 {
      var got := w.pipes[i][..o.res];
      var w1 := w.(headers := Patch(w.headers, HEADER_BUF_SIZE * i + at, got));
      PokesOwnHeader(w, n, i, at, got);
      TakesOwnPipe(w1, n, i, w.pipes[i][o.res..]);
      assert Act(w, fds, Prepare(i, ReadPipe(HeaderBuf, at, len)), o) == w1.(pipes := w.pipes[i := w.pipes[i][o.res..]]);
    }
  }

  lemma ReadsOwnScratch(w: World, fds: seq<File>, n: nat, i: nat, at: nat, len: nat, o: Outcome)
    requires Submits(w, fds, n, i, ReadPipe(ScratchBuf, at, len), o)
    ensures var op := ReadPipe(ScratchBuf, at, len);
      && Resolves(w, fds, Prepare(i, op)) && MayMove(w, fds, Prepare(i, op), o)
      && OnlySlot(w, Act(w, fds, Prepare(i, op), o), n, i, Exec(View(w, n, i), op, o))
  {
    OwnFiles(fds, n, i);
    if o.res >= 0 {
      var got := w.pipes[i][..o.res];
      var w1 := w.(scratch := Patch(w.scratch, SCRATCH_BUF_SIZE * i + at, got));
      PokesOwnScratch(w, n, i, at, got);
      TakesOwnPipe(w1, n, i, w.pipes[i][o.res..]);
      assert Act(w, fds, Prepare(i, ReadPipe(ScratchBuf, at, len)), o) == w1.(pipes := w.pipes[i := w.pipes[i][o.res..]]);
    }
  }

  /** Storing into slot i's scratch buffer, by its coroutine or for it. */
  lemma PokesOwnScratch(w: World, n: nat, i: nat, at: nat, b: seq<byte>)
    requires i < n && Sized(w, n) && at + |b| <= SCRATCH_BUF_SIZE
    ensures SCRATCH_BUF_SIZE * i + SCRATCH_BUF_SIZE <= |w.scratch|
    ensures
      var w2, v := w.(scratch := Patch(w.scratch, SCRATCH_BUF_SIZE * i + at, b)), View(w, n, i);
      && Sized(w2, n) && View(w2, n, i) == v.(scratch := Patch(v.scratch, at, b))
      && forall j :: 0 <= j < n && j != i ==> View(w2, n, j) == View(w, n, j)
  {
    RegionPatch(w.scratch, SCRATCH_BUF_SIZE, n, i, at, b);
  }

  lemma PokesOwnHeader(w: World, n: nat, i: nat, at: nat, b: seq<byte>)
    requires i < n && Sized(w, n) && at + |b| <= HEADER_BUF_SIZE
    ensures HEADER_BUF_SIZE * i + HEADER_BUF_SIZE <= |w.headers|
    ensures
      var w2, v := w.(headers := Patch(w.headers, HEADER_BUF_SIZE * i + at, b)), View(w, n, i);
      && Sized(w2, n) && View(w2, n, i) == v.(header := Patch(v.header, at, b))
      && forall j :: 0 <= j < n && j != i ==> View(w2, n, j) == View(w, n, j)
  {
    RegionPatch(w.headers, HEADER_BUF_SIZE, n, i, at, b);
  }

  lemma TakesOwnPipe(w: World, n: nat, i: nat, p: seq<byte>)
    requires i < n && Sized(w, n)
    ensures
      var w2 := w.(pipes := w.pipes[i := p]);
      && Sized(w2, n) && View(w2, n, i) == View(w, n, i).(pipe := p)
      && forall j :: 0 <= j < n && j != i ==> View(w2, n, j) == View(w, n, j)
  {
  }

  /** Writing inside region i of a buffer of n equal regions changes that region only. */
  lemma RegionPatch(m: seq<byte>, size: nat, n: nat, i: nat, at: nat, b: seq<byte>)
    requires i < n && |m| == size * n && at + |b| <= size
    requires size == HEADER_BUF_SIZE || size == SCRATCH_BUF_SIZE
    ensures size * i + size <= |m|
    ensures Patch(m, size * i + at, b)[size * i..size * i + size] == Patch(m[size * i..size * i + size], at, b)
    ensures forall j :: 0 <= j < n && j != i ==>
      size * j + size <= |m| && Patch(m, size * i + at, b)[size * j..size * j + size] == m[size * j..size * j + size]
  {
    forall j | 0 <= j < n && j != i
      ensures size * j + size <= |m|
      ensures Patch(m, size * i + at, b)[size * j..size * j + size] == m[size * j..size * j + size]
    {
      PatchFrame(m, size * i + at, b, size * j, size * j + size);
    }
    PatchFacts(m, size * i + at, b);
    PatchFacts(m[size * i..size * i + size], at, b);
    var l := Patch(m, size * i + at, b)[size * i..size * i + size];
    var r := Patch(m[size * i..size * i + size], at, b);
    assert forall k :: 0 <= k < size ==> l[k] == r[k];
  }
}
