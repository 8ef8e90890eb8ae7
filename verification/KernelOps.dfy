/**
  The kernel's side of one slot: what each submitted operation may do and how a chain of linked
  operations runs. An outcome is the kernel's choice; every statement is about all choices.
 */
module KernelOps {
  import opened Bytes
  import opened FuseKernel

  datatype Buf = HeaderBuf | ScratchBuf | HeapBuf

  datatype Op =
    | FuseToPipe(len: nat)                  // splice a request from the fuse fd into the pipe
    | ReadPipe(buf: Buf, at: nat, len: nat) // read from the pipe into memory
    | WritePipe(buf: Buf, len: nat)         // write the start of a buffer into the pipe
    | FileToPipe(off: nat, len: nat)        // splice from the backing file into the pipe
    | PipeToFile(off: nat, len: nat)        // splice from the pipe into the backing file
    | PipeToFuse(len: nat)                  // splice a reply from the pipe to the fuse fd

  /** IOSQE_IO_LINK, IOSQE_IO_HARDLINK or neither. */
  datatype Link = Soft | Hard | NoLink

  datatype Sqe = Sqe(op: Op, link: Link)

  /** One operation on the backing file, with the file before and after it. */
  datatype Commit = Commit(write: bool, off: nat, data: seq<byte>, before: seq<byte>, after: seq<byte>)

  /** A slot: its pipe, its memory, and what it has received, sent and done to the backing file. */
  datatype Slot = Slot(
    pipe: seq<byte>, header: seq<byte>, scratch: seq<byte>, heap: seq<byte>,
    request: seq<byte>, replies: seq<seq<byte>>, commits: seq<Commit>)

  /**
    The kernel's choice for one operation: the completion value, the contents of the backing file at
    that moment (other slots work on it too), the request delivered, and `junk`: what a failed reply
    leaves in the pipe, or the memory behind a buffer that a write runs past.
   */
  datatype Outcome = Outcome(res: int, file: seq<byte>, request: seq<byte>, junk: seq<byte>)

  function BufOf(s: Slot, b: Buf): seq<byte> {
    match b
    case HeaderBuf => s.header
    case ScratchBuf => s.scratch
    case HeapBuf => s.heap
  }

  function WithBuf(s: Slot, b: Buf, v: seq<byte>): Slot {
    match b
    case HeaderBuf => s.(header := v)
    case ScratchBuf => s.(scratch := v)
    case HeapBuf => s.(heap := v)
  }

  predicate InBounds(s: Slot, op: Op) {
    match op
    case ReadPipe(b, at, len) => at + len <= |BufOf(s, b)|
    case _ => true
  }

  function Max(a: int, b: int): int { if a < b then b else a }

  /** The bytes data put into the file at offset off, zero-filling a gap behind the end. */
  function Overwrite(file: seq<byte>, off: nat, data: seq<byte>): (r: seq<byte>)
    ensures data != [] ==> |r| == Max(|file|, off + |data|)
    ensures data == [] ==> r == file
    ensures forall i :: 0 <= i < |data| ==> off + i < |r| && r[off + i] == data[i]
    ensures forall i :: 0 <= i < |file| && !(off <= i < off + |data|) ==> r[i] == file[i]
  {
    if data == [] then file
    else
      var wide := if |file| < off + |data| then file + Zeros(off + |data| - |file|) else file;
      Patch(wide, off, data)
  }

  /** The n bytes from the start of a buffer on; `beyond` is whatever memory lies behind the buffer. */
  function Written(buf: seq<byte>, beyond: seq<byte>, n: nat): (w: seq<byte>)
    requires n <= |buf| + |beyond|
    ensures |w| == n && w[..if n <= |buf| then n else |buf|] == buf[..if n <= |buf| then n else |buf|]
  {
    if n <= |buf| then buf[..n] else buf + beyond[..n - |buf|]
  }

  /** What the fuse fd takes from one splice: a splice of no bytes sends no message. */
  function Message(b: seq<byte>): seq<seq<byte>> { if b == [] then [] else [b] }

  /** Completion values are 32-bit; nothing moves more than was asked for or is there. */
  predicate Possible(s: Slot, op: Op, o: Outcome)
    requires InBounds(s, op)
  {
    && -0x8000_0000 <= o.res < 0x8000_0000
    && (o.res >= 0 ==>
      match op
      case FuseToPipe(len) => o.res == |o.request| && o.res <= len && WellFormed(o.request)
      case ReadPipe(_, _, len) => o.res <= len && o.res <= |s.pipe|
      case WritePipe(b, len) => o.res <= len && o.res <= |BufOf(s, b)| + |o.junk|
      case FileToPipe(off, len) => o.res <= len && (o.res > 0 ==> off + o.res <= |o.file|)
      case PipeToFile(_, len) => o.res <= len && o.res <= |s.pipe|
      case PipeToFuse(len) => o.res <= len && o.res <= |s.pipe|)
  }

  /**
    The effect of one operation. A failed one moves nothing, except that a failed splice to the fuse
    fd may have emptied or changed the pipe.
   */
  function Exec(s: Slot, op: Op, o: Outcome): Slot
    requires InBounds(s, op) && Possible(s, op, o)
  {
    if o.res < 0 then
      if op.PipeToFuse? then s.(pipe := o.junk) else s
    else
      match op
      case FuseToPipe(_) => s.(pipe := s.pipe + o.request, request := o.request)
      case ReadPipe(b, at, _) =>
        WithBuf(s, b, Patch(BufOf(s, b), at, s.pipe[..o.res])).(pipe := s.pipe[o.res..])
      case WritePipe(b, _) => s.(pipe := s.pipe + Written(BufOf(s, b), o.junk, o.res))
      case FileToPipe(off, _) =>
        var data := if o.res > 0 then o.file[off..off + o.res] else [];
        s.(pipe := s.pipe + data, commits := s.commits + [Commit(false, off, data, o.file, o.file)])
      case PipeToFile(off, _) =>
        var data := s.pipe[..o.res];
        var c := Commit(true, off, data, o.file, Overwrite(o.file, off, data));
        s.(pipe := s.pipe[o.res..], commits := s.commits + [c])
      case PipeToFuse(_) => s.(pipe := s.pipe[o.res..], replies := s.replies + Message(s.pipe[..o.res]))
  }

  /**
    What makes a task give up: no whole header delivered, nothing read, or a part of a reply that does
    not move its full length. A short splice into the backing file does not; it is answered.
   */
  predicate Fails(op: Op, res: int) {
    match op
    case FuseToPipe(_) => res < IN_HEADER_SIZE
    case ReadPipe(_, _, _) => res <= 0
    case PipeToFile(_, _) => false
    case _ => res != op.len
  }

  /** A soft link is severed by a result that is not the full length; a hard link never is. */
  predicate Severs(e: Sqe, res: int) {
    e.link.Soft? && res != e.op.len
  }

  predicate PossibleChain(s: Slot, chain: seq<Sqe>, outs: seq<Outcome>)
    decreases |chain|
  {
    |chain| == |outs| &&
    (chain != [] ==>
      && InBounds(s, chain[0].op) && Possible(s, chain[0].op, outs[0])
      && (Severs(chain[0], outs[0].res) ||
          PossibleChain(Exec(s, chain[0].op, outs[0]), chain[1..], outs[1..])))
  }

  /** The slot after a chain and the completion values, in chain order. */
  function ExecChain(s: Slot, chain: seq<Sqe>, outs: seq<Outcome>): (r: (Slot, seq<int>))
    requires PossibleChain(s, chain, outs)
    ensures |r.1| == |chain|
    decreases |chain|
  {
    if chain == [] then (s, [])
    else
      var s1 := Exec(s, chain[0].op, outs[0]);
      if Severs(chain[0], outs[0].res) then (s1, [outs[0].res] + Cancelled(|chain| - 1))
      else
        var rest := ExecChain(s1, chain[1..], outs[1..]);
        (rest.0, [outs[0].res] + rest.1)
  }

  /** How many operations of a chain failed; those behind a severed link were not performed. */
  function Failures(chain: seq<Sqe>, outs: seq<Outcome>): nat
    requires |chain| == |outs|
    decreases |chain|
  {
    if chain == [] then 0
    else
      (if Fails(chain[0].op, outs[0].res) then 1 else 0)
      + (if Severs(chain[0], outs[0].res) then 0 else Failures(chain[1..], outs[1..]))
  }

  function Cancelled(n: nat): (r: seq<int>)
    ensures |r| == n && forall i :: 0 <= i < n ==> r[i] == -ECANCELED
  {
    seq(n, _ => -ECANCELED)
  }

  /** The head of a chain runs first; the rest runs on what it leaves, unless it severs the chain. */
  lemma UnrollChain(s: Slot, e: Sqe, rest: seq<Sqe>, outs: seq<Outcome>)
    requires PossibleChain(s, [e] + rest, outs)
    ensures |outs| == 1 + |rest| && InBounds(s, e.op) && Possible(s, e.op, outs[0])
    ensures !Severs(e, outs[0].res) ==>
      && PossibleChain(Exec(s, e.op, outs[0]), rest, outs[1..])
      && ExecChain(s, [e] + rest, outs) ==
         (ExecChain(Exec(s, e.op, outs[0]), rest, outs[1..]).0,
          [outs[0].res] + ExecChain(Exec(s, e.op, outs[0]), rest, outs[1..]).1)
    ensures Severs(e, outs[0].res) ==>
      ExecChain(s, [e] + rest, outs) == (Exec(s, e.op, outs[0]), [outs[0].res] + Cancelled(|rest|))
    ensures Failures([e] + rest, outs) ==
      (if Fails(e.op, outs[0].res) then 1 else 0) + (if Severs(e, outs[0].res) then 0 else Failures(rest, outs[1..]))
  {
    assert ([e] + rest)[1..] == rest;
  }

  lemma SingleOp(s: Slot, e: Sqe, outs: seq<Outcome>)
    requires PossibleChain(s, [e], outs)
    ensures |outs| == 1 && InBounds(s, e.op) && Possible(s, e.op, outs[0])
    ensures ExecChain(s, [e], outs) == (Exec(s, e.op, outs[0]), [outs[0].res])
    ensures Failures([e], outs) == if Fails(e.op, outs[0].res) then 1 else 0
  {
    assert [e] == [e] + [];
    UnrollChain(s, e, [], outs);
    assert [outs[0].res] + [] == [outs[0].res] && [outs[0].res] + Cancelled(0) == [outs[0].res];
  }

  /** A chain of three whose first two operations move their full length runs to its end. */
  lemma {:induction false} ThreeOps(s: Slot, a: Sqe, b: Sqe, c: Sqe, outs: seq<Outcome>)
    requires PossibleChain(s, [a, b, c], outs)
    requires var rcs := ExecChain(s, [a, b, c], outs).1;
      rcs[0] == a.op.len && rcs[1] == b.op.len
    ensures |outs| == 3
    ensures InBounds(s, a.op) && Possible(s, a.op, outs[0])
    ensures var s1 := Exec(s, a.op, outs[0]);
      && InBounds(s1, b.op) && Possible(s1, b.op, outs[1])
      && var s2 := Exec(s1, b.op, outs[1]);
      && InBounds(s2, c.op) && Possible(s2, c.op, outs[2])
      && ExecChain(s, [a, b, c], outs) == (Exec(s2, c.op, outs[2]), [outs[0].res, outs[1].res, outs[2].res])
  {
    var rcs := ExecChain(s, [a, b, c], outs).1;
    assert [a, b, c] == [a] + [b, c] && [b, c] == [b] + [c];
    UnrollChain(s, a, [b, c], outs);
    assert rcs[0] == outs[0].res;
    var s1 := Exec(s, a.op, outs[0]);
    UnrollChain(s1, b, [c], outs[1..]);
    assert rcs[1] == outs[1].res;
    var s2 := Exec(s1, b.op, outs[1]);
    assert outs[1..][1..] == outs[2..] && outs[2..][0] == outs[2];
    SingleOp(s2, c, outs[2..]);
    assert [outs[0].res] + ([outs[1].res] + [outs[2].res]) == [outs[0].res, outs[1].res, outs[2].res];
  }
}
