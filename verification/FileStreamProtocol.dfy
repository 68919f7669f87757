/**
 * The asynchronous protocol around FileStream::Context on Windows: what the client, the
 * worker pool and the I/O completion port may do, and when an operation is over. An
 * operation is over when nothing it started is still outstanding; which of the context's
 * flags record that is the business of FileStreamContext.dfy.
 */
module FileStreamProtocol {
  import opened Basics
  import opened Words

  const ERROR_HANDLE_EOF := 38
  const ERROR_IO_PENDING := 997

  datatype Kind = OpenOp | CloseOp | SeekOp(target: int) | FlushOp | ReadOp | WriteOp

  /** What the worker pool posts back to the origin thread once its task has run. */
  datatype Reply =
    | Done(result: int)
    | Opened(valid: bool, result: int)
    | ReadFileReturned(ok: bool, bytes: nat, error: int)
  {
    /** Windows queues an I/O completion exactly in these two cases. */
    predicate Completes() {
      ReadFileReturned? && (ok || error == ERROR_IO_PENDING)
    }
  }

  /**
   * Notifications still on their way: a task the worker has not run, a reply not yet
   * delivered, an I/O completion not yet delivered (with the byte count ReadFile already
   * reported for it, if it did).
   */
  datatype Outstanding = Outstanding(task: bool, reply: Option<Reply>, io: Option<Option<nat>>) {
    predicate Quiet() {
      !task && reply.None? && io.None?
    }
  }

  const NOTHING := Outstanding(false, None, None)

  datatype Operation = Operation(id: nat, kind: Kind)

  datatype Call = Call(id: nat, result: int)

  datatype World = World(
    fileValid: bool,
    orphaned: bool,
    offset: nat,                // the OVERLAPPED offset, an unsigned 64-bit number
    op: Option<Operation>,      // the asynchronous operation in progress
    result: int,                // what its callback would be given
    env: Outstanding,
    started: nat,               // asynchronous operations begun so far
    calls: seq<Call>,           // user callbacks run so far
    teardowns: nat,             // calls of CloseAndDelete
    closing: bool)              // the file close posted by CloseAndDelete has not run

  datatype Event =
    | Start(kind: Kind)                    // Open, Close, Seek, Flush or Read is called
    | StartWrite(accepted: bool)           // Write is called; WriteFile succeeds or is pending
    | WorkerRan(reply: Reply)
    | ReplyArrives
    | IoArrives(bytes: nat, error: int)
    | OrphanCalled
    | OwnedCloseRuns

  function Created(fileValid: bool): World {
    World(fileValid, false, 0, None, 0, NOTHING, 0, [], 0, false)
  }

  /** What the worker task of an operation can report. */
  predicate Fits(kind: Kind, reply: Reply) {
    match kind
    case OpenOp => reply.Opened? && (reply.valid ==> reply.result == 0)
    case CloseOp => reply == Done(0)
    case SeekOp(target) => reply == Done(target)
    case FlushOp => reply.Done?
    case ReadOp => reply.ReadFileReturned?
    case WriteOp => false
  }

  /** The client's and the system's obligations. */
  predicate Enabled(w: World, e: Event) {
    match e
    case Start(kind) => !w.orphaned && w.op.None? && kind != WriteOp
    case StartWrite(_) => !w.orphaned && w.op.None?
    case WorkerRan(reply) => w.env.task && w.op.Some? && Fits(w.op.value.kind, reply)
    case ReplyArrives => w.env.reply.Some?
    case IoArrives(bytes, error) =>
      w.env.io.Some? && (error == 0 && w.env.io.value.Some? ==> bytes == w.env.io.value.value)
    case OrphanCalled => !w.orphaned
    case OwnedCloseRuns => w.closing
  }

  /** The result an I/O completion stands for. */
  function Outcome(mapError: int -> int, bytes: nat, error: int): int {
    if error == ERROR_HANDLE_EOF then 0 else if error != 0 then mapError(error) else bytes
  }

  function ReplyResult(mapError: int -> int, reply: Reply, result: int): int {
    match reply
    case Done(r) => r
    case Opened(_, r) => r
    case ReadFileReturned(ok, bytes, error) =>
      if ok then bytes else if error == ERROR_IO_PENDING then result else Outcome(mapError, 0, error)
  }

  function TearDown(w: World): World {
    w.(teardowns := w.teardowns + 1, closing := w.fileValid)
  }

  /** Ends the operation once nothing is outstanding: by its callback, or by teardown if orphaned. */
  function Settle(w: World): World {
    if !w.env.Quiet() || w.op.None? then w
    else if w.orphaned then TearDown(w.(op := None))
    else w.(op := None, calls := w.calls + [Call(w.op.value.id, w.result)])
  }

  function Begin(w: World, kind: Kind, env: Outstanding): World {
    w.(op := Some(Operation(w.started, kind)), started := w.started + 1, result := 0, env := env)
  }

  function Next(mapError: int -> int, w: World, e: Event): World
    requires Enabled(w, e)
  {
    match e
    case Start(kind) => Begin(w, kind, NOTHING.(task := true))
    case StartWrite(accepted) => if accepted then Begin(w, WriteOp, NOTHING.(io := Some(None))) else w
    case WorkerRan(reply) =>
      var io := if reply.Completes() then Some(if reply.ok then Some(reply.bytes) else None) else None;
      w.(env := Outstanding(false, Some(reply), io),
         fileValid := w.fileValid && w.op.value.kind != CloseOp,
         offset := if w.op.value.kind.SeekOp? then w.op.value.kind.target % TWO_TO_THE_64 else w.offset)
    case ReplyArrives =>
      var reply := w.env.reply.value;
      Settle(w.(env := w.env.(reply := None),
                fileValid := if reply.Opened? then reply.valid else w.fileValid,
                result := ReplyResult(mapError, reply, w.result)))
    case IoArrives(bytes, error) =>
      Settle(w.(env := w.env.(io := None),
                result := Outcome(mapError, bytes, error),
                offset := if !w.orphaned && error == 0 then (w.offset + bytes) % TWO_TO_THE_64 else w.offset))
    case OrphanCalled =>
      var w' := w.(orphaned := true);
      if w.op.None? then TearDown(w') else w'
    case OwnedCloseRuns => w.(closing := false, fileValid := false)
  }

  /** Runs a whole sequence of events; None if one of them breaks an obligation. */
  function Run(mapError: int -> int, w: World, es: seq<Event>): Option<World>
    decreases |es|
  {
    if es == [] then Some(w)
    else if !Enabled(w, es[0]) then None
    else Run(mapError, Next(mapError, w, es[0]), es[1..])
  }

  // ---- what every step keeps ----

  ghost predicate ReadStage(env: Outstanding, result: int) {
    if env.task then
      env == NOTHING.(task := true) && result == 0
    else if env.reply.Some? then
      env.reply.value.ReadFileReturned? &&
      (env.io.Some? || !env.reply.value.Completes() ==> result == 0) &&
      (env.io.Some? ==>
        env.reply.value.Completes() && env.io.value == if env.reply.value.ok then Some(env.reply.value.bytes) else None)
    else
      env.io.Some? && result == if env.io.value.Some? then env.io.value.value else 0
  }

  /** Exactly the notifications that an operation of this kind can have outstanding. */
  ghost predicate Stage(kind: Kind, env: Outstanding, result: int) {
    match kind
    case ReadOp => ReadStage(env, result)
    case WriteOp => env == NOTHING.(io := Some(None)) && result == 0
    case _ => env.io.None? && (env.task <==> env.reply.None?) && (env.reply.Some? ==> Fits(kind, env.reply.value))
  }

  ghost predicate Inv(w: World) {
    (w.op.None? ==> w.env == NOTHING) &&
    (w.op.Some? ==> Stage(w.op.value.kind, w.env, w.result) && w.op.value.id + 1 == w.started) &&
    w.teardowns == (if w.orphaned && w.op.None? then 1 else 0) &&
    (w.closing ==> w.teardowns == 1) &&
    w.offset < TWO_TO_THE_64 &&
    (forall i :: 0 <= i < |w.calls| ==> w.calls[i].id == i) &&
    |w.calls| <= w.started - (if w.op.Some? then 1 else 0) &&
    (!w.orphaned ==> |w.calls| == w.started - (if w.op.Some? then 1 else 0))
  }

  lemma StepKeepsInv(mapError: int -> int, w: World, e: Event)
    requires Inv(w) && Enabled(w, e)
    ensures Inv(Next(mapError, w, e))
  {
    var w' := Next(mapError, w, e);
    if w.calls != w'.calls {
      assert w'.calls == w.calls + [Call(w.op.value.id, w'.result)];
    }
  }

  lemma {:induction false} RunKeepsInv(mapError: int -> int, w: World, es: seq<Event>)
    requires Inv(w) && Run(mapError, w, es).Some?
    ensures Inv(Run(mapError, w, es).value)
    decreases |es|
  {
    if es != [] {
      StepKeepsInv(mapError, w, es[0]);
      RunKeepsInv(mapError, Next(mapError, w, es[0]), es[1..]);
    }
  }

  /**
   * Every run, from creation: operations finish in the order they began, each runs its
   * callback at most once; never orphaned and nothing outstanding means all callbacks have
   * run; orphaned and nothing outstanding means torn down once, and teardown happens only then.
   */
  lemma EveryRun(mapError: int -> int, fileValid: bool, es: seq<Event>)
    requires Run(mapError, Created(fileValid), es).Some?
    ensures var w := Run(mapError, Created(fileValid), es).value;
      && (forall i :: 0 <= i < |w.calls| ==> w.calls[i].id == i)
      && |w.calls| <= w.started
      && (!w.orphaned && w.env.Quiet() <==> !w.orphaned && |w.calls| == w.started)
      && w.teardowns <= 1
      && (w.teardowns == 1 <==> w.orphaned && w.env.Quiet())
  {
    RunKeepsInv(mapError, Created(fileValid), es);
  }

  predicate FromSystem(e: Event) {
    e.WorkerRan? || e.ReplyArrives? || e.IoArrives?
  }

  function Remaining(env: Outstanding): nat {
    (if env.task then 3 else 0) + (if env.reply.Some? then 1 else 0) + (if env.io.Some? then 1 else 0)
  }

  /**
   * While something is outstanding the system can deliver a notification, and every notification
   * it delivers brings the end of the operation nearer: no run of notifications exceeds three.
   */
  lemma {:induction false} SystemDrains(mapError: int -> int, w: World, es: seq<Event>)
    requires Inv(w) && (forall e :: e in es ==> FromSystem(e)) && Run(mapError, w, es).Some?
    ensures |es| <= Remaining(w.env) - Remaining(Run(mapError, w, es).value.env) <= 3
    ensures !w.env.Quiet() ==> exists e :: FromSystem(e) && Enabled(w, e)
    decreases |es|
  {
    if es != [] {
      assert es[0] in es;
      StepKeepsInv(mapError, w, es[0]);
      SystemDrains(mapError, Next(mapError, w, es[0]), es[1..]);
    }
    CanDeliver(w);
  }

  lemma CanDeliver(w: World)
    requires Inv(w)
    ensures !w.env.Quiet() ==> exists e :: FromSystem(e) && Enabled(w, e)
  {
    if w.env.task {
      var reply := match w.op.value.kind
        case OpenOp => Opened(false, 0)
        case SeekOp(target) => Done(target)
        case ReadOp => ReadFileReturned(false, 0, 0)
        case _ => Done(0);
      assert Enabled(w, WorkerRan(reply)) && FromSystem(WorkerRan(reply));
    } else if w.env.reply.Some? {
      assert Enabled(w, ReplyArrives) && FromSystem(ReplyArrives);
    } else if w.env.io.Some? {
      assert Enabled(w, IoArrives(0, 1)) && FromSystem(IoArrives(0, 1));
    }
  }

  /** After Orphan no callback runs and no operation begins. */
  lemma {:induction false} NoCallAfterOrphan(mapError: int -> int, w: World, es: seq<Event>)
    requires w.orphaned && Run(mapError, w, es).Some?
    ensures Run(mapError, w, es).value.calls == w.calls
    ensures Run(mapError, w, es).value.started == w.started && Run(mapError, w, es).value.orphaned
    decreases |es|
  {
    if es != [] {
      NoCallAfterOrphan(mapError, Next(mapError, w, es[0]), es[1..]);
    }
  }

  /** Once torn down, nothing but the owned file close can still happen, and it happens once. */
  lemma {:induction false} NothingAfterTearDown(mapError: int -> int, w: World, es: seq<Event>)
    requires Inv(w) && w.teardowns == 1 && Run(mapError, w, es).Some?
    ensures es == [] || (es == [OwnedCloseRuns] && w.closing && !Run(mapError, w, es).value.fileValid)
    decreases |es|
  {
  }

  /**
   * A read whose completion and worker reply are both on their way ends in the same world
   * whichever arrives first, exactly when ReadFile had not reported success or reported what
   * the completion reports.
   */
  lemma ReadConfluence(mapError: int -> int, w: World, bytes: nat, error: int)
    requires Inv(w) && w.op.Some? && w.op.value.kind == ReadOp && !w.orphaned
    requires w.env.reply.Some? && Enabled(w, IoArrives(bytes, error))
    ensures Enabled(Next(mapError, w, ReplyArrives), IoArrives(bytes, error))
    ensures Enabled(Next(mapError, w, IoArrives(bytes, error)), ReplyArrives)
    ensures Next(mapError, Next(mapError, w, ReplyArrives), IoArrives(bytes, error)) ==
      Next(mapError, Next(mapError, w, IoArrives(bytes, error)), ReplyArrives)
      <==> (w.env.reply.value.ok ==> Outcome(mapError, bytes, error) == w.env.reply.value.bytes)
    ensures Next(mapError, Next(mapError, w, ReplyArrives), IoArrives(bytes, error)).calls ==
      w.calls + [Call(w.op.value.id, Outcome(mapError, bytes, error))]
  {
  }

  /** In particular the order never matters for a completion without an error. */
  lemma SuccessfulReadConfluence(mapError: int -> int, w: World, bytes: nat)
    requires Inv(w) && w.op.Some? && w.op.value.kind == ReadOp && !w.orphaned
    requires w.env.reply.Some? && Enabled(w, IoArrives(bytes, 0))
    ensures Enabled(Next(mapError, w, ReplyArrives), IoArrives(bytes, 0))
    ensures Enabled(Next(mapError, w, IoArrives(bytes, 0)), ReplyArrives)
    ensures Next(mapError, Next(mapError, w, ReplyArrives), IoArrives(bytes, 0)) ==
      Next(mapError, Next(mapError, w, IoArrives(bytes, 0)), ReplyArrives)
  {
    ReadConfluence(mapError, w, bytes, 0);
  }

  /** ReadFile reports 5 bytes and the completion the end of the file: the client is told what came last. */
  lemma ReadNotConfluent(mapError: int -> int)
    ensures var read := [Start(ReadOp), WorkerRan(ReadFileReturned(true, 5, 0))];
      var replyFirst := Run(mapError, Created(true), read + [ReplyArrives, IoArrives(0, ERROR_HANDLE_EOF)]);
      var ioFirst := Run(mapError, Created(true), read + [IoArrives(0, ERROR_HANDLE_EOF), ReplyArrives]);
      replyFirst.Some? && replyFirst.value.calls == [Call(0, 0)] &&
      ioFirst.Some? && ioFirst.value.calls == [Call(0, 5)]
  {
    var read := [Start(ReadOp), WorkerRan(ReadFileReturned(true, 5, 0))];
    var io := IoArrives(0, ERROR_HANDLE_EOF);
    var w := Next(mapError, Next(mapError, Created(true), read[0]), read[1]);
    RunPair(mapError, Created(true), read[0], read[1], [ReplyArrives, io]);
    RunPair(mapError, Created(true), read[0], read[1], [io, ReplyArrives]);
    RunPair(mapError, w, ReplyArrives, io, []);
    RunPair(mapError, w, io, ReplyArrives, []);
  }

  lemma RunPair(mapError: int -> int, w: World, e: Event, f: Event, rest: seq<Event>)
    requires Enabled(w, e) && Enabled(Next(mapError, w, e), f)
    ensures Run(mapError, w, [e, f] + rest) == Run(mapError, Next(mapError, Next(mapError, w, e), f), rest)
  {
    assert ([e, f] + rest)[1..] == [f] + rest && ([f] + rest)[1..] == rest;
  }

  /** Orphaned, both orders tear the context down in the same world with no condition at all. */
  lemma OrphanedReadConfluence(mapError: int -> int, w: World, bytes: nat, error: int)
    requires Inv(w) && w.op.Some? && w.op.value.kind == ReadOp && w.orphaned
    requires w.env.reply.Some? && Enabled(w, IoArrives(bytes, error))
    ensures Enabled(Next(mapError, w, ReplyArrives), IoArrives(bytes, error))
    ensures Enabled(Next(mapError, w, IoArrives(bytes, error)), ReplyArrives)
    ensures var w1 := Next(mapError, Next(mapError, w, ReplyArrives), IoArrives(bytes, error));
      var w2 := Next(mapError, Next(mapError, w, IoArrives(bytes, error)), ReplyArrives);
      w1.(result := 0) == w2.(result := 0) && w1.teardowns == 1
  {
  }

  // ---- what the callbacks are given ----

  /** The worker's last report in es. */
  function LastReply(es: seq<Event>): Option<Reply> {
    if es == [] then None
    else match es[|es| - 1]
      case WorkerRan(reply) => Some(reply)
      case _ => LastReply(es[..|es| - 1])
  }

  /** What the last I/O completion in es stands for. */
  function LastOutcome(mapError: int -> int, es: seq<Event>): Option<int> {
    if es == [] then None
    else match es[|es| - 1]
      case IoArrives(bytes, error) => Some(Outcome(mapError, bytes, error))
      case _ => LastOutcome(mapError, es[..|es| - 1])
  }

  /**
   * What the notifications in es have told about the operation that the last of them ends: the outcome of
   * a completion that comes last; otherwise what the worker reported, and for a read that was pending
   * when it reported, the outcome of the completion before.
   */
  function Told(mapError: int -> int, es: seq<Event>): Option<int> {
    if es == [] then None
    else if es[|es| - 1].IoArrives? then LastOutcome(mapError, es)
    else match LastReply(es)
      case None => None
      case Some(Done(result)) => Some(result)
      case Some(Opened(_, result)) => Some(result)
      case Some(ReadFileReturned(ok, bytes, error)) =>
        if ok then Some(bytes)
        else if error == ERROR_IO_PENDING then LastOutcome(mapError, es)
        else Some(Outcome(mapError, 0, error))
  }

  /** The world remembers what the events have told. */
  ghost predicate Remembers(mapError: int -> int, es: seq<Event>, w: World) {
    (w.env.reply.Some? ==> LastReply(es) == w.env.reply) &&
    (w.op.Some? && w.op.value.kind == ReadOp && w.env.reply.Some? && w.env.reply.value.Completes() && w.env.io.None? ==>
      LastOutcome(mapError, es) == Some(w.result))
  }

  /** A step after es either runs no callback, or runs the one of the operation in progress with what was told. */
  lemma StepTells(mapError: int -> int, es: seq<Event>, w: World, e: Event)
    requires Inv(w) && Remembers(mapError, es, w) && Enabled(w, e)
    ensures Remembers(mapError, es + [e], Next(mapError, w, e))
    ensures var calls := Next(mapError, w, e).calls;
      calls == w.calls ||
      (Told(mapError, es + [e]).Some? && calls == w.calls + [Call(|w.calls|, Told(mapError, es + [e]).value)] &&
       w.op.Some? && w.op.value.id == |w.calls|)
  {
    assert (es + [e])[..|es|] == es;
  }

  lemma {:induction false} RunAppend(mapError: int -> int, w: World, es: seq<Event>, e: Event)
    ensures Run(mapError, w, es + [e]) ==
      match Run(mapError, w, es)
      case None => None
      case Some(w') => if Enabled(w', e) then Some(Next(mapError, w', e)) else None
    decreases |es|
  {
    if es == [] {
      assert (es + [e])[1..] == [];
    } else {
      assert (es + [e])[1..] == es[1..] + [e];
      if Enabled(w, es[0]) {
        RunAppend(mapError, Next(mapError, w, es[0]), es[1..], e);
      }
    }
  }

  /** The b-th event starts operation i. */
  ghost predicate StartedAt(mapError: int -> int, fileValid: bool, es: seq<Event>, i: nat, b: nat) {
    b < |es| && (es[b].Start? || es[b].StartWrite?) &&
    var before, after := Run(mapError, Created(fileValid), es[..b]), Run(mapError, Created(fileValid), es[..b + 1]);
    before.Some? && after.Some? && before.value.started == i && after.value.started == i + 1
  }

  /** The world remembers what the events since the start of the operation in progress have told. */
  lemma {:induction false} RunRemembers(mapError: int -> int, fileValid: bool, es: seq<Event>) returns (b: nat)
    requires Run(mapError, Created(fileValid), es).Some?
    ensures var w := Run(mapError, Created(fileValid), es).value;
      Inv(w) &&
      (w.op.Some? ==> StartedAt(mapError, fileValid, es, w.op.value.id, b) && Remembers(mapError, es[b..], w))
  {
    hide Inv, Remembers, Next, Enabled;
    RunKeepsInv(mapError, Created(fileValid), es);
    b := 0;
    if es == [] {
      return;
    }
    var before, e := es[..|es| - 1], es[|es| - 1];
    assert es == before + [e] && es[..|es|] == es && es[..|before|] == before;
    RunAppend(mapError, Created(fileValid), before, e);
    var b0 := RunRemembers(mapError, fileValid, before);
    var w := Run(mapError, Created(fileValid), before).value;
    var w' := Next(mapError, w, e);
    StepOperation(mapError, w, e);
    if w'.started > w.started {
      b := |before|;
      assert es[b..] == [e];
    } else if w'.op.Some? {
      b := b0;
      StepTells(mapError, before[b..], w, e);
      assert es[b..] == before[b..] + [e];
      assert before[..b] == es[..b] && before[..b + 1] == es[..b + 1];
    }
  }

  /** An operation is started by its own event, and is otherwise the one already in progress. */
  lemma StepOperation(mapError: int -> int, w: World, e: Event)
    requires Inv(w) && Enabled(w, e)
    ensures var w' := Next(mapError, w, e);
      if w'.started > w.started then
        (e.Start? || e.StartWrite?) && w'.started == w.started + 1 && w'.op.Some? && w'.op.value.id == w.started &&
        Remembers(mapError, [e], w')
      else w'.started == w.started && (w'.op.Some? ==> w.op == w'.op)
  {
  }

  /**
   * Operation i is started by the b-th event, its callback runs at the k-th event, and it is given what the
   * events from its start on have told.
   */
  ghost predicate CalledAt(mapError: int -> int, fileValid: bool, es: seq<Event>, i: nat, call: Call, b: nat, k: nat) {
    StartedAt(mapError, fileValid, es, i, b) && b < k < |es| &&
    var before, after := Run(mapError, Created(fileValid), es[..k]), Run(mapError, Created(fileValid), es[..k + 1]);
    before.Some? && after.Some? && |before.value.calls| == i && after.value.calls == before.value.calls + [call] &&
    Told(mapError, es[b..k + 1]) == Some(call.result)
  }

  lemma CalledLater(mapError: int -> int, fileValid: bool, es: seq<Event>, e: Event, i: nat, call: Call, b: nat, k: nat)
    requires CalledAt(mapError, fileValid, es, i, call, b, k)
    ensures CalledAt(mapError, fileValid, es + [e], i, call, b, k)
  {
    var fs := es + [e];
    assert fs[..b] == es[..b] && fs[..b + 1] == es[..b + 1] && fs[..k] == es[..k] && fs[..k + 1] == es[..k + 1];
    assert fs[b..k + 1] == es[b..k + 1];
  }

  /** In every run, each callback is given what the notifications of its own operation reported. */
  lemma {:induction false} CallsTellWhatWasReported(mapError: int -> int, fileValid: bool, es: seq<Event>, i: nat)
    returns (b: nat, k: nat)
    requires Run(mapError, Created(fileValid), es).Some? && i < |Run(mapError, Created(fileValid), es).value.calls|
    ensures CalledAt(mapError, fileValid, es, i, Run(mapError, Created(fileValid), es).value.calls[i], b, k)
    decreases |es|
  {
    hide Inv, Remembers, Next, Enabled, CalledAt;
    if es == [] {
      assert false;
    }
    var before, e := es[..|es| - 1], es[|es| - 1];
    assert es == before + [e];
    RunAppend(mapError, Created(fileValid), before, e);
    var w := Run(mapError, Created(fileValid), before).value;
    if i < |w.calls| {
      b, k := CallsTellWhatWasReported(mapError, fileValid, before, i);
      CallsGrow(mapError, w, e);
      CalledLater(mapError, fileValid, before, e, i, w.calls[i], b, k);
    } else {
      b := RunRemembers(mapError, fileValid, before);
      k := |before|;
      CalledNow(mapError, fileValid, before, e, w, i, b);
    }
  }

  lemma CallsGrow(mapError: int -> int, w: World, e: Event)
    requires Enabled(w, e)
    ensures w.calls <= Next(mapError, w, e).calls
  {
  }

  /** The event that runs the callback of operation i. */
  lemma CalledNow(mapError: int -> int, fileValid: bool, es: seq<Event>, e: Event, w: World, i: nat, b: nat)
    requires Run(mapError, Created(fileValid), es) == Some(w) && Enabled(w, e) && Inv(w)
    requires w.op.Some? ==> StartedAt(mapError, fileValid, es, w.op.value.id, b) && Remembers(mapError, es[b..], w)
    requires |w.calls| <= i < |Next(mapError, w, e).calls|
    ensures CalledAt(mapError, fileValid, es + [e], i, Next(mapError, w, e).calls[i], b, |es|)
  {
    hide Inv, Remembers, Next, Enabled;
    CallsNeedOperation(mapError, w, e);
    StepTells(mapError, es[b..], w, e);
    RunAppend(mapError, Created(fileValid), es, e);
    var fs := es + [e];
    assert fs[..b] == es[..b] && fs[..b + 1] == es[..b + 1] && fs[..|es|] == es && fs[..|es| + 1] == fs;
    assert fs[b..|es| + 1] == es[b..] + [e];
  }

  lemma CallsNeedOperation(mapError: int -> int, w: World, e: Event)
    requires Inv(w) && Enabled(w, e)
    ensures |Next(mapError, w, e).calls| > |w.calls| ==> w.op.Some?
  {
  }

  // ---- the stored offset ----

  /** Bytes of the successful completions in es, up to the moment the context is orphaned. */
  function BytesMoved(es: seq<Event>, orphaned: bool): nat {
    if es == [] || orphaned then 0
    else
      (if es[0].IoArrives? && es[0].error == 0 then es[0].bytes else 0) + BytesMoved(es[1..], es[0] == OrphanCalled)
  }

  predicate NoSeek(es: seq<Event>) {
    forall e :: e in es ==> !(e.Start? && e.kind.SeekOp?)
  }

  lemma AddModulo(a: nat, b: nat)
    ensures (a % TWO_TO_THE_64 + b) % TWO_TO_THE_64 == (a + b) % TWO_TO_THE_64
  {
  }

  lemma StepOffset(mapError: int -> int, w: World, e: Event)
    requires Inv(w) && Enabled(w, e) && !(e.Start? && e.kind.SeekOp?)
    requires w.op.Some? ==> !w.op.value.kind.SeekOp?
    ensures var w' := Next(mapError, w, e);
      w'.offset == (w.offset + (if !w.orphaned && e.IoArrives? && e.error == 0 then e.bytes else 0)) % TWO_TO_THE_64 &&
      w'.orphaned == (w.orphaned || e == OrphanCalled) &&
      (w'.op.Some? ==> !w'.op.value.kind.SeekOp?)
  {
  }

  /** Between seeks the offset advances by exactly the bytes of the successful completions. */
  lemma {:induction false} OffsetIsBytesMoved(mapError: int -> int, w: World, es: seq<Event>)
    requires Inv(w) && NoSeek(es) && Run(mapError, w, es).Some?
    requires w.op.Some? ==> !w.op.value.kind.SeekOp?
    ensures Run(mapError, w, es).value.offset == (w.offset + BytesMoved(es, w.orphaned)) % TWO_TO_THE_64
    decreases |es|
  {
    hide Next, Enabled;
    if es != [] {
      var e, w' := es[0], Next(mapError, w, es[0]);
      assert e in es;
      StepKeepsInv(mapError, w, e);
      StepOffset(mapError, w, e);
      OffsetIsBytesMoved(mapError, w', es[1..]);
      var moved := if !w.orphaned && e.IoArrives? && e.error == 0 then e.bytes else 0;
      AddModulo(w.offset + moved, BytesMoved(es[1..], w'.orphaned));
    }
  }

  /** A seek that ran puts the offset at its target. */
  lemma SeekSetsOffset(mapError: int -> int, w: World, target: int)
    requires Inv(w) && Enabled(w, Start(SeekOp(target)))
    ensures var w' := Run(mapError, w, [Start(SeekOp(target)), WorkerRan(Done(target)), ReplyArrives]);
      w'.Some? && w'.value.offset == target % TWO_TO_THE_64 &&
      w'.value.calls == w.calls + [Call(w.started, target)] && Inv(w'.value)
  {
    var es := [Start(SeekOp(target)), WorkerRan(Done(target)), ReplyArrives];
    var w1 := Next(mapError, w, es[0]);
    var w2 := Next(mapError, w1, es[1]);
    var w3 := Next(mapError, w2, es[2]);
    assert es[1..][1..] == [ReplyArrives];
    assert Run(mapError, w2, [ReplyArrives]) == Some(w3);
    assert Run(mapError, w1, es[1..]) == Some(w3);
    RunKeepsInv(mapError, w, es);
  }
}
