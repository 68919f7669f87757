/**
 * FileStream::Context on Windows (base/file_stream_context.cc, base/file_stream_context_win.cc),
 * with its own flags. Each entry point is proved to move the world exactly as the protocol of
 * FileStreamProtocol.dfy says, whatever has arrived before. A callback is the number of the
 * operation it belongs to; last_operation_ and in_flight_buf_ are not modelled.
 */
module FileStreamContexts {
  import opened Basics
  import opened FileStreamProtocol
  import opened Words

  /** The two halves of an OVERLAPPED offset. */
  datatype Overlapped = Overlapped(low: nat, high: nat) {
    predicate Valid() {
      low < TWO_TO_THE_32 && high < TWO_TO_THE_32
    }

    function Quad(): nat {
      high * TWO_TO_THE_32 + low
    }
  }

  /** SetOffset through a LARGE_INTEGER whose QuadPart is q (two's complement for a negative q). */
  function SetOffset(q: int): (o: Overlapped)
    ensures o.Valid() && o.Quad() == q % TWO_TO_THE_64
  {
    var u := q % TWO_TO_THE_64;
    Overlapped(u % TWO_TO_THE_32, u / TWO_TO_THE_32)
  }

  function IncrementOffset(o: Overlapped, count: nat): (o': Overlapped)
    ensures o'.Valid() && o'.Quad() == (o.Quad() + count) % TWO_TO_THE_64
  {
    SetOffset(o.Quad() + count)
  }

  class Context {
    const mapError: int -> int      // MapSystemError

    var fileValid: bool
    var asyncInProgress: bool
    var orphaned: bool
    var callback: Option<nat>
    var overlapped: Overlapped
    var asyncReadInitiated: bool
    var asyncReadCompleted: bool
    var ioCompleteForReadReceived: bool
    var result: int

    // What the code has done so far.
    ghost var calls: seq<Call>      // user callbacks run
    ghost var teardowns: nat        // calls of CloseAndDelete
    ghost var closing: bool         // CloseAndDelete's posted close has not run

    ghost var world: World          // where the protocol stands

    /** How the flags record the stage of the operation in progress. */
    ghost predicate FlagsAgree()
      reads this
    {
      var op, env := world.op, world.env;
      var reading := op.Some? && op.value.kind == ReadOp;
      var transfer := op.Some? && (op.value.kind == ReadOp || op.value.kind == WriteOp);
      (asyncInProgress <==> op.Some?) &&
      callback == (if transfer then Some(op.value.id) else None) &&
      (asyncReadInitiated <==> reading) &&
      (asyncReadCompleted <==> reading && !env.task && env.reply.None?) &&
      (ioCompleteForReadReceived <==> reading && env.reply.Some? && env.reply.value.Completes() && env.io.None?) &&
      (transfer && !orphaned ==> result == world.result)
    }

    /** The context's own state and effects are those of the protocol. */
    ghost predicate Tracks()
      reads this
    {
      fileValid == world.fileValid && orphaned == world.orphaned &&
      overlapped.Valid() && overlapped.Quad() == world.offset &&
      calls == world.calls && teardowns == world.teardowns && closing == world.closing &&
      (teardowns == 0 ==> FlagsAgree())
    }

    ghost predicate Valid()
      reads this
    {
      Inv(world) && Tracks()
    }

    constructor (mapError: int -> int, fileValid: bool)
      ensures Valid() && world == Created(fileValid)
    {
      this.mapError := mapError;
      this.fileValid := fileValid;
      asyncInProgress, orphaned, callback := false, false, None;
      overlapped := Overlapped(0, 0);
      asyncReadInitiated, asyncReadCompleted, ioCompleteForReadReceived := false, false, false;
      result := 0;
      calls, teardowns, closing := [], 0, false;
      world := Created(fileValid);
    }

    ghost method Advance(e: Event)
      requires Inv(world) && Enabled(world, e)
      modifies this`world
      ensures Inv(world) && world == Next(mapError, old(world), e)
    {
      StepKeepsInv(mapError, world, e);
      world := Next(mapError, world, e);
    }

    // ---- internal steps, in terms of the flags ----

    method CloseAndDelete()
      requires !asyncInProgress
      modifies this`teardowns, this`closing
      ensures teardowns == old(teardowns) + 1 && closing == fileValid
    {
      teardowns := teardowns + 1;
      closing := fileValid;
    }

    method DeleteOrphanedContext()
      modifies this`asyncInProgress, this`callback, this`teardowns, this`closing
      ensures teardowns == old(teardowns) + 1 && closing == fileValid
    {
      asyncInProgress := false;
      callback := None;
      CloseAndDelete();
    }

    method IOCompletionIsPending(id: nat)
      requires callback.None?
      modifies this`callback, this`asyncInProgress
      ensures callback == Some(id) && asyncInProgress
    {
      callback := Some(id);
      asyncInProgress := true;
    }

    /** Runs the callback unless a read still lacks one of its two notifications. */
    method InvokeUserCallback()
      requires callback.Some?
      modifies this`asyncReadInitiated, this`ioCompleteForReadReceived, this`asyncReadCompleted,
               this`asyncInProgress, this`callback, this`calls
      ensures var wait := old(asyncReadInitiated && !(ioCompleteForReadReceived && asyncReadCompleted));
        if wait then
          calls == old(calls) && callback == old(callback) && asyncInProgress == old(asyncInProgress) &&
          asyncReadInitiated == old(asyncReadInitiated) && asyncReadCompleted == old(asyncReadCompleted) &&
          ioCompleteForReadReceived == old(ioCompleteForReadReceived)
        else
          calls == old(calls) + [Call(old(callback).value, result)] && callback.None? && !asyncReadInitiated &&
          asyncInProgress == (old(asyncInProgress) && !old(asyncReadInitiated)) &&
          (if old(asyncReadInitiated) then !asyncReadCompleted && !ioCompleteForReadReceived
           else asyncReadCompleted == old(asyncReadCompleted) &&
                ioCompleteForReadReceived == old(ioCompleteForReadReceived))
    {
      if asyncReadInitiated {
        if !ioCompleteForReadReceived || !asyncReadCompleted {
          return;
        }
        asyncReadInitiated := false;
        ioCompleteForReadReceived := false;
        asyncReadCompleted := false;
        asyncInProgress := false;
      }
      var temp := callback;
      callback := None;
      calls := calls + [Call(temp.value, result)];
    }

    /** The notification handler; what it decides depends on the flags only. */
    method OnIOCompleted(bytes: nat, error: int)
      requires callback.Some? && asyncInProgress && overlapped.Valid()
      requires !orphaned && error == 0 && result != 0 ==> result == bytes
      modifies this`asyncInProgress, this`ioCompleteForReadReceived, this`asyncReadInitiated, this`asyncReadCompleted,
               this`callback, this`result, this`overlapped, this`calls, this`teardowns, this`closing
      ensures overlapped.Valid()
      ensures old(orphaned) ==> overlapped == old(overlapped) && calls == old(calls)
      ensures !old(orphaned) ==> teardowns == old(teardowns) && closing == old(closing)
      ensures !old(orphaned) ==> result == Outcome(mapError, bytes, error)
      ensures !old(orphaned) ==>
        overlapped.Quad() ==
        if error == 0 then (old(overlapped).Quad() + bytes) % TWO_TO_THE_64 else old(overlapped).Quad()
      ensures var wait := old(asyncReadInitiated && !asyncReadCompleted);
        if wait then
          calls == old(calls) && teardowns == old(teardowns) && closing == old(closing) && callback == old(callback) &&
          asyncInProgress && asyncReadInitiated && !asyncReadCompleted && ioCompleteForReadReceived
        else if orphaned then
          teardowns == old(teardowns) + 1 && closing == fileValid
        else
          calls == old(calls) + [Call(old(callback).value, result)] && callback.None? && !asyncInProgress &&
          !asyncReadInitiated &&
          (if old(asyncReadInitiated) then !asyncReadCompleted && !ioCompleteForReadReceived
           else asyncReadCompleted == old(asyncReadCompleted) &&
                ioCompleteForReadReceived == old(ioCompleteForReadReceived))
    {
      if !asyncReadInitiated {
        asyncInProgress := false;
      }
      if orphaned {
        ioCompleteForReadReceived := true;
        if asyncReadInitiated && !asyncReadCompleted {
          return;
        }
        DeleteOrphanedContext();
        return;
      }
      if error == ERROR_HANDLE_EOF {
        result := 0;
      } else if error != 0 {
        result := mapError(error);
      } else {
        assert result != 0 ==> result == bytes;
        result := bytes;
        overlapped := IncrementOffset(overlapped, bytes);
      }
      if asyncReadInitiated {
        ioCompleteForReadReceived := true;
      }
      InvokeUserCallback();
    }

    /** Handles the worker's report of ReadFile; like OnIOCompleted it goes by the flags. */
    method ReadAsyncResult(ok: bool, bytes: nat, osError: int)
      requires callback.Some? && asyncInProgress && asyncReadInitiated && !asyncReadCompleted && overlapped.Valid()
      requires ioCompleteForReadReceived ==> ok || osError == ERROR_IO_PENDING
      requires !orphaned && !(ok || osError == ERROR_IO_PENDING) ==> result == 0
      modifies this`asyncInProgress, this`ioCompleteForReadReceived, this`asyncReadInitiated, this`asyncReadCompleted,
               this`callback, this`result, this`overlapped, this`calls, this`teardowns, this`closing
      ensures overlapped.Valid() && overlapped.Quad() == old(overlapped.Quad() % TWO_TO_THE_64)
      ensures !orphaned ==> result == ReplyResult(mapError, ReadFileReturned(ok, bytes, osError), old(result))
      ensures var done := old(ioCompleteForReadReceived) || !(ok || osError == ERROR_IO_PENDING);
        if !done then
          calls == old(calls) && teardowns == old(teardowns) && closing == old(closing) && callback == old(callback) &&
          asyncInProgress && asyncReadInitiated && asyncReadCompleted && !ioCompleteForReadReceived
        else if orphaned then
          calls == old(calls) && teardowns == old(teardowns) + 1 && closing == fileValid
        else
          calls == old(calls) + [Call(old(callback).value, result)] && callback.None? && !asyncInProgress &&
          !asyncReadInitiated && !asyncReadCompleted && !ioCompleteForReadReceived &&
          teardowns == old(teardowns) && closing == old(closing)
    {
      if orphaned && ioCompleteForReadReceived {
        DeleteOrphanedContext();
        return;
      }
      asyncReadCompleted := true;
      if ok {
        result := bytes;
        InvokeUserCallback();
        return;
      }
      if osError == ERROR_IO_PENDING {
        InvokeUserCallback();
      } else {
        OnIOCompleted(0, osError);
      }
    }

    method OnAsyncCompleted(id: nat, value: int)
      modifies this`asyncInProgress, this`calls, this`teardowns, this`closing
      ensures !asyncInProgress
      ensures orphaned ==> calls == old(calls) && teardowns == old(teardowns) + 1 && closing == fileValid
      ensures !orphaned ==>
        calls == old(calls) + [Call(id, value)] && teardowns == old(teardowns) && closing == old(closing)
    {
      asyncInProgress := false;
      if orphaned {
        CloseAndDelete();
      } else {
        calls := calls + [Call(id, value)];
      }
    }

    // ---- entry points ----

    method Orphan()
      requires Valid() && Enabled(world, OrphanCalled)
      modifies this
      ensures Valid() && world == Next(mapError, old(world), OrphanCalled)
    {
      orphaned := true;
      if !asyncInProgress {
        CloseAndDelete();
      }
      Advance(OrphanCalled);
    }

    /** Open, Close, Seek and Flush: a task is posted whose reply carries the callback. */
    method StartTask(kind: Kind)
      requires kind != ReadOp && Valid() && Enabled(world, Start(kind))
      modifies this
      ensures Valid() && world == Next(mapError, old(world), Start(kind))
    {
      asyncInProgress := true;
      Advance(Start(kind));
    }

    method Read(id: nat) returns (r: int)
      requires id == world.started && Valid() && Enabled(world, Start(ReadOp))
      modifies this
      ensures r == ERR_IO_PENDING
      ensures Valid() && world == Next(mapError, old(world), Start(ReadOp))
    {
      assert !asyncReadInitiated && !asyncReadCompleted && !ioCompleteForReadReceived;
      IOCompletionIsPending(id);
      asyncReadInitiated := true;
      result := 0;
      Advance(Start(ReadOp));
      r := ERR_IO_PENDING;
    }

    /**
     * WriteFile either succeeds or fails with an error. The call is asynchronous when it
     * succeeded or is pending, and ERR_IO_PENDING is what the client sees in these cases.
     */
    method Write(id: nat, ok: bool, osError: int) returns (r: int)
      requires id == world.started && Valid() && Enabled(world, StartWrite(ok || osError == ERROR_IO_PENDING))
      requires mapError(ERROR_IO_PENDING) == ERR_IO_PENDING
      modifies this
      ensures r == if ok || osError == ERROR_IO_PENDING then ERR_IO_PENDING else mapError(osError)
      ensures Valid() && world == Next(mapError, old(world), StartWrite(ok || osError == ERROR_IO_PENDING))
    {
      result := 0;
      r := ERR_IO_PENDING;
      if !ok {
        if osError == ERROR_IO_PENDING {
          IOCompletionIsPending(id);
        }
        r := mapError(osError);
      } else {
        IOCompletionIsPending(id);
      }
      Advance(StartWrite(ok || osError == ERROR_IO_PENDING));
    }

    /** The worker runs OpenFileImpl, CloseFileImpl, SeekFileImpl, FlushFileImpl or ReadAsync. */
    method RunOnWorker(kind: Kind, reply: Reply)
      requires Valid() && Enabled(world, WorkerRan(reply)) && world.op.value.kind == kind
      modifies this
      ensures Valid() && world == Next(mapError, old(world), WorkerRan(reply))
    {
      if kind == CloseOp {
        fileValid := false;
      }
      if kind.SeekOp? {
        overlapped := SetOffset(kind.target);
      }
      Advance(WorkerRan(reply));
    }

    /** The reply of Close, Seek or Flush arrives, carrying its callback. */
    method AsyncReply(id: nat, value: int)
      requires Valid() && world.env.reply == Some(Done(value)) && world.op.value.id == id
      modifies this
      ensures Valid() && world == Next(mapError, old(world), ReplyArrives)
    {
      OnAsyncCompleted(id, value);
      Advance(ReplyArrives);
    }

    /** The reply of Open arrives, carrying the file and its callback. */
    method OnOpenCompleted(id: nat, valid: bool, value: int)
      requires Valid() && world.env.reply == Some(Opened(valid, value)) && world.op.value.id == id
      modifies this
      ensures Valid() && world == Next(mapError, old(world), ReplyArrives)
    {
      fileValid := valid;
      OnAsyncCompleted(id, value);
      Advance(ReplyArrives);
    }

    /** The reply of ReadAsync arrives, before or after the completion of the same read. */
    method ReadReply(ok: bool, bytes: nat, osError: int)
      requires Valid() && world.env.reply == Some(ReadFileReturned(ok, bytes, osError))
      modifies this
      ensures Valid() && world == Next(mapError, old(world), ReplyArrives)
    {
      ReadAsyncResult(ok, bytes, osError);
      Advance(ReplyArrives);
    }

    /** The completion port delivers a packet for the outstanding read or write. */
    method IoCompletion(bytes: nat, error: int)
      requires Valid() && Enabled(world, IoArrives(bytes, error))
      modifies this
      ensures Valid() && world == Next(mapError, old(world), IoArrives(bytes, error))
    {
      OnIOCompleted(bytes, error);
      Advance(IoArrives(bytes, error));
    }

    /** The posted CloseFileImpl, which owns and then deletes the context. */
    method OwnedClose()
      requires Valid() && Enabled(world, OwnedCloseRuns)
      modifies this
      ensures Valid() && world == Next(mapError, old(world), OwnedCloseRuns)
    {
      fileValid := false;
      closing := false;
      Advance(OwnedCloseRuns);
    }
  }
}
