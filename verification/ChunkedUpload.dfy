/**
 * ChunkedUploadDataStream (base/chunked_upload_data_stream.cc) with the parts of its base class
 * UploadDataStream (base/upload_data_stream.cc) that a read passes through.
 */
module ChunkedUploads {
  import opened Basics
  import opened UploadData

  class ChunkedUploadStream {
    var uploadData: seq<seq<Byte>>
    var readIndex: nat
    var readOffset: nat
    var allDataAppended: bool
    var readBuffer: array?<Byte>
    var readBufferLen: nat
    var currentPosition: nat
    var initialized: bool
    var isEof: bool
    var callbackSet: bool
    /** The bytes handed out by reads that completed since the last reset. */
    ghost var delivered: seq<Byte>
    /** The results with which the callback has been run. */
    ghost var completions: seq<int>

    ghost predicate AtCursor()
      reads this
    {
      (forall i :: 0 <= i < |uploadData| ==> uploadData[i] != []) &&
      Cursor(uploadData, readIndex, readOffset) && (readIndex < |uploadData| ==> readOffset < |uploadData[readIndex]|)
    }

    ghost predicate Valid()
      reads this
    {
      AtCursor() && delivered == Before(uploadData, readIndex, readOffset) && currentPosition == |delivered| &&
      (isEof ==> initialized && allDataAppended && readIndex == |uploadData|) &&
      (callbackSet <==> readBuffer != null) &&
      (readBuffer != null ==> initialized && !allDataAppended && readIndex == |uploadData| &&
                              0 < readBufferLen <= readBuffer.Length)
    }

    constructor ()
      ensures Valid() && uploadData == [] && !allDataAppended && !initialized && !isEof && !callbackSet
      ensures delivered == [] && completions == []
    {
      uploadData, readIndex, readOffset, allDataAppended := [], 0, 0, false;
      readBuffer, readBufferLen, currentPosition := null, 0, 0;
      initialized, isEof, callbackSet := false, false, false;
      delivered, completions := [], [];
    }

    /** Whatever the order of appends, reads and resets, what has been delivered is how the upload begins. */
    lemma DeliveredIsPrefix()
      requires Valid()
      ensures delivered <= Flatten(uploadData)
      ensures isEof ==> allDataAppended && delivered == Flatten(uploadData)
      ensures callbackSet ==> delivered == Flatten(uploadData) && !allDataAppended && !isEof
    {
      BeforeIsPrefix(uploadData, readIndex, readOffset);
    }

    /** Rewinds: nothing appended is lost, and a read in progress is dropped without a callback. */
    method Reset()
      requires Valid()
      modifies this
      ensures Valid() && delivered == [] && !initialized && !isEof && !callbackSet
      ensures uploadData == old(uploadData) && allDataAppended == old(allDataAppended)
      ensures completions == old(completions)
    {
      hide Before;
      currentPosition, initialized, isEof, callbackSet := 0, false, false, false;
      NothingBefore(uploadData);
      readBuffer, readBufferLen := null, 0;
      readIndex, readOffset := 0, 0;
      delivered := [];
    }

    method Init() returns (result: int)
      requires Valid()
      modifies this
      ensures Valid() && result == OK && initialized && delivered == [] && !isEof && !callbackSet
      ensures uploadData == old(uploadData) && allDataAppended == old(allDataAppended)
      ensures completions == old(completions)
    {
      Reset();
      initialized := true;
      result := OK;
    }

    /** One round of the copy loop. */
    method CopyFromChunk(buf: array<Byte>, bufLen: nat, bytesRead: nat) returns (n: nat)
      requires AtCursor() && readIndex < |uploadData| && bytesRead < bufLen <= buf.Length
      modifies this`readIndex, this`readOffset, buf
      ensures AtCursor() && 0 < n <= bufLen - bytesRead
      ensures buf[..bytesRead] == old(buf[..bytesRead])
      ensures Before(uploadData, readIndex, readOffset) ==
        old(Before(uploadData, readIndex, readOffset)) + buf[bytesRead..bytesRead + n]
      ensures old(readIndex) <= readIndex
    {
      hide Flatten;
      var data := uploadData[readIndex];
      n := if bufLen - bytesRead < |data| - readOffset then bufLen - bytesRead else |data| - readOffset;
      Copy(buf, bytesRead, data, readOffset, n);
      Advance(uploadData, readIndex, readOffset, n);
      readOffset := readOffset + n;
      if readOffset == |data| {
        NextPart(uploadData, readIndex);
        readIndex := readIndex + 1;
        readOffset := 0;
      }
    }

    /** Copies as much as fits; pending exactly when that is nothing although more is to come. */
    method ReadChunk(buf: array<Byte>, bufLen: nat) returns (result: int)
      requires AtCursor() && !isEof && 0 < bufLen <= buf.Length
      modifies this`readIndex, this`readOffset, this`isEof, buf
      ensures AtCursor() && -1 <= result <= bufLen
      ensures result == ERR_IO_PENDING <==> old(readIndex) == |uploadData| && !allDataAppended
      ensures result == ERR_IO_PENDING ==> readIndex == old(readIndex) && readOffset == old(readOffset)
      ensures result >= 0 ==>
        Before(uploadData, readIndex, readOffset) == old(Before(uploadData, readIndex, readOffset)) + buf[..result]
      ensures 0 <= result < bufLen ==> readIndex == |uploadData|
      ensures result == 0 ==> isEof
      ensures isEof <==> allDataAppended && readIndex == |uploadData|
    {
      var bytesRead := 0;
      ghost var start := Before(uploadData, readIndex, readOffset);
      while readIndex < |uploadData| && bytesRead < bufLen
        invariant AtCursor() && !isEof && bytesRead <= bufLen && old(readIndex) <= readIndex
        invariant bytesRead == 0 ==> readIndex == old(readIndex) && readOffset == old(readOffset)
        invariant old(readIndex) == |uploadData| ==> bytesRead == 0
        invariant Before(uploadData, readIndex, readOffset) == start + buf[..bytesRead]
        decreases bufLen - bytesRead
      {
        var n := CopyFromChunk(buf, bufLen, bytesRead);
        assert buf[..bytesRead + n] == buf[..bytesRead] + buf[bytesRead..bytesRead + n];
        bytesRead := bytesRead + n;
      }
      if bytesRead == 0 && !allDataAppended {
        return ERR_IO_PENDING;
      }
      if readIndex == |uploadData| && allDataAppended {
        isEof := true;
      }
      result := bytesRead;
    }

    method OnReadCompleted(buf: array<Byte>, result: int)
      requires 0 <= result <= buf.Length && initialized && (result == 0 ==> isEof)
      modifies this`currentPosition, this`callbackSet, this`delivered, this`completions
      ensures currentPosition == old(currentPosition) + result && !callbackSet
      ensures delivered == old(delivered) + buf[..result]
      ensures completions == old(completions) + if old(callbackSet) then [result] else []
    {
      currentPosition := currentPosition + result;
      delivered := delivered + buf[..result];
      if callbackSet {
        callbackSet := false;
        completions := completions + [result];
      }
    }

    /**
     * UploadDataStream::Read: hands out the next bytes of the upload, as many as fit. It waits only
     * when everything appended so far is delivered, and reports the end only with the last byte.
     */
    method Read(buf: array<Byte>, bufLen: nat) returns (result: int)
      requires Valid() && initialized && readBuffer == null && 0 < bufLen <= buf.Length
      modifies this, buf
      ensures Valid() && initialized && completions == old(completions)
      ensures uploadData == old(uploadData) && allDataAppended == old(allDataAppended)
      ensures result == ERR_IO_PENDING ==> callbackSet && readBuffer == buf && readBufferLen == bufLen &&
                                           delivered == old(delivered) == Flatten(uploadData) && !allDataAppended
      ensures result != ERR_IO_PENDING ==> 0 <= result <= bufLen && !callbackSet &&
                                           delivered == old(delivered) + buf[..result]
      ensures result == 0 ==> isEof
      ensures 0 <= result < bufLen ==> delivered == Flatten(uploadData)
      ensures result != ERR_IO_PENDING ==> (isEof <==> allDataAppended && readIndex == |uploadData|)
    {
      result := 0;
      if !isEof {
        result := ReadInternal(buf, bufLen);
      }
      if result == ERR_IO_PENDING {
        callbackSet := true;
      } else {
        assert buf[..0] == [];
        OnReadCompleted(buf, result);
      }
      BeforeIsPrefix(uploadData, readIndex, readOffset);
    }

    method ReadInternal(buf: array<Byte>, bufLen: nat) returns (result: int)
      requires AtCursor() && !isEof && readBuffer == null && 0 < bufLen <= buf.Length
      modifies this`readIndex, this`readOffset, this`isEof, this`readBuffer, this`readBufferLen, buf
      ensures AtCursor() && -1 <= result <= bufLen
      ensures result == ERR_IO_PENDING <==> old(readIndex) == |uploadData| && !allDataAppended
      ensures if result == ERR_IO_PENDING then
                readBuffer == buf && readBufferLen == bufLen &&
                readIndex == old(readIndex) && readOffset == old(readOffset)
              else
                readBuffer == null &&
                Before(uploadData, readIndex, readOffset) ==
                  old(Before(uploadData, readIndex, readOffset)) + buf[..result]
      ensures 0 <= result < bufLen ==> readIndex == |uploadData|
      ensures result == 0 ==> isEof
      ensures isEof <==> allDataAppended && readIndex == |uploadData|
    {
      result := ReadChunk(buf, bufLen);
      if result == ERR_IO_PENDING {
        readBuffer := buf;
        readBufferLen := bufLen;
      }
    }

    /** Appending never loses a byte, and completes a waiting read at once, successfully. */
    method AppendData(data: seq<Byte>, isDone: bool)
      requires Valid() && !allDataAppended && (data != [] || isDone)
      modifies this, readBuffer
      ensures Valid() && allDataAppended == isDone && initialized == old(initialized)
      ensures Flatten(uploadData) == old(Flatten(uploadData)) + data
      ensures !old(callbackSet) ==> delivered == old(delivered) && completions == old(completions) && !callbackSet
      ensures old(callbackSet) ==> !callbackSet && Completed(old(completions), old(readBufferLen), data) &&
                                   delivered == old(delivered) + old(readBuffer)[..completions[|completions| - 1]]
      ensures old(callbackSet) ==> delivered <= Flatten(uploadData) && (data == [] || old(delivered) < delivered)
      ensures old(callbackSet) ==> (isEof <==> isDone && delivered == Flatten(uploadData))
    {
      hide Before, Flatten, Cursor;
      DeliveredIsPrefix();
      Append(data);
      allDataAppended := isDone;
      if readBuffer == null {
        return;
      }
      CompleteRead();
      Fits(old(delivered), data, delivered, old(readBufferLen), Flatten(uploadData));
    }

    /** The end of AppendData, once there is something to answer the waiting read with. */
    method CompleteRead()
      requires AtCursor() && delivered == Before(uploadData, readIndex, readOffset) && currentPosition == |delivered|
      requires initialized && !isEof && callbackSet && (readIndex < |uploadData| || allDataAppended)
      requires readBuffer != null && 0 < readBufferLen <= readBuffer.Length
      modifies this, readBuffer
      ensures Valid() && initialized && !callbackSet
      ensures uploadData == old(uploadData) && allDataAppended == old(allDataAppended)
      ensures |completions| == |old(completions)| + 1 && old(completions) <= completions
      ensures 0 <= completions[|old(completions)|] <= old(readBufferLen) <= old(readBuffer).Length
      ensures delivered == old(delivered) + old(readBuffer)[..completions[|old(completions)|]] <= Flatten(uploadData)
      ensures completions[|old(completions)|] == old(readBufferLen) || delivered == Flatten(uploadData)
      ensures isEof <==> allDataAppended && delivered == Flatten(uploadData)
    {
      var result := ReadChunk(readBuffer, readBufferLen);
      var buf := readBuffer;
      readBuffer := null;
      readBufferLen := 0;
      OnReadCompleted(buf, result);
      BeforeIsPrefix(uploadData, readIndex, readOffset);
    }

    /** The waiting read is answered with as many of the appended bytes as fit. */
    ghost predicate Completed(before: seq<int>, bufLen: nat, data: seq<Byte>)
      reads this
    {
      |completions| == |before| + 1 && before <= completions &&
      completions[|before|] == if |data| < bufLen then |data| else bufLen
    }

    /** A read that was full or reached the end took min(bufLen, |data|) bytes. */
    static lemma Fits(start: seq<Byte>, data: seq<Byte>, taken: seq<Byte>, bufLen: nat, whole: seq<Byte>)
      requires whole == start + data && start <= taken <= whole && |taken| - |start| <= bufLen
      requires |taken| - |start| == bufLen || taken == whole
      ensures |taken| - |start| == if |data| < bufLen then |data| else bufLen
    {
    }

    method Append(data: seq<Byte>)
      requires AtCursor()
      modifies this`uploadData
      ensures AtCursor() && Before(uploadData, readIndex, readOffset) == old(Before(uploadData, readIndex, readOffset))
      ensures uploadData == old(uploadData) + if data == [] then [] else [data]
      ensures Flatten(uploadData) == old(Flatten(uploadData)) + data
    {
      if data != [] {
        AppendKeepsBefore(uploadData, data, readIndex, readOffset);
        FlattenAppend(uploadData, data);
        uploadData := uploadData + [data];
      }
    }
  }
}
