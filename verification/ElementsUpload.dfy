/**
 * ElementsUploadDataStream (base/elements_upload_data_stream.cc) with the parts of its base class
 * UploadDataStream (base/upload_data_stream.cc) that initialising and reading pass through.
 * The element readers are the environment: each answer of theirs is any answer they may give.
 */
module ElementsUploads {
  import opened Basics
  import opened UploadData

  /** An element and how far it has been read. */
  datatype Reader = Reader(content: seq<Byte>, offset: nat)

  /** DrainableIOBuffer: a buffer filled from the front. */
  class Drainable {
    const data: array<Byte>
    const size: nat
    var used: nat

    ghost predicate Fits()
      reads this
    {
      used <= size <= data.Length
    }

    constructor (data: array<Byte>, size: nat)
      requires size <= data.Length
      ensures this.data == data && this.size == size && used == 0
    {
      this.data, this.size, used := data, size, 0;
    }
  }

  function Contents(readers: seq<Reader>): seq<seq<Byte>> {
    seq(|readers|, i requires 0 <= i < |readers| => readers[i].content)
  }

  /** The reader at the index is the only one that is partly read; later ones are untouched. */
  ghost predicate InOrder(readers: seq<Reader>, index: nat) {
    index <= |readers| && (forall i :: index < i < |readers| ==> readers[i].offset == 0) &&
    (index < |readers| ==> readers[index].offset <= |readers[index].content|)
  }

  /** The bytes taken out of the readers so far. */
  ghost function Taken(readers: seq<Reader>, index: nat): seq<Byte>
    requires InOrder(readers, index)
  {
    Before(Contents(readers), index, if index < |readers| then readers[index].offset else 0)
  }

  lemma TakenIsPrefix(readers: seq<Reader>, index: nat)
    requires InOrder(readers, index)
    ensures Taken(readers, index) <= Flatten(Contents(readers))
    ensures index == |readers| ==> Taken(readers, index) == Flatten(Contents(readers))
    ensures index < |readers| && readers[index].offset < |readers[index].content| ==>
      |Taken(readers, index)| < |Flatten(Contents(readers))|
  {
    BeforeIsPrefix(Contents(readers), index, if index < |readers| then readers[index].offset else 0);
  }

  lemma StartTakesNothing(readers: seq<Reader>)
    requires forall i :: 0 <= i < |readers| ==> readers[i].offset == 0
    ensures InOrder(readers, 0) && Taken(readers, 0) == []
  {
    assert Contents(readers)[..0] == [];
  }

  lemma SkipTakesNothing(readers: seq<Reader>, index: nat)
    requires InOrder(readers, index) && index < |readers| && readers[index].offset == |readers[index].content|
    ensures InOrder(readers, index + 1) && Taken(readers, index + 1) == Taken(readers, index)
  {
    NextPart(Contents(readers), index);
  }

  function Advanced(readers: seq<Reader>, index: nat, n: nat): (r: seq<Reader>)
    requires index < |readers|
    ensures |r| == |readers| && Contents(r) == Contents(readers)
  {
    readers[index := readers[index].(offset := readers[index].offset + n)]
  }

  lemma AdvanceTakes(readers: seq<Reader>, index: nat, n: nat)
    requires InOrder(readers, index) && index < |readers|
    requires readers[index].offset + n <= |readers[index].content|
    ensures InOrder(Advanced(readers, index, n), index)
    ensures Taken(Advanced(readers, index, n), index) ==
      Taken(readers, index) + readers[index].content[readers[index].offset..readers[index].offset + n]
  {
    Advance(Contents(readers), index, readers[index].offset, n);
  }

  /** What a reader may answer to a read: an error, or at least one byte, but not more than it has or than fits. */
  predicate Answer(reader: Reader, space: nat, result: int) {
    result < ERR_IO_PENDING || (0 < result <= space && reader.offset + result <= |reader.content|)
  }

  predicate AnswerOrWait(reader: Reader, space: nat, result: int) {
    result == ERR_IO_PENDING || Answer(reader, space, result)
  }

  class ElementsUploadStream {
    var readers: seq<Reader>
    var elementIndex: nat
    var readError: int
    var totalSize: nat
    var currentPosition: nat
    var initialized: bool
    var isEof: bool
    var callbackSet: bool
    /** Callbacks bound before the last reset carry an older number and are dropped. */
    var generation: nat
    /** The buffer of the read that waits for a reader, and the element whose initialisation is waited for. */
    ghost var inFlight: Drainable?
    ghost var initAt: int
    ghost var delivered: seq<Byte>
    ghost var completions: seq<int>

    ghost predicate Ready()
      reads this
    {
      initialized && InOrder(readers, elementIndex) && totalSize == |Flatten(Contents(readers))| &&
      currentPosition == |delivered| && (isEof <==> currentPosition == totalSize) && initAt == -1 &&
      (readError == OK || readError < ERR_IO_PENDING)
    }

    /** With d delivered, the buffer holds exactly what has been taken since. */
    ghost predicate Holds(d: seq<Byte>, buf: Drainable)
      reads this, buf, buf.data
    {
      InOrder(readers, elementIndex) && buf.Fits() && Taken(readers, elementIndex) == d + buf.data[..buf.used]
    }

    ghost predicate Waiting(buf: Drainable)
      reads this, buf, buf.data
    {
      Holds(delivered, buf) && readError == OK && elementIndex < |readers| && buf.used < buf.size &&
      readers[elementIndex].offset < |readers[elementIndex].content|
    }

    ghost predicate Idle()
      reads this
    {
      !initialized && inFlight == null && delivered == [] && currentPosition == 0 && !isEof && readError == OK &&
      elementIndex == 0 && (callbackSet <==> initAt != -1) && -1 <= initAt < |readers| &&
      forall i :: 0 <= i < initAt ==> readers[i].offset == 0
    }

    ghost predicate Valid()
      reads this, inFlight, if inFlight == null then {} else {inFlight.data}
    {
      if !initialized then Idle()
      else
        Ready() && (callbackSet <==> inFlight != null) &&
        if inFlight == null then delivered == Taken(readers, elementIndex) else Waiting(inFlight)
    }

    constructor (contents: seq<seq<Byte>>)
      ensures Valid() && !initialized && !callbackSet && completions == [] && Contents(readers) == contents
    {
      readers := seq(|contents|, i requires 0 <= i < |contents| => Reader(contents[i], 0));
      elementIndex, readError, totalSize, currentPosition := 0, OK, 0, 0;
      initialized, isEof, callbackSet, generation := false, false, false, 0;
      inFlight, initAt, delivered, completions := null, -1, [], [];
      new;
      assert Contents(readers) == contents;
    }

    /** Every interleaving delivers a beginning of the elements' bytes, and the end is the end of all of them. */
    lemma DeliveredIsPrefix()
      requires Valid()
      ensures delivered <= Flatten(Contents(readers))
      ensures initialized ==> (isEof <==> delivered == Flatten(Contents(readers)))
    {
      if initialized {
        TakenIsPrefix(readers, elementIndex);
      }
    }

    /** Whatever was pending is dropped: no callback runs for it any more. */
    method Reset()
      modifies this
      ensures Valid() && !initialized && !callbackSet && generation == old(generation) + 1
      ensures Contents(readers) == old(Contents(readers)) && completions == old(completions)
    {
      hide Ready, Waiting, Holds, Contents;
      currentPosition, initialized, isEof, totalSize, callbackSet := 0, false, false, 0, false;
      generation := generation + 1;
      readError, elementIndex := OK, 0;
      inFlight, initAt, delivered := null, -1, [];
    }

    // ---- initialisation ----

    /** Rewinds the readers from the start index on, until one of them fails or has to be waited for. */
    method InitElements(start: nat) returns (result: int)
      requires start <= |readers| && forall i :: 0 <= i < start ==> readers[i].offset == 0
      modifies this`readers, this`totalSize, this`initAt
      ensures Contents(readers) == old(Contents(readers)) && |readers| == old(|readers|) && result <= OK
      ensures result == OK ==> initAt == -1 && totalSize == |Flatten(Contents(readers))|
      ensures result == OK ==> forall i :: 0 <= i < |readers| ==> readers[i].offset == 0
      ensures result == ERR_IO_PENDING ==>
        start <= initAt < |readers| && forall i :: 0 <= i < initAt ==> readers[i].offset == 0
      ensures result < ERR_IO_PENDING ==> initAt == -1
    {
      initAt := -1;
      for i := start to |readers|
        invariant |readers| == old(|readers|) && Contents(readers) == old(Contents(readers)) && initAt == -1
        invariant forall k :: 0 <= k < i ==> readers[k].offset == 0
      {
        result :| result <= OK;
        if result == OK {
          Rewind(i);
        } else {
          if result == ERR_IO_PENDING {
            initAt := i;
          }
          return;
        }
      }
      totalSize := SumOfLengths();
      result := OK;
    }

    method Rewind(i: nat)
      requires i < |readers| && forall k :: 0 <= k < i ==> readers[k].offset == 0
      modifies this`readers
      ensures |readers| == old(|readers|) && Contents(readers) == old(Contents(readers))
      ensures forall k :: 0 <= k <= i ==> readers[k].offset == 0
    {
      readers := readers[i := readers[i].(offset := 0)];
      assert Contents(readers) == old(Contents(readers));
    }

    method SumOfLengths() returns (total: nat)
      ensures total == |Flatten(Contents(readers))|
    {
      total := 0;
      ghost var contents := Contents(readers);
      for i := 0 to |readers|
        invariant total == |Flatten(contents[..i])|
      {
        total := total + |readers[i].content|;
        assert contents[..i + 1] == contents[..i] + [contents[i]];
        FlattenAppend(contents[..i], contents[i]);
      }
      assert contents[..|readers|] == contents;
    }

    method OnInitCompleted(result: int)
      requires result != ERR_IO_PENDING && result <= OK && initAt == -1
      requires !initialized && inFlight == null && delivered == [] && currentPosition == 0 && !isEof
      requires readError == OK && elementIndex == 0
      requires result == OK ==> totalSize == |Flatten(Contents(readers))|
      requires result == OK ==> forall i :: 0 <= i < |readers| ==> readers[i].offset == 0
      modifies this`initialized, this`isEof, this`callbackSet, this`completions
      ensures Valid() && (initialized <==> result == OK) && !callbackSet
      ensures completions == old(completions) + if old(callbackSet) then [result] else []
    {
      if result == OK {
        initialized := true;
        isEof := totalSize == 0;
        StartTakesNothing(readers);
      }
      if callbackSet {
        callbackSet := false;
        completions := completions + [result];
      }
    }

    method Init() returns (result: int)
      requires Valid()
      modifies this
      ensures Valid() && result <= OK && completions == old(completions)
      ensures Contents(readers) == old(Contents(readers)) && delivered == []
      ensures initialized <==> result == OK
      ensures callbackSet <==> result == ERR_IO_PENDING
    {
      Reset();
      result := InitElements(0);
      if result == ERR_IO_PENDING {
        callbackSet := true;
      } else {
        OnInitCompleted(result);
      }
    }

    /** A reader reports that its initialisation is over; reports from before a reset are dropped. */
    method OnInitElementCompleted(weak: nat, index: nat, answer: int)
      requires Valid() && answer <= OK && answer != ERR_IO_PENDING
      requires weak == generation ==> initAt == index
      modifies this
      ensures Valid() && Contents(readers) == old(Contents(readers)) && generation == old(generation)
      ensures weak != generation ==> unchanged(this)
      ensures weak == generation ==> if callbackSet then initAt > index && completions == old(completions)
                                     else |completions| == |old(completions)| + 1 && old(completions) < completions
      ensures weak == generation && !callbackSet ==> (initialized <==> completions[|old(completions)|] == OK)
      ensures weak == generation && answer != OK ==> completions == old(completions) + [answer]
    {
      if weak != generation {
        return;
      }
      var result := answer;
      initAt := -1;
      if result == OK {
        Rewind(index);
        result := InitElements(index + 1);
      }
      if result != ERR_IO_PENDING {
        OnInitCompleted(result);
      }
    }

    // ---- reading ----

    /** The reader puts n bytes into the buffer. */
    method Fill(buf: Drainable, n: nat)
      requires InOrder(readers, elementIndex) && elementIndex < |readers| && buf.Fits()
      requires 0 < n <= buf.size - buf.used && readers[elementIndex].offset + n <= |readers[elementIndex].content|
      modifies this`readers, buf.data
      ensures InOrder(readers, elementIndex) && |readers| == old(|readers|)
      ensures Contents(readers) == old(Contents(readers))
      ensures Taken(readers, elementIndex) == old(Taken(readers, elementIndex)) + buf.data[buf.used..buf.used + n]
      ensures buf.data[..buf.used] == old(buf.data[..buf.used])
      ensures buf.data[..buf.used + n] == buf.data[..buf.used] + buf.data[buf.used..buf.used + n]
    {
      Copy(buf.data, buf.used, readers[elementIndex].content, readers[elementIndex].offset, n);
      AdvanceTakes(readers, elementIndex, n);
      readers := Advanced(readers, elementIndex, n);
    }

    /** The reader's bytes and ProcessReadResult: bytes are kept in the buffer, an error is remembered. */
    method ProcessReadResult(buf: Drainable, result: int, ghost d: seq<Byte>)
      requires Holds(d, buf) && readError == OK && elementIndex < |readers|
      requires Answer(readers[elementIndex], buf.size - buf.used, result)
      modifies this`readers, this`readError, buf, buf.data
      ensures Holds(d, buf) && |readers| == old(|readers|) && Contents(readers) == old(Contents(readers))
      ensures result > 0 ==> readError == OK && buf.used == old(buf.used) + result
      ensures result < 0 ==> readError == result && buf.used == old(buf.used) && readers == old(readers)
    {
      if result >= 0 {
        Fill(buf, result);
        buf.used := buf.used + result;
      } else {
        readError := result;
      }
    }

    /**
     * Takes bytes out of the readers in order until the buffer is full, a reader has to be waited for,
     * a reader fails or all elements are read. An error is returned only when the buffer is empty.
     */
    method ReadElements(buf: Drainable) returns (result: int)
      requires Holds(delivered, buf) && (readError == OK || readError < ERR_IO_PENDING) && 0 < buf.size
      modifies this`readers, this`elementIndex, this`readError, buf, buf.data
      ensures Holds(delivered, buf) && Contents(readers) == old(Contents(readers)) && old(buf.used) <= buf.used
      ensures readError == OK || readError < ERR_IO_PENDING
      ensures result == ERR_IO_PENDING ==> Waiting(buf)
      ensures result != ERR_IO_PENDING ==> result == if buf.used > 0 then buf.used else readError
      ensures result == OK ==> Taken(readers, elementIndex) == Flatten(Contents(readers))
      ensures result != ERR_IO_PENDING ==>
        buf.used == buf.size || readError != OK || Taken(readers, elementIndex) == Flatten(Contents(readers))
      ensures old(readError) != OK ==> readError == old(readError) && readers == old(readers) &&
                                       elementIndex == old(elementIndex) && buf.used == old(buf.used)
    {
      while readError == OK && elementIndex < |readers|
        invariant Holds(delivered, buf) && Contents(readers) == old(Contents(readers)) && old(buf.used) <= buf.used
        invariant readError == OK || readError < ERR_IO_PENDING
        invariant old(readError) != OK ==> readError == old(readError) && readers == old(readers) &&
                                           elementIndex == old(elementIndex) && buf.used == old(buf.used)
        decreases if readError == OK then 1 else 0, |readers| - elementIndex, buf.size - buf.used
      {
        if readers[elementIndex].offset == |readers[elementIndex].content| {
          SkipTakesNothing(readers, elementIndex);
          elementIndex := elementIndex + 1;
          continue;
        }
        if buf.used == buf.size {
          break;
        }
        var reader, space := readers[elementIndex], buf.size - buf.used;
        assert AnswerOrWait(reader, space, ERR_IO_PENDING);
        result :| AnswerOrWait(reader, space, result);
        assert AnswerOrWait(reader, space, result);
        if result == ERR_IO_PENDING {
          return;
        }
        ProcessReadResult(buf, result, delivered);
      }
      TakenIsPrefix(readers, elementIndex);
      result := if buf.used > 0 then buf.used else readError;
    }

    /** The bytes of the buffer go to the consumer; an error goes out only with nothing left in the buffer. */
    method OnReadCompleted(buf: Drainable, result: int)
      requires Ready() && Holds(delivered, buf)
      requires result == (if buf.used > 0 then buf.used else readError) && (result == 0 ==> isEof)
      modifies this`currentPosition, this`isEof, this`callbackSet, this`inFlight, this`delivered, this`completions
      ensures Valid() && initialized && !callbackSet && inFlight == null
      ensures delivered == old(delivered) + buf.data[..buf.used] == Taken(readers, elementIndex)
      ensures completions == old(completions) + if old(callbackSet) then [result] else []
    {
      hide Taken, InOrder, Contents, Flatten;
      inFlight := null;
      delivered := delivered + buf.data[..buf.used];
      if result > 0 {
        currentPosition := currentPosition + result;
        TakenIsPrefix(readers, elementIndex);
        if currentPosition == totalSize {
          isEof := true;
        }
      }
      if callbackSet {
        callbackSet := false;
        completions := completions + [result];
      }
    }

    /**
     * UploadDataStream::Read. Zero means the end. An error is returned only when every byte taken from the
     * readers has already been delivered, and it is then returned by every later read.
     */
    method Read(data: array<Byte>, bufLen: nat) returns (result: int)
      requires Valid() && initialized && inFlight == null && 0 < bufLen <= data.Length
      modifies this, data
      ensures Valid() && initialized && Contents(readers) == old(Contents(readers)) && completions == old(completions)
      ensures callbackSet <==> result == ERR_IO_PENDING
      ensures result >= 0 ==> result <= bufLen && delivered == old(delivered) + data[..result]
      ensures result < 0 ==> delivered == old(delivered)
      ensures result == 0 ==> isEof
      ensures 0 < result < bufLen ==> isEof || readError != OK
      ensures result < ERR_IO_PENDING ==> result == readError && delivered == Taken(readers, elementIndex)
      ensures old(readError) != OK && !old(isEof) ==> result == old(readError) && readers == old(readers)
    {
      hide Taken, InOrder, Contents, Flatten;
      var buf := new Drainable(data, bufLen);
      assert data[..0] == [];
      result := 0;
      if isEof {
        return;
      }
      result := ReadElements(buf);
      if result == ERR_IO_PENDING {
        inFlight := buf;
        callbackSet := true;
      } else {
        OnReadCompleted(buf, result);
      }
    }

    /** The waiting read goes on: it waits again, or it completes with one callback. */
    method AnswerRead(buf: Drainable, answer: int)
      requires Valid() && initialized && inFlight == buf && Answer(readers[elementIndex], buf.size - buf.used, answer)
      modifies this, buf, buf.data
      ensures Valid() && initialized && Contents(readers) == old(Contents(readers)) && generation == old(generation)
      ensures callbackSet ==> inFlight == buf && completions == old(completions) && delivered == old(delivered)
      ensures callbackSet ==> old(buf.used) < buf.used < buf.size
      ensures !callbackSet ==> delivered == Taken(readers, elementIndex) && completions != [] &&
                               completions[..|completions| - 1] == old(completions) &&
                               completions[|completions| - 1] != ERR_IO_PENDING
      ensures !callbackSet && completions[|completions| - 1] < 0 ==>
        delivered == old(delivered) && completions[|completions| - 1] == readError
    {
      hide Taken, InOrder, Contents, Flatten;
      ProcessReadResult(buf, answer, delivered);
      var result := ReadElements(buf);
      if result != ERR_IO_PENDING {
        OnReadCompleted(buf, result);
      }
    }

    /** A reader answers a waiting read; answers from before a reset are dropped. */
    method OnReadElementCompleted(weak: nat, buf: Drainable, answer: int)
      requires Valid() && (weak == generation ==> initialized && inFlight == buf)
      requires weak == generation ==> Answer(readers[elementIndex], buf.size - buf.used, answer)
      modifies this, buf, buf.data
      ensures Contents(readers) == old(Contents(readers)) && generation == old(generation)
      ensures weak != generation ==> Valid() && unchanged(this) && unchanged(buf)
      ensures weak == generation ==> Valid() && initialized
      ensures weak == generation && callbackSet ==>
        inFlight == buf && completions == old(completions) && delivered == old(delivered) &&
        old(buf.used) < buf.used < buf.size
      ensures weak == generation && !callbackSet ==>
        delivered == Taken(readers, elementIndex) && completions != [] &&
        completions[..|completions| - 1] == old(completions) && completions[|completions| - 1] != ERR_IO_PENDING
      ensures weak == generation && !callbackSet && completions[|completions| - 1] < 0 ==>
        delivered == old(delivered) && completions[|completions| - 1] == readError
    {
      if weak == generation {
        AnswerRead(buf, answer);
      }
    }
  }
}
