/** What an upload sends: the bytes of its parts, one after the other, and cursors into them. */
module UploadData {
  import opened Basics

  function Flatten(parts: seq<seq<Byte>>): seq<Byte> {
    if parts == [] then [] else Flatten(parts[..|parts| - 1]) + parts[|parts| - 1]
  }

  /** A position between two bytes; the end of the last part is (|parts|, 0). */
  predicate Cursor(parts: seq<seq<Byte>>, index: nat, offset: nat) {
    index <= |parts| && if index < |parts| then offset <= |parts[index]| else offset == 0
  }

  /** The bytes before a position. */
  function Before(parts: seq<seq<Byte>>, index: nat, offset: nat): seq<Byte>
    requires Cursor(parts, index, offset)
  {
    Flatten(parts[..index]) + if index < |parts| then parts[index][..offset] else []
  }

  lemma NothingBefore(parts: seq<seq<Byte>>)
    ensures Cursor(parts, 0, 0) && Before(parts, 0, 0) == []
  {
    assert parts[..0] == [];
  }

  lemma FlattenAppend(parts: seq<seq<Byte>>, part: seq<Byte>)
    ensures Flatten(parts + [part]) == Flatten(parts) + part
  {
    assert (parts + [part])[..|parts|] == parts;
  }

  lemma {:induction false} FlattenPrefix(parts: seq<seq<Byte>>, index: nat)
    requires index <= |parts|
    ensures Flatten(parts[..index]) <= Flatten(parts)
    decreases |parts| - index
  {
    if index == |parts| {
      assert parts[..index] == parts;
    } else {
      FlattenPrefix(parts, index + 1);
      assert parts[..index + 1] == parts[..index] + [parts[index]];
      FlattenAppend(parts[..index], parts[index]);
    }
  }

  /** What lies before a cursor is always the beginning of the whole upload, and all of it only at the end. */
  lemma BeforeIsPrefix(parts: seq<seq<Byte>>, index: nat, offset: nat)
    requires Cursor(parts, index, offset)
    ensures Before(parts, index, offset) <= Flatten(parts)
    ensures index == |parts| ==> Before(parts, index, offset) == Flatten(parts)
    ensures index < |parts| && offset < |parts[index]| ==> |Before(parts, index, offset)| < |Flatten(parts)|
  {
    if index < |parts| {
      FlattenPrefix(parts, index + 1);
      assert parts[..index + 1] == parts[..index] + [parts[index]];
      FlattenAppend(parts[..index], parts[index]);
      PrefixInside(Flatten(parts[..index]), parts[index], offset, Flatten(parts));
    } else {
      assert parts[..index] == parts;
    }
  }

  lemma PrefixInside(start: seq<Byte>, part: seq<Byte>, offset: nat, whole: seq<Byte>)
    requires start + part <= whole && offset <= |part|
    ensures start + part[..offset] <= whole
  {
    assert start + part == (start + part[..offset]) + part[offset..];
  }

  lemma Advance(parts: seq<seq<Byte>>, index: nat, offset: nat, n: nat)
    requires index < |parts| && offset + n <= |parts[index]|
    ensures Before(parts, index, offset + n) == Before(parts, index, offset) + parts[index][offset..offset + n]
  {
    assert parts[index][..offset + n] == parts[index][..offset] + parts[index][offset..offset + n];
  }

  /** The end of a part is the beginning of the next. */
  lemma NextPart(parts: seq<seq<Byte>>, index: nat)
    requires index < |parts|
    ensures Before(parts, index, |parts[index]|) == Before(parts, index + 1, 0)
  {
    assert parts[..index + 1] == parts[..index] + [parts[index]];
    FlattenAppend(parts[..index], parts[index]);
  }

  /** Appending a part moves no cursor. */
  lemma AppendKeepsBefore(parts: seq<seq<Byte>>, part: seq<Byte>, index: nat, offset: nat)
    requires Cursor(parts, index, offset)
    ensures Cursor(parts + [part], index, offset)
    ensures Before(parts + [part], index, offset) == Before(parts, index, offset)
  {
    assert (parts + [part])[..index] == parts[..index];
  }

  /** memcpy(buf + at, data + from, n) */
  method Copy(buf: array<Byte>, at: nat, data: seq<Byte>, start: nat, n: nat)
    requires at + n <= buf.Length && start + n <= |data|
    modifies buf
    ensures buf[at..at + n] == data[start..start + n]
    ensures buf[..at] == old(buf[..at]) && buf[at + n..] == old(buf[at + n..])
    ensures buf[..at + n] == old(buf[..at]) + data[start..start + n]
  {
    forall i | 0 <= i < n {
      buf[at + i] := data[start + i];
    }
  }
}
