/** The ring buffers of FIFO.h. */
module Fifos {
  import opened Arithmetic

  /** The bounded queues FIFO and DynamicFIFO: a write to a full queue is dropped.  The two differ
      only in what a read of an empty queue gives. */
  class Fifo<T(0)> {
    const entries: array<T>
    var occupied: nat
    var readPos: nat
    var writePos: nat

    ghost predicate Valid()
      reads this
    {
      && entries.Length > 0
      && occupied <= entries.Length
      && readPos < entries.Length
      && writePos == Wrap(readPos + occupied, entries.Length)
    }

    /** The queued values, oldest first. */
    ghost function Contents(): (s: seq<T>)
      reads this, entries
      requires Valid()
      ensures |s| == occupied
    {
      Window(entries[..], readPos, occupied)
    }

    constructor (size: nat)
      requires size > 0
      ensures Valid() && fresh(entries) && entries.Length == size && Contents() == []
    {
      entries := new T[size];
      occupied, readPos, writePos := 0, 0, 0;
    }

    method Clear()
      requires Valid()
      modifies this
      ensures Valid() && Contents() == []
    {
      occupied, readPos, writePos := 0, 0, 0;
    }

    method Write(val: T)
      requires Valid()
      modifies this, entries
      ensures Valid()
      ensures Contents() == if |old(Contents())| < entries.Length then old(Contents()) + [val] else old(Contents())
    {
      if occupied >= entries.Length { return; }
      WindowWrite(entries[..], readPos, occupied, val);
      entries[writePos] := val;
      writePos := writePos + 1;
      if writePos >= entries.Length { writePos := 0; }
      occupied := occupied + 1;
    }

    /** FIFO::Read: an empty queue gives the value read last. */
    method Read() returns (val: T)
      requires Valid()
      modifies this
      ensures Valid()
      ensures old(Contents()) != [] ==> val == old(Contents())[0] && Contents() == old(Contents())[1..]
      ensures old(Contents()) == [] ==>
        Contents() == [] && val == entries[if readPos == 0 then entries.Length - 1 else readPos - 1]
    {
      if occupied == 0 { return entries[(if readPos == 0 then entries.Length else readPos) - 1]; }
      WindowRead(entries[..], readPos, occupied);
      val := entries[readPos];
      readPos := readPos + 1;
      if readPos >= entries.Length { readPos := 0; }
      occupied := occupied - 1;
    }

    /** DynamicFIFO::Read: an empty queue gives the next slot. */
    method ReadDynamic() returns (val: T)
      requires Valid()
      modifies this
      ensures Valid()
      ensures old(Contents()) != [] ==> val == old(Contents())[0] && Contents() == old(Contents())[1..]
      ensures old(Contents()) == [] ==> Contents() == [] && val == entries[readPos]
    {
      val := entries[readPos];
      if occupied == 0 { return; }
      WindowRead(entries[..], readPos, occupied);
      readPos := readPos + 1;
      if readPos >= entries.Length { readPos := 0; }
      occupied := occupied - 1;
    }

    method Peek(offset: nat) returns (val: T)
      requires Valid() && offset < entries.Length
      ensures offset < |Contents()| ==> val == Contents()[offset]
    {
      var pos := readPos + offset;
      if pos >= entries.Length { pos := pos - entries.Length; }
      val := entries[pos];
    }

    function Level(): (n: nat)
      reads this
    {
      occupied
    }

    predicate CanFit(num: nat)
      reads this
    {
      occupied + num <= entries.Length
    }
  }

  function Wrap(i: nat, size: nat): nat
    requires size > 0
  {
    if i >= size then i - size else i
  }

  /** n values from position at on, around the end of the array. */
  function Window<T>(a: seq<T>, at: nat, n: nat): (s: seq<T>)
    requires at < |a| && n <= |a|
    ensures |s| == n && forall i :: 0 <= i < n ==> s[i] == a[Wrap(at + i, |a|)]
  {
    seq(n, i requires 0 <= i < n => a[Wrap(at + i, |a|)])
  }

  lemma WindowWrite<T>(a: seq<T>, at: nat, n: nat, val: T)
    requires at < |a| && n < |a|
    ensures Wrap(at + n, |a|) < |a|
    ensures Window(a[Wrap(at + n, |a|) := val], at, n + 1) == Window(a, at, n) + [val]
  {
  }

  lemma WindowRead<T>(a: seq<T>, at: nat, n: nat)
    requires at < |a| && 0 < n <= |a|
    ensures Window(a, at, n)[0] == a[at]
    ensures Window(a, Wrap(at + 1, |a|), n - 1) == Window(a, at, n)[1..]
  {
  }

  /** RingBuffer: blocks of values in and out, each copied in at most two pieces. */
  class RingBuffer<T(0)> {
    const buffer: array<T>
    var occupied: nat
    var readPos: nat
    var writePos: nat

    ghost predicate Valid()
      reads this
    {
      && buffer.Length > 0
      && occupied <= buffer.Length
      && readPos < buffer.Length
      && writePos == Wrap(readPos + occupied, buffer.Length)
    }

    ghost function Contents(): (s: seq<T>)
      reads this, buffer
      requires Valid()
      ensures |s| == occupied
    {
      Window(buffer[..], readPos, occupied)
    }

    constructor (size: nat)
      requires size > 0
      ensures Valid() && fresh(buffer) && buffer.Length == size && Contents() == []
    {
      buffer := new T[size];
      occupied, readPos, writePos := 0, 0, 0;
    }

    /** memcpy into the buffer. */
    method CopyIn(at: nat, data: seq<T>)
      requires at + |data| <= buffer.Length
      modifies buffer
      ensures forall i :: 0 <= i < buffer.Length ==>
        buffer[i] == if at <= i < at + |data| then data[i - at] else old(buffer[i])
    {
      forall i | 0 <= i < |data| { buffer[at + i] := data[i]; }
    }

    /** A block that does not fit is refused as a whole. */
    method Write(data: seq<T>) returns (ok: bool)
      requires Valid()
      modifies this, buffer
      ensures Valid() && (ok <==> |old(Contents())| + |data| <= buffer.Length)
      ensures Contents() == if ok then old(Contents()) + data else old(Contents())
    {
      if occupied + |data| > buffer.Length { return false; }
      ghost var was := Contents();
      if writePos + |data| >= buffer.Length {
        var part := buffer.Length - writePos;
        CopyIn(writePos, data[..part]);
        CopyIn(0, data[part..]);
        writePos := |data| - part;
      } else {
        CopyIn(writePos, data);
        writePos := writePos + |data|;
      }
      occupied := occupied + |data|;
      assert Contents() == was + data;
      return true;
    }

    /** len values from a position on, in at most two pieces. */
    method CopyOut(at: nat, len: nat) returns (data: seq<T>)
      requires at < buffer.Length && len <= buffer.Length
      ensures data == Window(buffer[..], at, len)
    {
      if at + len >= buffer.Length {
        var part := buffer.Length - at;
        data := buffer[at..] + buffer[..len - part];
      } else {
        data := buffer[at..at + len];
      }
    }

    method Read(len: nat) returns (data: seq<T>, ok: bool)
      requires Valid()
      modifies `occupied, `readPos
      ensures Valid() && (ok <==> len <= |old(Contents())|)
      ensures ok ==> data == old(Contents())[..len] && Contents() == old(Contents())[len..]
      ensures !ok ==> data == [] && Contents() == old(Contents())
    {
      if occupied < len { return [], false; }
      ghost var was := Contents();
      data := CopyOut(readPos, len);
      assert data == was[..len];
      readPos := if readPos + len >= buffer.Length then len - (buffer.Length - readPos) else readPos + len;
      occupied := occupied - len;
      assert Contents() == was[len..];
      return data, true;
    }

    /** Peek checks its length but not its offset: exactly when both fit is the result all contents. */
    method Peek(offset: nat, len: nat) returns (data: seq<T>, ok: bool)
      requires Valid() && offset < buffer.Length
      ensures ok <==> len <= |Contents()|
      ensures ok ==> |data| == len
      ensures ok ==> forall i :: 0 <= i < len ==>
        data[i] == if offset + i < |Contents()| then Contents()[offset + i]
          else buffer[(offset + i + readPos) % buffer.Length]
    {
      if occupied < len { return [], false; }
      data := CopyOut(Wrap(readPos + offset, buffer.Length), len);
      ghost var n := buffer.Length;
      forall i | 0 <= i < len
        ensures data[i] == if offset + i < occupied then Contents()[offset + i] else buffer[(offset + i + readPos) % n]
      {
        WrapTwice(readPos + offset, i, n);
      }
      return data, true;
    }

    method Skip(len: nat) returns (ok: bool)
      requires Valid()
      modifies `occupied, `readPos
      ensures Valid() && (ok <==> len <= |old(Contents())|)
      ensures Contents() == if ok then old(Contents())[len..] else old(Contents())
    {
      if occupied < len { return false; }
      ghost var was := Contents();
      readPos := Wrap(readPos + len, buffer.Length);
      occupied := occupied - len;
      assert Contents() == was[len..];
      return true;
    }
  }

  /** Wrapping in two steps is the remainder, for less than three turns. */
  lemma WrapTwice(at: nat, i: nat, size: nat)
    requires size > 0 && at < 2 * size && i < size
    ensures Wrap(Wrap(at, size) + i, size) == (at + i) % size
    ensures at + i < 2 * size ==> Wrap(at + i, size) == (at + i) % size
  {
    var x := at + i;
    if x < size {
      ModUnique(x, size, 0, x);
    } else if x < 2 * size {
      ModUnique(x, size, 1, x - size);
    } else {
      ModUnique(x, size, 2, x - 2 * size);
    }
  }
}
