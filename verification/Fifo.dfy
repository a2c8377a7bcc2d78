/** The ring buffers of src/FIFO.h (FIFO and DynamicFIFO) are bounded queues. */
module Fifos {

  /** What a bounded queue of capacity `cap` holds after a write: a full queue drops the value. */
  function Pushed<T>(queue: seq<T>, cap: nat, val: T): (r: seq<T>)
    ensures |queue| <= cap ==> |r| <= cap
  {
    if |queue| >= cap then queue else queue + [val]
  }

  class Fifo<T> {
    const entries: array<T>
    var numOccupied: nat
    var readPos: nat
    var writePos: nat

    /** The entry `offset` places behind the read position, wrapping at the end of the buffer. */
    function Slot(offset: nat): nat
      reads this
    {
      if readPos + offset >= entries.Length then readPos + offset - entries.Length else readPos + offset
    }

    ghost predicate Valid()
      reads this
    {
      && entries.Length > 0 && numOccupied <= entries.Length
      && readPos < entries.Length && writePos == Slot(numOccupied)
    }

    ghost function Contents(): (queue: seq<T>)
      requires Valid()
      reads this, entries
      ensures |queue| == numOccupied
    {
      seq(numOccupied, i requires 0 <= i < numOccupied && Valid() reads this, entries => entries[Slot(i)])
    }

    constructor (num: nat, zero: T)
      requires num > 0
      ensures Valid() && Contents() == [] && entries.Length == num && fresh(entries)
    {
      entries := new T[num](_ => zero);
      numOccupied, readPos, writePos := 0, 0, 0;
    }

    method Clear()
      requires Valid()
      modifies `numOccupied, `readPos, `writePos
      ensures Valid() && Contents() == []
    {
      numOccupied, readPos, writePos := 0, 0, 0;
    }

    method Write(val: T)
      requires Valid()
      modifies `numOccupied, `writePos, entries
      ensures Valid() && Contents() == Pushed(old(Contents()), entries.Length, val)
    {
      if numOccupied >= entries.Length {
        return;
      }
      entries[writePos] := val;
      writePos := writePos + 1;
      if writePos >= entries.Length {
        writePos := 0;
      }
      numOccupied := numOccupied + 1;
    }

    method Read() returns (ret: T)
      requires Valid()
      modifies `numOccupied, `readPos
      ensures Valid()
      ensures old(Contents()) != [] ==> old(Contents()) == [ret] + Contents()
      ensures old(Contents()) == [] ==> Contents() == []
    {
      ret := entries[readPos];
      if numOccupied == 0 {
        return;
      }
      ghost var before := Contents();
      readPos := readPos + 1;
      if readPos >= entries.Length {
        readPos := 0;
      }
      numOccupied := numOccupied - 1;
      assert before[0] == ret;
      assert forall i :: 0 <= i < numOccupied ==> Contents()[i] == before[i + 1];
    }

    method Peek(offset: nat) returns (ret: T)
      requires Valid() && offset < |Contents()|
      ensures ret == Contents()[offset]
    {
      var pos := readPos + offset;
      if pos >= entries.Length {
        pos := pos - entries.Length;
      }
      ret := entries[pos];
    }

    method CanFit(num: nat) returns (r: bool)
      requires Valid()
      ensures r <==> |Contents()| + num <= entries.Length
    {
      r := numOccupied + num <= entries.Length;
    }
  }
}
