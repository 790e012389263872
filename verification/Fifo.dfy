/** The receive queue's operations on the shared ring array, each seen on its own. */
module Fifo {
  import opened FifoRace

  lemma NextIndex(i: nat, n: nat)
    requires i < n
    ensures (i + 1) % n == if i + 1 == n then 0 else i + 1
  {
  }

  class Queue {
    const buffer: array<Slot>
    var pushIndex: nat
    var popIndex: nat

    ghost predicate Valid()
      reads this
    {
      2 <= buffer.Length && pushIndex < buffer.Length && popIndex < buffer.Length
    }

    /** The frames waiting, oldest first. */
    ghost function Waiting(): seq<Slot>
      requires Valid()
      reads this, buffer
    {
      if popIndex <= pushIndex then buffer[popIndex..pushIndex] else buffer[popIndex..] + buffer[..pushIndex]
    }

    constructor (capacity: nat)
      requires 2 <= capacity
      ensures Valid() && fresh(buffer) && buffer.Length == capacity && Waiting() == []
    {
      buffer := new Slot[capacity];
      pushIndex, popIndex := 0, 0;
    }

    method IsFull() returns (full: bool)
      requires Valid()
      ensures full <==> |Waiting()| == buffer.Length - 1
    {
      NextIndex(pushIndex, buffer.Length);
      full := (pushIndex + 1) % buffer.Length == popIndex;
    }

    method IsEmpty() returns (empty: bool)
      requires Valid()
      ensures empty <==> Waiting() == []
    {
      empty := popIndex == pushIndex;
    }

    method GetOldestEntry() returns (frame: Slot)
      requires Valid() && Waiting() != []
      ensures frame == Waiting()[0]
    {
      var index := popIndex;
      frame := buffer[index];
    }

    method DropOldestEntry()
      requires Valid() && Waiting() != []
      modifies `popIndex
      ensures Valid() && Waiting() == old(Waiting())[1..]
    {
      NextIndex(popIndex, buffer.Length);
      assert popIndex > pushIndex ==> Waiting()[1..] == buffer[popIndex + 1..] + buffer[..pushIndex];
      popIndex := (popIndex + 1) % buffer.Length;
    }

    /** The handler: the frame is queued unless the queue is full, in which case nothing changes. */
    method ReceiveToBuffer(frame: Slot) returns (accepted: bool)
      requires Valid()
      modifies buffer, `pushIndex
      ensures Valid()
      ensures accepted <==> |old(Waiting())| < buffer.Length - 1
      ensures Waiting() == if accepted then old(Waiting()) + [frame] else old(Waiting())
    {
      var full := IsFull();
      if full {
        return false;
      }
      NextIndex(pushIndex, buffer.Length);
      buffer[pushIndex] := frame;
      pushIndex := (pushIndex + 1) % buffer.Length;
      return true;
    }

    /** The main loop: the oldest frame, removed from the queue, if there is one. */
    method ReadMessage() returns (received: bool, frame: Slot)
      requires Valid()
      modifies `popIndex
      ensures Valid() && received == (old(Waiting()) != [])
      ensures received ==> [frame] + Waiting() == old(Waiting())
      ensures !received ==> Waiting() == old(Waiting())
    {
      frame := seq(WORDS, _ => 0);
      var empty := IsEmpty();
      if empty {
        return false, frame;
      }
      frame := GetOldestEntry();
      DropOldestEntry();
      return true, frame;
    }
  }
}
