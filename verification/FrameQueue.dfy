/**
 The eight-slot ring buffer of `src/queue.c`, proved to be a bounded
 first-in-first-out queue.
 */
module FrameQueues {
  import opened Words
  import opened Frames

  const CAPACITY: nat := 8

  /** An index moved back into the ring. */
  function Wrap(i: nat): (slot: nat)
    requires i < 2 * CAPACITY
    ensures slot < CAPACITY
  {
    if i < CAPACITY then i else i - CAPACITY
  }

  /** The `count` frames from slot `head` on, oldest first. */
  function Ring(slots: seq<Frame>, head: nat, count: nat): (s: seq<Frame>)
    requires |slots| == CAPACITY && head < CAPACITY && count <= CAPACITY
    ensures |s| == count
  {
    seq(count, i requires 0 <= i < count => slots[Wrap(head + i)])
  }

  lemma RingPush(slots: seq<Frame>, head: nat, count: nat, frame: Frame)
    requires |slots| == CAPACITY && head < CAPACITY && count < CAPACITY
    ensures Ring(slots[Wrap(head + count) := frame], head, count + 1) == Ring(slots, head, count) + [frame]
  {
    var pushed := slots[Wrap(head + count) := frame];
    forall i | 0 <= i < count + 1
      ensures Ring(pushed, head, count + 1)[i] == (Ring(slots, head, count) + [frame])[i]
    {
      assert i < count ==> Wrap(head + i) != Wrap(head + count);
    }
  }

  lemma RingPop(slots: seq<Frame>, head: nat, count: nat)
    requires |slots| == CAPACITY && head < CAPACITY && 0 < count <= CAPACITY
    ensures Ring(slots, head, count) == [slots[head]] + Ring(slots, Wrap(head + 1), count - 1)
  {
    var rest := Ring(slots, Wrap(head + 1), count - 1);
    forall i | 0 <= i < count
      ensures Ring(slots, head, count)[i] == ([slots[head]] + rest)[i]
    {
      if i > 0 {
        assert Wrap(Wrap(head + 1) + (i - 1)) == Wrap(head + i);
        assert rest[i - 1] == slots[Wrap(head + i)];
      } else {
        assert Wrap(head) == head;
      }
    }
  }

  class FrameQueue {
    const entries: array<Frame>
    var head: u8
    var tail: u8
    var count: u8

    /** The queued frames, oldest first. */
    ghost var contents: seq<Frame>

    /** The slots exist; what they and the indices hold is arbitrary. */
    constructor (filler: Frame)
      ensures entries.Length == CAPACITY && fresh(entries)
    {
      entries := new Frame[CAPACITY](_ => filler);
    }

    ghost predicate Valid()
      reads this, entries
    {
      && entries.Length == CAPACITY
      && head < CAPACITY && count <= CAPACITY
      && tail == Wrap(head + count)
      && contents == Ring(entries[..], head, count)
    }

    /** `esqh_queue_init`. */
    method Init()
      requires entries.Length == CAPACITY
      modifies this
      ensures Valid() && contents == []
    {
      head := 0;
      tail := 0;
      count := 0;
      contents := [];
    }

    /** `esqh_queue_push`: appends, or refuses the frame and changes nothing. */
    method Push(frame: Frame) returns (status: Status)
      requires Valid()
      modifies this, entries
      ensures Valid()
      ensures status == if |old(contents)| == CAPACITY then ErrFull else Ok
      ensures contents == if status == Ok then old(contents) + [frame] else old(contents)
    {
      if count >= CAPACITY {
        return ErrFull;
      }
      RingPush(entries[..], head, count, frame);
      entries[tail] := frame;
      tail := tail + 1;
      if tail == CAPACITY {
        tail := 0;
      }
      count := count + 1;
      contents := contents + [frame];
      status := Ok;
    }

    /** `esqh_queue_pop`: hands out the oldest frame, or changes nothing. */
    method Pop(frame: Cell<Frame>) returns (status: Status)
      requires Valid()
      modifies this, frame
      ensures Valid()
      ensures status == if old(contents) == [] then ErrEmpty else Ok
      ensures status == Ok ==> frame.value == old(contents)[0] && contents == old(contents)[1..]
      ensures status != Ok ==> frame.value == old(frame.value) && contents == old(contents)
    {
      if count == 0 {
        return ErrEmpty;
      }
      RingPop(entries[..], head, count);
      frame.value := entries[head];
      head := head + 1;
      if head == CAPACITY {
        head := 0;
      }
      count := count - 1;
      contents := contents[1..];
      status := Ok;
    }
  }
}
