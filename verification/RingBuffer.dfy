/**
 The share window of the PPLNS engine: a fixed array written round and round.  It refines
 "the last `cap` elements ever pushed, oldest first".  (internal/pplns/payout.go)
 */
module RingBuffer {
  import opened Sequences

  /** What the buffer holds, oldest first, given its cells, its fill and its write position. */
  function Read<T>(cells: seq<T>, count: nat, head: nat): (s: seq<T>)
    requires head < |cells| && count <= |cells|
    ensures |s| == count
  {
    if count < |cells| then cells[..count] else cells[head..] + cells[..head]
  }

  lemma NextCell(head: nat, cap: nat)
    requires head < cap
    ensures (head + 1) % cap == if head + 1 == cap then 0 else head + 1
  {
  }

  lemma DropFirst<T>(a: T, s: seq<T>, x: T)
    ensures LastN([a] + s + [x], |s| + 1) == s + [x]
  {
  }

  /** One write to a full buffer, with the head moved on by one cell, drops the oldest element. */
  lemma OverwritesTheOldest<T>(cells: seq<T>, head: nat, next: nat, x: T)
    requires head < |cells| && next == if head + 1 == |cells| then 0 else head + 1
    ensures Read(cells[head := x], |cells|, next) == LastN(Read(cells, |cells|, head) + [x], |cells|)
  {
    var written := cells[head := x];
    var rest := cells[head + 1..] + cells[..head];
    assert Read(cells, |cells|, head) == [cells[head]] + rest;
    DropFirst(cells[head], rest, x);
    if next == 0 {
      assert written[0..] + written[..0] == written;
      assert written == rest + [x];
    } else {
      assert written[next..] == cells[next..];
      assert written[..next] == cells[..head] + [x];
      assert cells[next..] + (cells[..head] + [x]) == rest + [x];
    }
  }

  /** One write to a buffer with room appends; at the moment it fills up the head is back at the start. */
  lemma Appends<T>(cells: seq<T>, count: nat, next: nat, x: T)
    requires count < |cells| && next == if count + 1 == |cells| then 0 else count + 1
    ensures Read(cells[count := x], count + 1, next) == Read(cells, count, count) + [x]
  {
  }

  /** One write, in either case: the window slides by one. */
  lemma WritesOne<T>(cells: seq<T>, count: nat, head: nat, next: nat, x: T)
    requires head < |cells| && count <= |cells| && (count < |cells| ==> head == count)
    requires next == (head + 1) % |cells|
    ensures next < |cells| && (count + 1 < |cells| ==> next == count + 1)
    ensures Read(cells[head := x], if count < |cells| then count + 1 else count, next)
         == LastN(Read(cells, count, head) + [x], |cells|)
  {
    NextCell(head, |cells|);
    if count < |cells| {
      Appends(cells, count, next, x);
    } else {
      OverwritesTheOldest(cells, head, next, x);
    }
  }

  class RingBuffer<T(0)> {
    const buf: array<T>
    const cap: nat
    var head: nat   // next write position
    var count: nat  // number of valid entries
    ghost var pushed: seq<T>  // every element ever pushed

    ghost predicate Valid()
      reads this, buf
    {
      && 0 < cap == buf.Length
      && head < cap
      && count <= cap
      && (count < cap ==> head == count)
      && Contents() == LastN(pushed, cap)
    }

    function Contents(): (s: seq<T>)
      requires cap == buf.Length && head < cap && count <= cap
      reads this, buf
      ensures |s| == count
    {
      Read(buf[..], count, head)
    }

    constructor (capacity: nat)
      requires 0 < capacity
      ensures Valid() && fresh(buf) && cap == capacity && pushed == []
    {
      buf := new T[capacity];
      cap, head, count, pushed := capacity, 0, 0, [];
    }

    /** Appends an element; when full, the oldest one is overwritten. */
    method Push(x: T)
      requires Valid()
      modifies this, buf
      ensures Valid() && pushed == old(pushed) + [x]
      ensures Contents() == LastN(old(Contents()) + [x], cap)
    {
      ghost var before, cells := Contents(), buf[..];
      LastNAbsorbs(pushed, [x], cap);
      WritesOne(cells, count, head, (head + 1) % cap, x);
      buf[head] := x;
      head := (head + 1) % cap;
      if count < cap {
        count := count + 1;
      }
      pushed := pushed + [x];
      assert buf[..] == cells[old(head) := x];
      assert Contents() == Read(buf[..], count, head) == LastN(before + [x], cap);
    }

    /** A copy of the elements, oldest first. */
    method Snapshot() returns (out: seq<T>)
      requires Valid()
      ensures out == Contents() == LastN(pushed, cap)
    {
      if count == 0 {
        return [];
      }
      if count < cap {
        out := buf[..count];
      } else {
        out := buf[head..cap];
        out := out + buf[..head];
      }
    }
  }

}
