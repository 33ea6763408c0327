/** The bounded frame queue: a ring buffer that keeps the newest frames. */
module FrameQueue {
  import opened Wrappers

  /** A push on a full queue drops the oldest frame. */
  function Pushed<T>(q: seq<T>, x: T, cap: nat): seq<T> {
    (if q != [] && |q| == cap then q[1..] else q) + [x]
  }

  function PushAll<T>(q: seq<T>, xs: seq<T>, cap: nat): seq<T>
    decreases |xs|
  {
    if xs == [] then q else PushAll(Pushed(q, xs[0], cap), xs[1..], cap)
  }

  /** Pushing any number of frames leaves the newest `cap` of everything there was, in order. */
  lemma {:induction false} PushAllKeepsNewest<T>(q: seq<T>, xs: seq<T>, cap: nat)
    requires |q| <= cap && cap > 0
    ensures var all := q + xs;
            PushAll(q, xs, cap) == if |all| <= cap then all else all[|all| - cap..]
    decreases |xs|
  {
    if xs == [] {
      assert q + xs == q;
    } else {
      var q' := Pushed(q, xs[0], cap);
      PushAllKeepsNewest(q', xs[1..], cap);
      assert q + xs == q + [xs[0]] + xs[1..];
      if |q| == cap {
        assert q' + xs[1..] == (q + xs)[1..];
      } else {
        assert q' + xs[1..] == q + xs;
      }
    }
  }

  lemma Wrap(x: nat, cap: nat)
    requires x < 2 * cap
    ensures x % cap == if x < cap then x else x - cap
  {
    if x >= cap {
      assert x == cap + (x - cap);
    }
  }

  /** The position of the i-th live slot. */
  function At(head: nat, i: nat, cap: nat): nat { if head + i < cap then head + i else head + i - cap }

  /** The live slots hold frames, the free ones hold nothing. */
  ghost predicate Ring<T>(slots: seq<Option<T>>, head: nat, count: nat) {
    && head < |slots| && count <= |slots|
    && forall i: nat :: i < |slots| ==> (slots[At(head, i, |slots|)].Some? <==> i < count)
  }

  ghost function Live<T>(slots: seq<Option<T>>, head: nat, count: nat): (s: seq<T>)
    requires Ring(slots, head, count)
    ensures |s| == count
  {
    seq(count, i requires 0 <= i < count => slots[At(head, i, |slots|)].value)
  }

  lemma RingTake<T>(slots: seq<Option<T>>, head: nat, count: nat)
    requires Ring(slots, head, count) && count > 0
    ensures slots[head].Some?
    ensures var next := At(head, 1, |slots|);
            && Ring(slots[head := None], next, count - 1)
            && Live(slots, head, count) == [slots[head].value] + Live(slots[head := None], next, count - 1)
  {
    var cap := |slots|;
    var next, slots' := At(head, 1, cap), slots[head := None];
    assert At(head, 0, cap) == head;
    forall i: nat | i < cap
      ensures slots'[At(next, i, cap)].Some? <==> i < count - 1
      ensures i < count - 1 ==> slots'[At(next, i, cap)] == slots[At(head, i + 1, cap)]
    {
      if i + 1 < cap {
        assert At(next, i, cap) == At(head, i + 1, cap) != head;
      } else {
        assert At(next, i, cap) == head;
      }
    }
  }

  lemma RingPut<T>(slots: seq<Option<T>>, head: nat, count: nat, x: T)
    requires Ring(slots, head, count) && count < |slots|
    ensures var slots' := slots[At(head, count, |slots|) := Some(x)];
            Ring(slots', head, count + 1) && Live(slots', head, count + 1) == Live(slots, head, count) + [x]
  {
    var cap := |slots|;
    var tail := At(head, count, cap);
    var slots' := slots[tail := Some(x)];
    forall i: nat | i < cap
      ensures slots'[At(head, i, cap)].Some? <==> i < count + 1
      ensures i < count ==> slots'[At(head, i, cap)] == slots[At(head, i, cap)]
    {
      assert i != count ==> At(head, i, cap) != tail;
    }
  }

  /** Overwriting the oldest frame of a full ring is taking it and putting the new one. */
  lemma RingOverwrite<T>(slots: seq<Option<T>>, head: nat, x: T)
    requires Ring(slots, head, |slots|)
    ensures var next := At(head, 1, |slots|);
            var slots' := slots[head := Some(x)];
            Ring(slots', next, |slots|) && Live(slots', next, |slots|) == Live(slots, head, |slots|)[1..] + [x]
  {
    var cap := |slots|;
    RingTake(slots, head, cap);
    RingPut(slots[head := None], At(head, 1, cap), cap - 1, x);
    assert slots[head := None][head := Some(x)] == slots[head := Some(x)];
  }

  class Queue<T> {
    var buf: array<Option<T>>
    var head: nat
    var tail: nat
    var count: nat
    const cap: nat
    /** The one-slot signal channel: whether its slot is taken. */
    var notEmpty: bool

    ghost predicate Valid()
      reads this, buf
    {
      && buf.Length == cap > 0
      && Ring(buf[..], head, count)
      && tail == At(head, count, cap)
      && tail < cap
    }

    ghost function Contents(): (s: seq<T>)
      requires Valid()
      reads this, buf
      ensures |s| == count
    {
      Live(buf[..], head, count)
    }

    constructor (capacity: nat)
      requires capacity > 0
      ensures Valid() && fresh(buf) && cap == capacity && Contents() == [] && !notEmpty
    {
      cap := capacity;
      buf := new Option<T>[capacity](_ => None);
      head, tail, count := 0, 0, 0;
      notEmpty := false;
    }

    /** Never blocks; the signal is pending afterwards whether or not it was before. */
    method Push(frame: T)
      requires Valid()
      modifies this`head, this`tail, this`count, this`notEmpty, buf
      ensures Valid() && Contents() == Pushed(old(Contents()), frame, cap) && notEmpty
    {
      hide Ring, Live;
      ghost var slots, h0, c0 := buf[..], head, count;
      RingBounds(slots, head, count);
      Wrap(head + 1, cap);
      Wrap(tail + 1, cap);
      if count == cap {
        RingOverwrite(slots, head, frame);
        head := (head + 1) % cap;
        count := count - 1;
      } else {
        RingPut(slots, head, count, frame);
      }
      buf[tail] := Some(frame);
      tail := (tail + 1) % cap;
      count := count + 1;
      notEmpty := true;
      assert buf[..] == slots[At(h0, c0, cap) := Some(frame)];
      RingBounds(buf[..], head, count);
    }

    /** The locked section of Pop: takes the oldest frame if there is one. The signal is not touched. */
    method TryPop() returns (frame: Option<T>)
      requires Valid()
      modifies this`head, this`count, buf
      ensures Valid() && notEmpty == old(notEmpty)
      ensures old(Contents()) == [] ==> frame == None && Contents() == []
      ensures old(Contents()) != [] ==> frame == Some(old(Contents())[0]) && Contents() == old(Contents())[1..]
    {
      hide Ring, Live;
      ghost var slots := buf[..];
      RingBounds(slots, head, count);
      if count == 0 {
        return None;
      }
      Wrap(head + 1, cap);
      RingTake(slots, head, count);
      frame := buf[head];
      buf[head] := None;
      assert buf[..] == slots[head := None];
      head := (head + 1) % cap;
      count := count - 1;
      RingBounds(buf[..], head, count);
    }

    method Len() returns (n: nat)
      requires Valid()
      ensures n == |Contents()|
    {
      n := count;
    }
  }

  lemma RingBounds<T>(slots: seq<Option<T>>, head: nat, count: nat)
    requires Ring(slots, head, count)
    ensures head < |slots| && count <= |slots|
  {
  }
}
