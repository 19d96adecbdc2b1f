/**
 * The circular stack/queue of integers (`staq_t`): a ring of sizeP = size + 1
 * slots in which the slot at `head` is always free, the held elements sit in
 * the slots head+1, head+2, ... (mod sizeP) up to but excluding `tail`, and
 * the ring is full exactly when head == tail. Pushes onto a full ring are
 * silently dropped, pops from an empty one are silently ignored.
 */
module CircularStaq {

  /** C's `%` on the small non-negative operands used here, spelled out. */
  lemma ModRange(a: int, p: int)
    requires 0 < p && -p <= a < 2 * p
    ensures a % p == (if a < 0 then a + p else if a < p then a else a - p)
  {
  }

  /** The number of held elements: (tail - head - 1) mod sizeP. */
  function Count(head: nat, tail: nat, sizeP: nat): nat
    requires 0 < sizeP
  {
    (tail - head - 1) % sizeP
  }

  /** The held elements of a ring buffer, front to back. */
  function Held(buf: seq<int>, head: nat, tail: nat): seq<int>
    requires head < |buf| && tail < |buf|
  {
    seq(Count(head, tail, |buf|), i requires 0 <= i < Count(head, tail, |buf|) => buf[(head + 1 + i) % |buf|])
  }

  /** The ring never holds more than sizeP - 1 = size elements, and it holds that many exactly when head == tail. */
  lemma CountBounds(head: nat, tail: nat, sizeP: nat)
    requires head < sizeP && tail < sizeP
    ensures Count(head, tail, sizeP) <= sizeP - 1
    ensures Count(head, tail, sizeP) == sizeP - 1 <==> head == tail
    ensures Count(head, tail, sizeP) == 0 <==> (head + 1) % sizeP == tail
  {
    ModRange(tail - head - 1, sizeP);
    ModRange(head + 1, sizeP);
  }

  /** Writing x into the tail slot and advancing tail appends x, unless the ring is full. */
  lemma {:induction false} HeldPushBack(buf: seq<int>, head: nat, tail: nat, x: int)
    requires head < |buf| && tail < |buf| && head != tail
    ensures (tail + 1) % |buf| < |buf|
    ensures Held(buf[tail := x], head, (tail + 1) % |buf|) == Held(buf, head, tail) + [x]
  {
    var p := |buf|;
    var c := Count(head, tail, p);
    var t' := (tail + 1) % p;
    ModRange(tail + 1, p);
    ModRange(tail - head - 1, p);
    ModRange(t' - head - 1, p);
    assert Count(head, t', p) == c + 1;
    var a := Held(buf[tail := x], head, t');
    var b := Held(buf, head, tail) + [x];
    forall i | 0 <= i < c + 1
      ensures a[i] == b[i]
    {
      ModRange(head + 1 + i, p);
      if i == c {
        assert (head + 1 + i) % p == tail;
      } else {
        assert (head + 1 + i) % p != tail;
      }
    }
  }

  /** Advancing head past the front slot drops exactly the first element of a non-empty ring. */
  lemma {:induction false} HeldPopFront(buf: seq<int>, head: nat, tail: nat)
    requires head < |buf| && tail < |buf| && Count(head, tail, |buf|) > 0
    ensures (head + 1) % |buf| < |buf|
    ensures Held(buf, (head + 1) % |buf|, tail) == Held(buf, head, tail)[1..]
  {
    var p := |buf|;
    var c := Count(head, tail, p);
    var h' := (head + 1) % p;
    ModRange(head + 1, p);
    ModRange(tail - head - 1, p);
    ModRange(tail - h' - 1, p);
    assert Count(h', tail, p) == c - 1;
    var a := Held(buf, h', tail);
    var b := Held(buf, head, tail)[1..];
    forall i | 0 <= i < c - 1
      ensures a[i] == b[i]
    {
      ModRange(h' + 1 + i, p);
      ModRange(head + 1 + (i + 1), p);
    }
  }

  /** Writing x into the free head slot and moving head back prepends x, unless the ring is full. */
  lemma {:induction false} HeldPushFront(buf: seq<int>, head: nat, tail: nat, x: int)
    requires head < |buf| && tail < |buf| && head != tail
    ensures (if head != 0 then (head - 1) % |buf| else |buf| - 1) < |buf|
    ensures Held(buf[head := x], if head != 0 then (head - 1) % |buf| else |buf| - 1, tail)
            == [x] + Held(buf, head, tail)
  {
    var p := |buf|;
    var c := Count(head, tail, p);
    ModRange(head - 1, p);
    var h' := if head != 0 then (head - 1) % p else p - 1;
    ModRange(tail - head - 1, p);
    ModRange(tail - h' - 1, p);
    assert Count(h', tail, p) == c + 1;
    var a := Held(buf[head := x], h', tail);
    var b := [x] + Held(buf, head, tail);
    forall i | 0 <= i < c + 1
      ensures a[i] == b[i]
    {
      ModRange(h' + 1 + i, p);
      if i == 0 {
        assert (h' + 1 + i) % p == head;
      } else {
        ModRange(head + 1 + (i - 1), p);
        assert (h' + 1 + i) % p == (head + 1 + (i - 1)) % p;
        assert (head + 1 + (i - 1)) % p != head;
      }
    }
  }

  /** The slot `front` reads holds the first element of a non-empty ring. */
  lemma FrontSlot(buf: seq<int>, head: nat, tail: nat)
    requires head < |buf| && tail < |buf|
    ensures Count(head, tail, |buf|) > 0 ==> buf[(head + 1) % |buf|] == Held(buf, head, tail)[0]
  {
  }

  /** The slot `back` reads, the one just before tail, holds the last element of a non-empty ring. */
  lemma BackSlot(buf: seq<int>, head: nat, tail: nat)
    requires head < |buf| && tail < |buf|
    ensures (if tail != 0 then (tail - 1) % |buf| else |buf| - 1) < |buf|
    ensures Count(head, tail, |buf|) > 0 ==>
              buf[if tail != 0 then (tail - 1) % |buf| else |buf| - 1]
              == Held(buf, head, tail)[Count(head, tail, |buf|) - 1]
  {
    var p := |buf|;
    var c := Count(head, tail, p);
    ModRange(tail - 1, p);
    ModRange(tail - head - 1, p);
    if c > 0 {
      ModRange(head + 1 + (c - 1), p);
    }
  }

  /** `staq_t`, with sizeP the slot count size + 1 and `contents` the held elements front to back. */
  class Staq {
    const size: nat
    const sizeP: nat
    var head: nat
    var tail: nat
    var isEmpty: bool
    var isFull: bool
    const data: array<int>
    ghost var contents: seq<int>

    ghost predicate Valid()
      reads this, data
    {
      1 <= size && sizeP == size + 1 && data.Length == sizeP &&
      head < sizeP && tail < sizeP &&
      contents == Held(data[..], head, tail) &&
      (isEmpty <==> contents == []) &&
      !isFull
    }

    /** `dstaq_create(size)`: head 0, tail 1, nothing held. */
    constructor (size: nat)
      requires 1 <= size
      ensures Valid() && fresh(data)
      ensures this.size == size && sizeP == size + 1
      ensures head == 0 && tail == 1 && isEmpty && !isFull
      ensures contents == []
    {
      this.size := size;
      sizeP := size + 1;
      head := 0;
      tail := 1;
      isEmpty := true;
      isFull := false;
      data := new int[size + 1];
      contents := [];
      new;
      assert Count(0, 1, size + 1) == 0;
    }

    /** The ring is full exactly when head == tail, which is when it holds `size` elements. */
    lemma FullIff()
      requires Valid()
      ensures head == tail <==> |contents| == size
      ensures |contents| <= size
    {
      CountBounds(head, tail, sizeP);
    }

    /** `dstaq_isEmpty`. */
    function IsEmpty(): (r: bool)
      reads this, data
      requires Valid()
      ensures r <==> contents == []
    {
      isEmpty
    }

    /** `dstaq_front`: reads the slot after head, the first element when there is one. */
    function Front(): (r: int)
      reads this, data
      requires Valid()
      ensures contents != [] ==> r == contents[0]
    {
      FrontSlot(data[..], head, tail);
      data[(head + 1) % sizeP]
    }

    /** `dstaq_back`: reads the slot before tail, the last element when there is one. */
    function Back(): (r: int)
      reads this, data
      requires Valid()
      ensures contents != [] ==> r == contents[|contents| - 1]
    {
      BackSlot(data[..], head, tail);
      data[if tail != 0 then (tail - 1) % sizeP else sizeP - 1]
    }

    /** `dstaq_pushBack`: appends x unless the ring is full, in which case nothing changes. */
    method PushBack(x: int)
      requires Valid()
      modifies this, data
      ensures Valid()
      ensures old(head != tail) ==> contents == old(contents) + [x]
      ensures old(head != tail) ==> head == old(head) && tail == (old(tail) + 1) % sizeP && !isEmpty
      ensures old(head != tail) ==> data[..] == old(data[..])[old(tail) := x]
      ensures old(head == tail) ==> contents == old(contents) && head == old(head) && tail == old(tail)
      ensures old(head == tail) ==> isEmpty == old(isEmpty) && data[..] == old(data[..])
    {
      if head != tail {
        HeldPushBack(data[..], head, tail, x);
        data[tail] := x;
        tail := (tail + 1) % sizeP;
        isEmpty := false;
        contents := contents + [x];
      }
    }

    /** `dstaq_popFront`: drops the front element of a non-empty ring; an empty ring is left alone. */
    method PopFront()
      requires Valid()
      modifies this
      ensures Valid()
      ensures old(contents) != [] ==> contents == old(contents)[1..]
      ensures old(contents) != [] ==> head == (old(head) + 1) % sizeP && tail == old(tail)
      ensures old(contents) == [] ==> contents == old(contents) && head == old(head) && tail == old(tail)
      ensures isEmpty <==> contents == []
    {
      if !isEmpty {
        HeldPopFront(data[..], head, tail);
        head := (head + 1) % sizeP;
        contents := contents[1..];
        CountBounds(head, tail, sizeP);
        if (head + 1) % sizeP == tail {
          isEmpty := true;
        }
      }
    }

    /** `dstaq_pushFront`: prepends x unless the ring is full, in which case nothing changes. */
    method PushFront(x: int)
      requires Valid()
      modifies this, data
      ensures Valid()
      ensures old(head != tail) ==> contents == [x] + old(contents)
      ensures old(head != tail) ==> head == (if old(head) != 0 then old(head) - 1 else sizeP - 1)
      ensures old(head != tail) ==> tail == old(tail) && !isEmpty
      ensures old(head != tail) ==> data[..] == old(data[..])[old(head) := x]
      ensures old(head == tail) ==> contents == old(contents) && head == old(head) && tail == old(tail)
      ensures old(head == tail) ==> isEmpty == old(isEmpty) && data[..] == old(data[..])
    {
      if head != tail {
        HeldPushFront(data[..], head, tail, x);
        ModRange(head - 1, sizeP);
        data[head] := x;
        head := if head != 0 then (head - 1) % sizeP else sizeP - 1;
        isEmpty := false;
        contents := [x] + contents;
      }
    }

    /**
     * Pushing a run of values at the back of a ring with room for all of
     * them: none is dropped.
     */
    method PushBackAll(xs: seq<int>)
      requires Valid() && |contents| + |xs| <= size
      modifies this, data
      ensures Valid()
      ensures contents == old(contents) + xs
    {
      var k := 0;
      while k < |xs|
        invariant 0 <= k <= |xs|
        invariant Valid()
        invariant contents == old(contents) + xs[..k]
      {
        FullIff();
        PushBack(xs[k]);
        assert xs[..k + 1] == xs[..k] + [xs[k]];
        k := k + 1;
      }
      assert xs[..k] == xs;
    }

    /**
     * Pushing a run of values at the front of a ring with room for all of
     * them, one after another: none is dropped, and they end up in front of
     * the old elements, the last one pushed first.
     */
    method PushFrontAll(xs: seq<int>)
      requires Valid() && |contents| + |xs| <= size
      modifies this, data
      ensures Valid()
      ensures |contents| == |old(contents)| + |xs|
      ensures forall i :: 0 <= i < |xs| ==> contents[i] == xs[|xs| - 1 - i]
      ensures contents[|xs|..] == old(contents)
    {
      var k := 0;
      while k < |xs|
        invariant 0 <= k <= |xs|
        invariant Valid()
        invariant |contents| == |old(contents)| + k
        invariant forall i :: 0 <= i < k ==> contents[i] == xs[k - 1 - i]
        invariant contents[k..] == old(contents)
      {
        FullIff();
        PushFront(xs[k]);
        k := k + 1;
      }
    }
  }

  /**
   * The ring used as a queue: two values pushed at the back come out of the
   * front in the order they went in; used as a stack, pushing at the front,
   * they come out reversed.
   */
  method QueueAndStackOrder(a: int, b: int) returns (q1: int, q2: int, s1: int, s2: int)
    ensures q1 == a && q2 == b
    ensures s1 == b && s2 == a
  {
    var q := new Staq(2);
    q.PushBack(a);
    q.PushBack(b);
    q1 := q.Front();
    q.PopFront();
    q2 := q.Front();
    var s := new Staq(2);
    s.PushFront(a);
    s.PushFront(b);
    s1 := s.Front();
    s.PopFront();
    s2 := s.Front();
  }
}
