/** The byte ring buffer inside os_pthread_queue_t: the critical sections of send and receive. */
module RingQueue {
  import opened Bytes

  /** Slot `i` of a buffer of `size`-byte items holds `v`. */
  ghost predicate SlotHolds(b: seq<byte>, i: nat, size: nat, v: seq<byte>) {
    |v| == size && Holds(b, i * size, v)
  }

  /** Writing one slot changes that item and no other. */
  lemma {:induction false} WriteSlot(b: seq<byte>, n: nat, size: nat, at: nat, v: seq<byte>, i: nat, w: seq<byte>)
    requires |b| == n * size && at < n && i < n && i != at && |v| == size && SlotHolds(b, i, size, w)
    ensures at * size + size <= |b| && SlotHolds(Splice(b, at * size, v), i, size, w)
  {
    ProductStep(at, n, size);
    if i < at {
      ProductStep(i, at, size);
    } else {
      ProductStep(at, i, size);
    }
  }

  /** The slot `k` places behind slot `start` in a ring of `n` slots. */
  function Behind(start: nat, k: nat, n: nat): nat {
    if start + k < n then start + k else start + k - n
  }

  lemma {:induction false} BehindIsModulo(start: nat, k: nat, n: nat)
    requires start < n && k <= n
    ensures Behind(start, k, n) == (start + k) % n
  {
    if start + k < n {
      QuotientIs(start + k, n, 0, start + k);
    } else {
      QuotientIs(start + k, n, 1, start + k - n);
    }
  }

  /** Control fields of a ring of `n` slots: `into` is `items` places behind `out`. */
  predicate Wound(n: nat, items: nat, into: nat, out: nat) {
    items <= n && if n == 0 then into == out == 0 else out < n && into == Behind(out, items, n)
  }

  /** The ring holds `contents`, oldest first from slot `out`. */
  ghost predicate RingHolds(b: seq<byte>, n: nat, size: nat, out: nat, contents: seq<seq<byte>>) {
    && |b| == n * size
    && forall k :: 0 <= k < |contents| ==> SlotHolds(b, Behind(out, k, n), size, contents[k])
  }

  lemma {:induction false} RingPush(b: seq<byte>, n: nat, size: nat, out: nat, contents: seq<seq<byte>>, v: seq<byte>)
    requires RingHolds(b, n, size, out, contents) && |contents| < n && out < n && |v| == size
    ensures var at := Behind(out, |contents|, n) * size;
      at + size <= |b| && RingHolds(Splice(b, at, v), n, size, out, contents + [v])
  {
    var i := Behind(out, |contents|, n);
    ProductStep(i, n, size);
    var contents' := contents + [v];
    forall k | 0 <= k < |contents'| ensures SlotHolds(Splice(b, i * size, v), Behind(out, k, n), size, contents'[k]) {
      if k < |contents| {
        WriteSlot(b, n, size, i, v, Behind(out, k, n), contents[k]);
      }
    }
  }

  lemma {:induction false} RingPop(b: seq<byte>, n: nat, size: nat, out: nat, contents: seq<seq<byte>>)
    requires RingHolds(b, n, size, out, contents) && 0 < |contents| <= n && out < n
    ensures out * size + size <= |b| && b[out * size..out * size + size] == contents[0]
    ensures RingHolds(b, n, size, Behind(out, 1, n), contents[1..])
  {}

  class Queue {
    const size: nat
    const itemSize: nat
    const buffer: array<byte>
    var items: nat
    var into: nat    // the field `in`
    var out: nat
    ghost var contents: seq<seq<byte>>

    ghost predicate Valid()
      reads this, buffer
    {
      && items == |contents| && Wound(size, items, into, out)
      && RingHolds(buffer[..], size, itemSize, out, contents)
    }

    /** os_pthread_queue_create */
    constructor (length: nat, itemSize: nat)
      ensures Valid() && fresh(buffer) && contents == []
      ensures size == length && this.itemSize == itemSize
    {
      size, this.itemSize := length, itemSize;
      buffer := new byte[length * itemSize](_ => 0);
      items, into, out, contents := 0, 0, 0, [];
    }

    /** The critical section of os_pthread_queue_send: false when the caller has to wait. */
    method Send(value: seq<byte>) returns (ok: bool)
      requires Valid() && |value| == itemSize
      modifies this, buffer
      ensures Valid()
      ensures ok == (|old(contents)| < size)
      ensures contents == if ok then old(contents) + [value] else old(contents)
    {
      if items == size {
        return false;
      }
      RingPush(buffer[..], size, itemSize, out, contents, value);
      Store(into * itemSize, value);
      items := items + 1;
      BehindIsModulo(into, 1, size);
      into := (into + 1) % size;
      contents := contents + [value];
      return true;
    }

    /** memcpy into the buffer */
    method Store(base: nat, value: seq<byte>)
      requires base + |value| <= buffer.Length
      modifies buffer
      ensures buffer[..] == Splice(old(buffer[..]), base, value)
    {
      forall j | 0 <= j < |value| {
        buffer[base + j] := value[j];
      }
    }

    /** The critical section of os_pthread_queue_receive. */
    method Receive() returns (ok: bool, value: seq<byte>)
      requires Valid()
      modifies this
      ensures Valid()
      ensures ok == (old(contents) != [])
      ensures ok ==> value == old(contents)[0] && contents == old(contents)[1..]
      ensures !ok ==> contents == old(contents)
    {
      if items == 0 {
        return false, [];
      }
      RingPop(buffer[..], size, itemSize, out, contents);
      value := buffer[..][out * itemSize..out * itemSize + itemSize];
      items := items - 1;
      BehindIsModulo(out, 1, size);
      out := (out + 1) % size;
      contents := contents[1..];
      return true, value;
    }
  }
}
