/** The datagrams of src/bin/sender.rs and src/bin/receiver.rs. Each starts
    with a `usize` index word: 0 announces the number of objects, `k > 0`
    carries the image of slot `k - 1`. */
module Wire {
  import opened RustStd
  import opened Objects

  /** One datagram: the index word and the object image behind it. A
      control datagram is shorter, but the receiver reads it into a zeroed
      buffer, so the missing bytes read as zero. */
  datatype Record = Record(index: Word, payload: Object)

  /** Lines 231-234 of the sender: index 0, then the number of objects in
      the next word. On the receiver side that word is the first word of
      the payload image, the bit pattern of `pos[0]`; the rest is zero. */
  function ControlRecord(count: Word): (r: Record)
    ensures r.index == 0 && ControlCount(r) == count
    ensures r.payload.velo == DefaultObject().velo && r.payload.color == DefaultObject().color
  {
    Record(0, DefaultObject().(pos := (count, 0)))
  }

  /** Lines 237-240 of the sender: slot `slot` goes out under index
      `slot + 1`. */
  function DataRecord(slot: nat, obj: Object): (r: Record)
    requires slot < UsizeMax
    ensures r.index != 0 && DataSlot(r) == slot && r.payload == obj
  {
    Record(slot + 1, obj)
  }

  /** Lines 104-105 of the receiver: the count announced by a control
      datagram. */
  function ControlCount(r: Record): (n: Word)
    ensures n == r.payload.pos.0
  {
    r.payload.pos.0
  }

  /** Line 119 of the receiver: the slot a data datagram addresses. */
  function DataSlot(r: Record): (s: nat)
    requires r.index != 0
    ensures s + 1 == r.index && s < UsizeMax
  {
    r.index - 1
  }

  /** Decoding a data record gives back the slot and object it was
      encoded from, and data records never look like control records. */
  lemma DataRecordRoundTrip(slot: nat, obj: Object)
    requires slot < UsizeMax
    ensures DataRecord(slot, obj).index != 0
    ensures DataSlot(DataRecord(slot, obj)) == slot && DataRecord(slot, obj).payload == obj
    ensures DataRecord(slot, obj) != ControlRecord(DataRecord(slot, obj).payload.pos.0)
  {
  }

  /** Decoding then encoding gives back the datagram: every data datagram
      is the one its slot and object would produce. */
  lemma DataSlotRoundTrip(r: Record)
    requires r.index != 0
    ensures DataRecord(DataSlot(r), r.payload) == r
  {
  }

  /** A control datagram whose bytes after the count are zero, as the
      receiver's zeroed buffer leaves them, is the one its count produces. */
  lemma ControlCountRoundTrip(r: Record)
    requires r.index == 0 && r.payload == DefaultObject().(pos := (ControlCount(r), 0))
    ensures ControlRecord(ControlCount(r)) == r
  {
  }

  /** Different slots or objects give different records. */
  lemma DataRecordInjective(s1: nat, o1: Object, s2: nat, o2: Object)
    requires s1 < UsizeMax && s2 < UsizeMax
    requires DataRecord(s1, o1) == DataRecord(s2, o2)
    ensures s1 == s2 && o1 == o2
  {
  }
}
