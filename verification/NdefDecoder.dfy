/** The in-place NDEF message decoder, proved against `NdefRecord.Decode`. */
module NdefDecoder {
  import opened Bytes
  import opened NdefRecord
  import opened Status

  /** One record slot. `typ` is a 32-byte array; `payload` is an offset into the
      message buffer, where the program keeps a pointer. */
  datatype Slot = Slot(tnf: Tnf, typ: seq<byte>, typeLen: byte, payload: Option<nat>, payloadLen: uint32, flags: byte)

  const CLEAR_SLOT := Slot(0, seq(MAX_TYPE_LEN, _ => 0), 0, None, 0, 0)

  predicate Complete(s: Slot) {
    |s.typ| == MAX_TYPE_LEN && s.payload.Some?
  }

  /** The record that a completely written slot holds. */
  function RecordIn(s: Slot): Record
    requires Complete(s)
  {
    Record(s.flags, s.tnf, s.typeLen, s.typ[..Min(s.typeLen, MAX_TYPE_LEN)], s.payload.value, s.payloadLen)
  }

  function RecordsIn(slots: seq<Slot>): (rs: seq<Record>)
    requires forall s :: s in slots ==> Complete(s)
    ensures |rs| == |slots|
  {
    seq(|slots|, i requires 0 <= i < |slots| => RecordIn(slots[i]))
  }

  lemma RecordsInAppend(slots: seq<Slot>, s: Slot)
    requires Complete(s) && forall s :: s in slots ==> Complete(s)
    ensures RecordsIn(slots + [s]) == RecordsIn(slots) + [RecordIn(s)]
  {
  }

  class DecodedMessage {
    const records: array<Slot>
    var recordCount: nat
    var truncated: bool

    ghost predicate Valid()
      reads this, records
    {
      && records.Length == MAX_RECORDS
      && recordCount <= MAX_RECORDS
      && forall s :: s in records[..recordCount] ==> Complete(s)
    }

    ghost function Records(): (rs: seq<Record>)
      requires Valid()
      reads this, records
    {
      RecordsIn(records[..recordCount])
    }

    ghost function Value(): Decoded
      requires Valid()
      reads this, records
    {
      Decoded(Records(), truncated)
    }

    constructor ()
      ensures Valid() && Value() == Decoded([], false) && fresh(records)
    {
      records := new Slot[MAX_RECORDS](_ => CLEAR_SLOT);
      recordCount, truncated := 0, false;
    }

    /** Zeroes the whole structure. */
    method Clear()
      requires records.Length == MAX_RECORDS
      modifies this, records
      ensures Valid() && Value() == Decoded([], false)
      ensures forall i :: 0 <= i < MAX_RECORDS ==> records[i] == CLEAR_SLOT
    {
      forall i | 0 <= i < records.Length {
        records[i] := CLEAR_SLOT;
      }
      recordCount, truncated := 0, false;
    }
  }

  /** Reads the octets before the type field, noting the flags in slot `n`. */
  method DecodeFixedPart(msg: array<byte>, len: nat, pos: nat, slots: array<Slot>, n: nat)
    returns (complete: bool, hdr: byte, typeLen: byte, payloadLen: uint32, idLen: byte, next: nat)
    requires pos < len <= msg.Length && len <= MAX_MESSAGE
    requires n < slots.Length && slots as object != msg
    modifies slots
    ensures forall i :: 0 <= i < slots.Length && i != n ==> slots[i] == old(slots[i])
    ensures slots[n] == old(slots[n]).(flags := hdr, tnf := hdr % 8)
    ensures complete <==> ReadFixedPart(msg[..len], pos).Some?
    ensures complete ==> ReadFixedPart(msg[..len], pos) == Some(Header(hdr, typeLen, payloadLen, idLen, next))
  {
    complete, typeLen, payloadLen, idLen := false, 0, 0, 0;
    next := pos;

    hdr := msg[next];
    next := next + 1;
    slots[n] := slots[n].(flags := hdr, tnf := hdr % 8);

    if next >= len { return; }
    typeLen := msg[next];
    next := next + 1;

    if ShortRecord(hdr) {
      if next >= len { return; }
      payloadLen := msg[next];
      next := next + 1;
    } else {
      if Add32(next, 4) > len { return; }
      payloadLen := FromBigEndian32(msg[next], msg[next + 1], msg[next + 2], msg[next + 3]);
      next := next + 4;
    }

    if IdPresent(hdr) {
      if next >= len { return; }
      idLen := msg[next];
      next := next + 1;
    }
    complete := true;
  }

  /** Reads the record at `pos` into slot `n`, field by field as the bytes come.
      A record cut short leaves its first fields in the slot. */
  method DecodeInto(msg: array<byte>, len: nat, pos: nat, slots: array<Slot>, n: nat)
    returns (complete: bool, next: nat)
    requires pos < len <= msg.Length && len <= MAX_MESSAGE
    requires n < slots.Length && slots[n] == CLEAR_SLOT && slots as object != msg
    modifies slots
    ensures forall i :: 0 <= i < slots.Length && i != n ==> slots[i] == old(slots[i])
    ensures complete <==> ReadRecord(Machine, msg[..len], pos).Some?
    ensures complete ==>
              Complete(slots[n]) && ReadRecord(Machine, msg[..len], pos) == Some(Parsed(RecordIn(slots[n]), next))
  {
    hide ReadFixedPart;
    var hdr, typeLen, payloadLen, idLen;
    complete, hdr, typeLen, payloadLen, idLen, next := DecodeFixedPart(msg, len, pos, slots, n);
    if !complete { return; }
    complete := false;
    ghost var h := Header(hdr, typeLen, payloadLen, idLen, next);

    if Add32(next, typeLen) > len { return; }
    var copyType := Min(typeLen, MAX_TYPE_LEN);
    ghost var typ := msg[next..next + copyType];
    SliceOfTake(msg[..], len, next, next + copyType);
    slots[n] := slots[n].(typ := msg[next..next + copyType] + slots[n].typ[copyType..], typeLen := typeLen);
    assert slots[n].typ[..copyType] == typ;
    next := next + typeLen;

    if Add32(next, idLen) > len { return; }
    next := next + idLen;

    if Add32(next, payloadLen) > len { return; }
    slots[n] := slots[n].(payload := Some(next), payloadLen := payloadLen);
    assert msg[..][..len] == msg[..len] && RecordOf(msg[..len], h).typ == typ;
    assert RecordIn(slots[n]).typ == typ;
    next := Add32(next, payloadLen);
    complete := true;
  }

  /** One turn of the loop below the capacity test: a complete record joins the
      list, an incomplete one leaves it as it was. */
  method DecodeRecord(msg: array<byte>, len: nat, pos: nat, out: DecodedMessage) returns (complete: bool, next: nat)
    requires pos < len <= msg.Length && len <= MAX_MESSAGE
    requires out.Valid() && out.recordCount < MAX_RECORDS && out.records as object != msg
    requires out.records[out.recordCount] == CLEAR_SLOT
    modifies out`recordCount, out.records
    ensures out.Valid()
    ensures forall i :: old(out.recordCount) < i < MAX_RECORDS ==> out.records[i] == old(out.records[i])
    ensures match ReadRecord(Machine, msg[..len], pos)
            case None => !complete && out.recordCount == old(out.recordCount) && out.Records() == old(out.Records())
            case Some(p) =>
              && complete && next == p.next
              && out.recordCount == old(out.recordCount) + 1
              && out.Records() == old(out.Records()) + [p.rec]
              && out.records[out.recordCount - 1].flags == p.rec.flags
  {
    ghost var done := out.records[..out.recordCount];
    complete, next := DecodeInto(msg, len, pos, out.records, out.recordCount);
    hide ReadRecord;
    assert out.records[..out.recordCount] == done;
    if complete {
      ghost var slot := out.records[out.recordCount];
      RecordsInAppend(done, slot);
      assert out.records[..out.recordCount + 1] == done + [slot];
      out.recordCount := out.recordCount + 1;
    }
  }

  /** The decoder: the result is `Decode` in the arithmetic of the target, for
      every content and length; it stops because slots run out even where the
      position does not advance. */
  method DecodeMessage(msg: array<byte>, len: nat, out: DecodedMessage) returns (st: Status)
    requires len <= msg.Length && len <= MAX_MESSAGE
    requires out.records.Length == MAX_RECORDS && out.records as object != msg
    modifies out, out.records
    ensures out.Valid() && out.Value() == Decode(Machine, msg[..len])
    ensures forall i :: out.recordCount < i < MAX_RECORDS ==> out.records[i] == CLEAR_SLOT
    ensures st == if len == 0 then ErrNotFound else OK
  {
    hide ReadRecord, DecodeFrom, Complete;
    out.Clear();
    ghost var bytes := msg[..len];
    if len == 0 {
      DecodeAtEnd(Machine, bytes, 0, MAX_RECORDS);
      return ErrNotFound;
    }

    ghost var whole := Decode(Machine, bytes);
    ghost var rest := whole;
    var pos: nat := 0;
    while pos < len
      invariant pos <= len && out.Valid() && !out.truncated && msg[..len] == bytes
      invariant forall i :: out.recordCount <= i < MAX_RECORDS ==> out.records[i] == CLEAR_SLOT
      invariant rest == DecodeFrom(Machine, bytes, pos, MAX_RECORDS - out.recordCount)
      invariant Continues(whole, out.Records(), rest)
      decreases MAX_RECORDS - out.recordCount
    {
      if out.recordCount >= MAX_RECORDS {
        DecodeWithoutRoom(Machine, bytes, pos);
        out.truncated := true;
        break;
      }
      ContinuesTurn(Machine, bytes, out.Records(), pos, MAX_RECORDS - out.recordCount);
      hide Continues;
      var complete, next := DecodeRecord(msg, len, pos, out);
      if !complete {
        break;
      }
      pos := next;
      if MessageEnd(out.records[out.recordCount - 1].flags) {
        rest := Decoded([], false);
        break;
      }
      rest := DecodeFrom(Machine, bytes, pos, MAX_RECORDS - out.recordCount);
    }
    if pos >= len {
      DecodeAtEnd(Machine, bytes, pos, MAX_RECORDS - out.recordCount);
    }
    assert rest == Decoded([], out.truncated);
    return OK;
  }
}
