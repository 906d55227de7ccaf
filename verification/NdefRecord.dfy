/**
 * NDEF messages (NFC Forum NDEF Technical Specification 1.0, section 3.2).
 *
 * `WireRecord` with `Encode` is the format as a writer sees it. `Decode` is what
 * the reader does with a byte string, in two arithmetics: `Exact` integers and
 * the `Machine` arithmetic of the target, where a payload end is a uint32_t.
 */
module NdefRecord {
  import opened Bytes

  const MAX_RECORDS: nat := 8
  const MAX_TYPE_LEN: nat := 32

  /** ndef_len is a uint16_t, so no message is longer than this. */
  const MAX_MESSAGE: nat := 0xFFFF

  predicate MessageEnd(flags: byte) { flags / 0x40 % 2 == 1 }

  predicate ShortRecord(flags: byte) { flags / 0x10 % 2 == 1 }

  predicate IdPresent(flags: byte) { flags / 0x08 % 2 == 1 }

  // ----- The format -------------------------------------------------------

  type Tnf = n: nat | n < 8

  /** A record by its header fields (message begin and end, chunk, short record, ID
      length present, type name format), type, ID and payload. */
  datatype WireRecord = WireRecord(mb: bool, me: bool, cf: bool, sr: bool, il: bool, tnf: Tnf,
                                   typ: seq<byte>, id: seq<byte>, payload: seq<byte>)
  {
    /** The flags octet as the format packs it, and what the reader takes from it. */
    function Flags(): (f: byte)
      ensures MessageEnd(f) == me && ShortRecord(f) == sr && IdPresent(f) == il && f % 8 == tnf
    {
      var f := Bit(mb, 128) + Bit(me, 64) + Bit(cf, 32) + Bit(sr, 16) + Bit(il, 8) + tnf;
      assert f / 8 == Bit(mb, 16) + Bit(me, 8) + Bit(cf, 4) + Bit(sr, 2) + Bit(il, 1);
      assert f / 16 == Bit(mb, 8) + Bit(me, 4) + Bit(cf, 2) + Bit(sr, 1);
      assert f / 64 == Bit(mb, 2) + Bit(me, 1);
      f
    }
  }

  function Bit(b: bool, weight: nat): nat { if b then weight else 0 }

  predicate WellFormed(w: WireRecord) {
    && |w.typ| < 0x100
    && |w.id| < 0x100
    && (!w.il ==> w.id == [])
    && |w.payload| < (if w.sr then 0x100 else TWO_TO_32)
  }

  function BigEndian32(n: uint32): (s: seq<byte>)
    ensures |s| == 4 && n == s[0] as int * 0x100_0000 + s[1] as int * 0x1_0000 + s[2] as int * 0x100 + s[3] as int
  {
    var q1 := n / 0x100;
    var q2 := q1 / 0x100;
    [q2 / 0x100, q2 % 0x100, q1 % 0x100, n % 0x100]
  }

  function FromBigEndian32(a: byte, b: byte, c: byte, d: byte): uint32 {
    a * 0x100_0000 + b * 0x1_0000 + c * 0x100 + d
  }

  function HeaderBytes(w: WireRecord): seq<byte>
    requires WellFormed(w)
  {
    [w.Flags(), |w.typ|]
    + (if w.sr then [|w.payload|] else BigEndian32(|w.payload|))
    + (if w.il then [|w.id|] else [])
  }

  function Encode(w: WireRecord): seq<byte>
    requires WellFormed(w)
  {
    HeaderBytes(w) + w.typ + w.id + w.payload
  }

  ghost predicate AllWellFormed(ws: seq<WireRecord>) {
    forall i :: 0 <= i < |ws| ==> WellFormed(ws[i])
  }

  function EncodeAll(ws: seq<WireRecord>): seq<byte>
    requires forall i :: 0 <= i < |ws| ==> WellFormed(ws[i])
  {
    if ws == [] then [] else Encode(ws[0]) + EncodeAll(ws[1..])
  }

  // ----- What the reader keeps of a record --------------------------------

  /** `typ` holds at most 32 bytes while `typeLen` keeps the full length; the
      payload is a slice of the message given by position and length. */
  datatype Record = Record(flags: byte, tnf: Tnf, typeLen: byte, typ: seq<byte>, payloadPos: nat, payloadLen: uint32)

  function View(w: WireRecord, pos: nat): Record
    requires WellFormed(w)
  {
    Record(w.Flags(), w.tnf, |w.typ|, w.typ[..Min(|w.typ|, MAX_TYPE_LEN)],
           pos + |HeaderBytes(w)| + |w.typ| + |w.id|, |w.payload|)
  }

  function Views(ws: seq<WireRecord>, pos: nat): (rs: seq<Record>)
    requires forall i :: 0 <= i < |ws| ==> WellFormed(ws[i])
    ensures |rs| == |ws|
  {
    if ws == [] then [] else [View(ws[0], pos)] + Views(ws[1..], pos + |Encode(ws[0])|)
  }

  // ----- Reading one record -----------------------------------------------

  datatype Arithmetic = Exact | Machine

  function End(m: Arithmetic, pos: nat, len: uint32): nat {
    if m.Exact? then pos + len else (pos + len) % 0x1_0000_0000
  }

  datatype Header = Header(flags: byte, typeLen: byte, payloadLen: uint32, idLen: byte, typePos: nat)
  {
    function PayloadPos(): nat { typePos + typeLen + idLen }
  }

  /** The octets before the type field of the record at `pos`, if all there. */
  function ReadFixedPart(msg: seq<byte>, pos: nat): (h: Option<Header>)
    ensures h.Some? ==> pos + 3 <= h.value.typePos <= |msg|
  {
    if pos + 2 > |msg| then None else
      var flags := msg[pos];
      var lenEnd := pos + if ShortRecord(flags) then 3 else 6;
      var typePos := lenEnd + if IdPresent(flags) then 1 else 0;
      if typePos > |msg| then None else
        var payloadLen :=
          if ShortRecord(flags) then msg[pos + 2]
          else FromBigEndian32(msg[pos + 2], msg[pos + 3], msg[pos + 4], msg[pos + 5]);
        Some(Header(flags, msg[pos + 1], payloadLen, if IdPresent(flags) then msg[lenEnd] else 0, typePos))
  }

  /** The header of the record at `pos`, if the message holds it and the type
      and ID fields that follow. */
  function ReadHeader(msg: seq<byte>, pos: nat): (h: Option<Header>)
    ensures h.Some? ==> pos + 3 <= h.value.typePos && h.value.PayloadPos() <= |msg|
  {
    match ReadFixedPart(msg, pos)
    case None => None
    case Some(h) => if h.PayloadPos() <= |msg| then Some(h) else None
  }

  function RecordOf(msg: seq<byte>, h: Header): Record
    requires h.PayloadPos() <= |msg|
  {
    Record(h.flags, h.flags % 8, h.typeLen, msg[h.typePos..h.typePos + Min(h.typeLen, MAX_TYPE_LEN)],
           h.PayloadPos(), h.payloadLen)
  }

  datatype Parsed = Parsed(rec: Record, next: nat)

  function ReadRecord(m: Arithmetic, msg: seq<byte>, pos: nat): (r: Option<Parsed>)
    ensures r.Some? ==> r.value.next <= |msg|
  {
    match ReadHeader(msg, pos)
    case None => None
    case Some(h) =>
      var next := End(m, h.PayloadPos(), h.payloadLen);
      if next > |msg| then None else Some(Parsed(RecordOf(msg, h), next))
  }

  // ----- Reading a message ------------------------------------------------

  datatype Decoded = Decoded(records: seq<Record>, truncated: bool)

  function Then(rec: Record, rest: Decoded): Decoded {
    Decoded([rec] + rest.records, rest.truncated)
  }

  function DecodeFrom(m: Arithmetic, msg: seq<byte>, pos: nat, room: nat): (d: Decoded)
    ensures |d.records| <= room
    decreases room
  {
    if pos >= |msg| then Decoded([], false)
    else if room == 0 then Decoded([], true)
    else
      match ReadRecord(m, msg, pos)
      case None => Decoded([], false)
      case Some(p) =>
        if MessageEnd(p.rec.flags) then Decoded([p.rec], false)
        else Then(p.rec, DecodeFrom(m, msg, p.next, room - 1))
  }

  function Decode(m: Arithmetic, msg: seq<byte>): Decoded {
    DecodeFrom(m, msg, 0, MAX_RECORDS)
  }

  // ----- One record: the reader inverts the writer ------------------------

  lemma BigEndianRoundTrip(n: uint32)
    ensures var s := BigEndian32(n); FromBigEndian32(s[0], s[1], s[2], s[3]) == n
  {
  }

  lemma BigEndianUnique(a: byte, b: byte, c: byte, d: byte)
    ensures BigEndian32(FromBigEndian32(a, b, c, d)) == [a, b, c, d]
  {
    var n := FromBigEndian32(a, b, c, d);
    assert n / 0x100 == (a * 0x100 + b) * 0x100 + c;
    assert n / 0x100 / 0x100 == a * 0x100 + b;
  }

  /** Header bytes, then type, ID and payload, as four adjacent slices. */
  lemma EncodeLayout(w: WireRecord, s: seq<byte>)
    requires WellFormed(w) && Encode(w) <= s
    ensures var h := |HeaderBytes(w)|; var t := h + |w.typ|; var i := t + |w.id|; var e := i + |w.payload|;
            && |Encode(w)| == e <= |s|
            && s[..h] == HeaderBytes(w) && s[h..t] == w.typ && s[t..i] == w.id && s[i..e] == w.payload
  {
    var hb := HeaderBytes(w);
    PrefixSplit(hb + w.typ + w.id, w.payload, s);
    PrefixSplit(hb + w.typ, w.id, s);
    PrefixSplit(hb, w.typ, s);
  }

  lemma HeaderOctets(w: WireRecord)
    requires WellFormed(w)
    ensures var hb := HeaderBytes(w); var n := if w.sr then 3 else 6;
            && |hb| == n + (if w.il then 1 else 0)
            && hb[0] == w.Flags() && hb[1] == |w.typ|
            && (w.sr ==> hb[2] == |w.payload|)
            && (!w.sr ==> FromBigEndian32(hb[2], hb[3], hb[4], hb[5]) == |w.payload|)
            && (w.il ==> hb[n] == |w.id|)
  {
    BigEndianRoundTrip(|w.payload|);
  }

  lemma ReadHeaderOfEncoding(w: WireRecord, msg: seq<byte>, pos: nat)
    requires WellFormed(w) && pos <= |msg| && HeaderBytes(w) <= msg[pos..]
    requires pos + |HeaderBytes(w)| + |w.typ| + |w.id| <= |msg|
    ensures ReadHeader(msg, pos) ==
            Some(Header(w.Flags(), |w.typ|, |w.payload|, |w.id|, pos + |HeaderBytes(w)|))
  {
    HeaderOctets(w);
    var hb := HeaderBytes(w);
    forall i | 0 <= i < |hb| ensures msg[pos + i] == hb[i] {
      assert msg[pos..][i] == hb[i];
    }
  }

  lemma ReadRecordOfEncoding(w: WireRecord, msg: seq<byte>, pos: nat)
    requires WellFormed(w) && pos <= |msg| && Encode(w) <= msg[pos..]
    ensures ReadRecord(Exact, msg, pos) == Some(Parsed(View(w, pos), pos + |Encode(w)|))
  {
    hide ReadHeader, HeaderBytes, Encode;
    var h := |HeaderBytes(w)|;
    var k := Min(|w.typ|, MAX_TYPE_LEN);
    EncodeLayout(w, msg[pos..]);
    ReadHeaderOfEncoding(w, msg, pos);
    assert msg[pos + h..pos + h + k] == w.typ[..k] by {
      SliceOfDrop(msg, pos, h, h + |w.typ|);
      SliceOfSlice(msg, pos + h, pos + h + |w.typ|, k);
    }
  }

  lemma FlagsOfBits(f: byte)
    ensures f == Bit(f / 128 == 1, 128) + Bit(f / 64 % 2 == 1, 64) + Bit(f / 32 % 2 == 1, 32)
                 + Bit(f / 16 % 2 == 1, 16) + Bit(f / 8 % 2 == 1, 8) + f % 8
  {
    assert f / 64 == 2 * (f / 128) + f / 64 % 2;
    assert f / 32 == 2 * (f / 64) + f / 32 % 2;
    assert f / 16 == 2 * (f / 32) + f / 16 % 2;
    assert f / 8 == 2 * (f / 16) + f / 8 % 2;
  }

  lemma WireAtFlags(msg: seq<byte>, h: Header)
    requires h.PayloadPos() + h.payloadLen <= |msg|
    ensures var w := WireAt(msg, h);
            w.Flags() == h.flags && w.sr == ShortRecord(h.flags) && w.il == IdPresent(h.flags)
  {
    FlagsOfBits(h.flags);
  }

  /** The record that a successful read found, reassembled from the bytes. */
  function WireAt(msg: seq<byte>, h: Header): WireRecord
    requires h.PayloadPos() + h.payloadLen <= |msg|
  {
    WireRecord(h.flags / 128 == 1, h.flags / 64 % 2 == 1, h.flags / 32 % 2 == 1, h.flags / 16 % 2 == 1,
               h.flags / 8 % 2 == 1, h.flags % 8,
               msg[h.typePos..h.typePos + h.typeLen],
               msg[h.typePos + h.typeLen..h.PayloadPos()],
               msg[h.PayloadPos()..h.PayloadPos() + h.payloadLen])
  }

  lemma ReadHeaderBytes(msg: seq<byte>, pos: nat)
    requires pos <= |msg| && ReadHeader(msg, pos).Some?
    ensures var h := ReadHeader(msg, pos).value;
            h.PayloadPos() + h.payloadLen <= |msg| ==>
              WellFormed(WireAt(msg, h)) && HeaderBytes(WireAt(msg, h)) == msg[pos..h.typePos]
  {
    var h := ReadHeader(msg, pos).value;
    if h.PayloadPos() + h.payloadLen <= |msg| {
      var w := WireAt(msg, h);
      WireAtFlags(msg, h);
      hide WireRecord.Flags;
      hide ShortRecord, IdPresent, BigEndian32, FromBigEndian32;
      if ShortRecord(h.flags) {
        assert msg[pos..pos + 3] == [w.Flags(), |w.typ|] + [|w.payload|];
      } else {
        BigEndianUnique(msg[pos + 2], msg[pos + 3], msg[pos + 4], msg[pos + 5]);
        assert msg[pos..pos + 6] == [w.Flags(), |w.typ|] + BigEndian32(|w.payload|);
      }
    }
  }

  lemma EncodeOfSlices(msg: seq<byte>, pos: nat, h: Header)
    requires pos <= h.typePos && h.PayloadPos() + h.payloadLen <= |msg|
    requires WellFormed(WireAt(msg, h)) && HeaderBytes(WireAt(msg, h)) == msg[pos..h.typePos]
    ensures Encode(WireAt(msg, h)) == msg[pos..h.PayloadPos() + h.payloadLen]
    ensures Encode(WireAt(msg, h)) <= msg[pos..]
  {
    hide HeaderBytes, WellFormed;
    var w := WireAt(msg, h);
    var typeEnd := h.typePos + h.typeLen;
    assert msg[pos..h.typePos] + w.typ == msg[pos..typeEnd];
    assert msg[pos..typeEnd] + w.id == msg[pos..h.PayloadPos()];
    assert msg[pos..h.PayloadPos()] + w.payload == msg[pos..h.PayloadPos() + h.payloadLen];
  }

  lemma ReadRecordIsEncoding(msg: seq<byte>, pos: nat)
    requires pos <= |msg| && ReadRecord(Exact, msg, pos).Some?
    ensures var h := ReadHeader(msg, pos).value;
            var w := WireAt(msg, h);
            && WellFormed(w) && Encode(w) <= msg[pos..]
            && ReadRecord(Exact, msg, pos) == Some(Parsed(View(w, pos), pos + |Encode(w)|))
  {
    var h := ReadHeader(msg, pos).value;
    ReadHeaderBytes(msg, pos);
    var w := WireAt(msg, h);
    EncodeOfSlices(msg, pos, h);
    ReadRecordOfEncoding(w, msg, pos);
  }

  // ----- Whole messages: a declarative account of the decoder -------------

  ghost predicate StartsWithRecord(s: seq<byte>) {
    exists w: WireRecord :: WellFormed(w) && Encode(w) <= s
  }

  /** `ws` is the reading of `s` with space for `room` records: their encodings
      open `s` one after the other, none but the last ends the message, and the
      reading stops there for a reason. `truncated` says the reason is space. */
  ghost predicate IsReading(s: seq<byte>, ws: seq<WireRecord>, room: nat, truncated: bool) {
    && AllWellFormed(ws)
    && |ws| <= room
    && EncodeAll(ws) <= s
    && (forall i :: 0 <= i < |ws| - 1 ==> !ws[i].me)
    && var rest := s[|EncodeAll(ws)|..];
       var ended := |ws| > 0 && ws[|ws| - 1].me;
       && truncated == (!ended && |ws| == room && rest != [])
       && (ended || |ws| == room || !StartsWithRecord(rest))
  }

  lemma EncodeNonEmpty(w: WireRecord)
    requires WellFormed(w)
    ensures |Encode(w)| >= 3
  {
  }

  lemma ReadingUncons(s: seq<byte>, ws: seq<WireRecord>, room: nat, truncated: bool)
    requires ws != [] && IsReading(s, ws, room, truncated)
    ensures WellFormed(ws[0]) && Encode(ws[0]) <= s
    ensures ws[0].me ==> |ws| == 1 && !truncated
    ensures !ws[0].me ==> IsReading(s[|Encode(ws[0])|..], ws[1..], room - 1, truncated)
  {
    PrefixSplit(Encode(ws[0]), EncodeAll(ws[1..]), s);
    var t := s[|Encode(ws[0])|..];
    assert t[|EncodeAll(ws[1..])|..] == s[|EncodeAll(ws)|..];
    if |ws| > 1 {
      assert ws[1..][|ws| - 2] == ws[|ws| - 1];
      assert !ws[0].me;
    }
  }

  lemma ReadingCons(s: seq<byte>, w: WireRecord, ws: seq<WireRecord>, room: nat, truncated: bool)
    requires WellFormed(w) && Encode(w) <= s && !w.me
    requires IsReading(s[|Encode(w)|..], ws, room, truncated)
    ensures IsReading(s, [w] + ws, room + 1, truncated)
  {
    var all := [w] + ws;
    assert all[1..] == ws;
    assert EncodeAll(all) == Encode(w) + EncodeAll(ws);
    PrefixJoin(Encode(w), EncodeAll(ws), s);
    assert s[|Encode(w)|..][|EncodeAll(ws)|..] == s[|EncodeAll(all)|..];
  }

  lemma DecodeOfEmptyReading(msg: seq<byte>, pos: nat, room: nat, truncated: bool)
    requires pos <= |msg| && IsReading(msg[pos..], [], room, truncated)
    ensures DecodeFrom(Exact, msg, pos, room) == Decoded([], truncated)
  {
    var s := msg[pos..];
    assert s[0..] == s;
    if pos < |msg| && room > 0 && ReadRecord(Exact, msg, pos).Some? {
      ReadRecordIsEncoding(msg, pos);
      assert StartsWithRecord(s);
      assert false;
    }
  }

  lemma DecodeStep(msg: seq<byte>, pos: nat, w: WireRecord, next: nat, room: nat, rest: Decoded)
    requires WellFormed(w) && pos <= |msg| && Encode(w) <= msg[pos..] && room > 0
    requires next == pos + |Encode(w)|
    requires rest == if w.me then Decoded([], false) else DecodeFrom(Exact, msg, next, room - 1)
    ensures DecodeFrom(Exact, msg, pos, room) == Then(View(w, pos), rest)
  {
    hide Encode, ReadHeader;
    EncodeNonEmpty(w);
    ReadRecordOfEncoding(w, msg, pos);
  }

  /** Any reading of the message is what the decoder returns. */
  lemma {:induction false} DecodeOfReading(msg: seq<byte>, pos: nat, ws: seq<WireRecord>, room: nat, truncated: bool)
    requires pos <= |msg| && IsReading(msg[pos..], ws, room, truncated)
    ensures DecodeFrom(Exact, msg, pos, room) == Decoded(Views(ws, pos), truncated)
    decreases room
  {
    hide DecodeFrom, Encode, ReadRecord, StartsWithRecord;
    if ws == [] {
      DecodeOfEmptyReading(msg, pos, room, truncated);
    } else {
      ReadingUncons(msg[pos..], ws, room, truncated);
      var w := ws[0];
      var next := pos + |Encode(w)|;
      if !w.me {
        assert msg[pos..][|Encode(w)|..] == msg[next..];
        DecodeOfReading(msg, next, ws[1..], room - 1, truncated);
      }
      DecodeStep(msg, pos, w, next, room, Decoded(Views(ws[1..], next), truncated));
    }
  }

  /** Every byte string has a reading. */
  lemma {:induction false} ReadingExists(msg: seq<byte>, pos: nat, room: nat)
    returns (ws: seq<WireRecord>, truncated: bool)
    requires pos <= |msg|
    ensures IsReading(msg[pos..], ws, room, truncated)
    decreases room
  {
    var s := msg[pos..];
    assert s[0..] == s;
    if room == 0 {
      ws, truncated := [], s != [];
    } else if ReadRecord(Exact, msg, pos).None? {
      ws, truncated := [], false;
      if StartsWithRecord(s) {
        var w: WireRecord :| WellFormed(w) && Encode(w) <= s;
        ReadRecordOfEncoding(w, msg, pos);
        assert false;
      }
    } else {
      ReadRecordIsEncoding(msg, pos);
      var w := WireAt(msg, ReadHeader(msg, pos).value);
      var next := pos + |Encode(w)|;
      if w.me {
        ws, truncated := [w], false;
        assert EncodeAll(ws) == Encode(w) + EncodeAll(ws[1..]) == Encode(w);
      } else {
        var rest;
        rest, truncated := ReadingExists(msg, next, room - 1);
        assert s[|Encode(w)|..] == msg[next..];
        ReadingCons(s, w, rest, room - 1, truncated);
        ws := [w] + rest;
      }
    }
  }

  /** The decoder's result is the reading of the message: one exists and, by
      `DecodeOfReading`, no other reading gives a different result. */
  lemma DecodeIsTheReading(msg: seq<byte>) returns (ws: seq<WireRecord>, truncated: bool)
    ensures IsReading(msg, ws, MAX_RECORDS, truncated)
    ensures Decode(Exact, msg) == Decoded(Views(ws, 0), truncated)
  {
    hide IsReading, DecodeFrom;
    assert msg[0..] == msg;
    ws, truncated := ReadingExists(msg, 0, MAX_RECORDS);
    DecodeOfReading(msg, 0, ws, MAX_RECORDS, truncated);
  }

  /** How many of `ws` a reader with space for `room` keeps: up to the first
      record that ends the message. */
  function KeptCount(ws: seq<WireRecord>, room: nat): (k: nat)
    ensures k <= |ws| && k <= room
    ensures forall i :: 0 <= i < k - 1 ==> !ws[i].me
    ensures k == |ws| || k == room || (k > 0 && ws[k - 1].me)
  {
    if ws == [] || room == 0 then 0
    else if ws[0].me then 1
    else 1 + KeptCount(ws[1..], room - 1)
  }

  /** Records were left out for want of space only. */
  predicate CutForSpace(ws: seq<WireRecord>, room: nat) {
    && |ws| > room
    && forall i :: 0 <= i < room ==> !ws[i].me
  }

  lemma CutForSpaceTail(ws: seq<WireRecord>, room: nat)
    requires ws != [] && room > 0
    ensures ws[0].me ==> !CutForSpace(ws, room)
    ensures !ws[0].me ==> CutForSpace(ws, room) == CutForSpace(ws[1..], room - 1)
  {
    if !ws[0].me && CutForSpace(ws[1..], room - 1) {
      assert forall i :: 0 < i < room ==> ws[i] == ws[1..][i - 1];
    }
  }

  lemma EncodeAllNonEmpty(ws: seq<WireRecord>)
    requires AllWellFormed(ws)
    ensures EncodeAll(ws) == [] <==> ws == []
  {
  }

  lemma KeptCountStep(ws: seq<WireRecord>, room: nat)
    requires ws != [] && room > 0
    ensures var k := KeptCount(ws, room);
            && k > 0 && ws[..k][0] == ws[0] && ws[..k][1..] == ws[1..][..k - 1]
            && if ws[0].me then k == 1 else k == 1 + KeptCount(ws[1..], room - 1)
  {
  }

  lemma ViewsOfKept(ws: seq<WireRecord>, pos: nat, room: nat)
    requires AllWellFormed(ws) && ws != [] && room > 0
    ensures var k := KeptCount(ws, room); var next := pos + |Encode(ws[0])|;
            Views(ws[..k], pos) == [View(ws[0], pos)] +
              if ws[0].me then [] else Views(ws[1..][..KeptCount(ws[1..], room - 1)], next)
  {
    hide View, Encode;
    KeptCountStep(ws, room);
  }

  lemma DecodeOfNothingKept(msg: seq<byte>, pos: nat, ws: seq<WireRecord>, room: nat)
    requires AllWellFormed(ws) && pos <= |msg| && EncodeAll(ws) == msg[pos..]
    requires ws == [] || room == 0
    ensures DecodeFrom(Exact, msg, pos, room) ==
            Decoded(Views(ws[..KeptCount(ws, room)], pos), CutForSpace(ws, room))
  {
    hide Encode, ReadRecord;
    EncodeAllNonEmpty(ws);
  }

  lemma {:induction false} DecodeOfEncodingFrom(msg: seq<byte>, pos: nat, ws: seq<WireRecord>, room: nat)
    requires AllWellFormed(ws) && pos <= |msg| && EncodeAll(ws) == msg[pos..]
    ensures DecodeFrom(Exact, msg, pos, room) ==
            Decoded(Views(ws[..KeptCount(ws, room)], pos), CutForSpace(ws, room))
    decreases room
  {
    hide Encode, DecodeFrom, CutForSpace, KeptCount, View, Views;
    if ws == [] || room == 0 {
      DecodeOfNothingKept(msg, pos, ws, room);
    } else {
      var w, rest := ws[0], ws[1..];
      var next := pos + |Encode(w)|;
      PrefixSplit(Encode(w), EncodeAll(rest), msg[pos..]);
      CutForSpaceTail(ws, room);
      ViewsOfKept(ws, pos, room);
      if w.me {
        DecodeStep(msg, pos, w, next, room, Decoded([], false));
      } else {
        assert EncodeAll(rest) == msg[next..];
        DecodeOfEncodingFrom(msg, next, rest, room - 1);
        DecodeStep(msg, pos, w, next, room, DecodeFrom(Exact, msg, next, room - 1));
      }
    }
  }

  /** The decoder inverts the encoder on every list of records, whatever their
      length form and with or without an ID: all of them up to the first that
      ends the message come back, at most 8, and `truncated` tells the rest. */
  lemma DecodeOfEncoding(ws: seq<WireRecord>)
    requires AllWellFormed(ws)
    ensures Decode(Exact, EncodeAll(ws)) == Decoded(Views(ws[..KeptCount(ws, 8)], 0), CutForSpace(ws, 8))
  {
    assert EncodeAll(ws)[0..] == EncodeAll(ws);
    DecodeOfEncodingFrom(EncodeAll(ws), 0, ws, MAX_RECORDS);
  }

  lemma KeptCountAll(ws: seq<WireRecord>, room: nat)
    requires |ws| <= room
    requires forall i :: 0 <= i < |ws| - 1 ==> !ws[i].me
    ensures KeptCount(ws, room) == |ws|
  {
    if ws != [] && room > 0 {
      KeptCountAll(ws[1..], room - 1);
    }
  }

  function PayloadOf(msg: seq<byte>, r: Record): seq<byte>
    requires r.payloadPos + r.payloadLen <= |msg|
  {
    msg[r.payloadPos..r.payloadPos + r.payloadLen]
  }

  lemma HeaderSize(w: WireRecord)
    requires WellFormed(w)
    ensures |HeaderBytes(w)| >= 3
  {
  }

  lemma ViewOfRecord(msg: seq<byte>, pos: nat, w: WireRecord)
    requires WellFormed(w) && pos <= |msg| && Encode(w) <= msg[pos..]
    ensures var r := View(w, pos);
            && pos + 3 <= r.payloadPos && r.payloadPos + r.payloadLen == pos + |Encode(w)| <= |msg|
            && PayloadOf(msg, r) == w.payload
  {
    hide HeaderBytes, WellFormed, Encode;
    EncodeLayout(w, msg[pos..]);
    HeaderSize(w);
    var a := |HeaderBytes(w)| + |w.typ| + |w.id|;
    SliceOfDrop(msg, pos, a, a + |w.payload|);
  }

  /** Records read from the message tile a prefix of it: each kept field is the
      one that was written and each payload is a slice inside that prefix. */
  lemma {:induction false} ViewsTile(msg: seq<byte>, pos: nat, ws: seq<WireRecord>, i: nat)
    requires AllWellFormed(ws) && pos <= |msg| && EncodeAll(ws) <= msg[pos..] && i < |ws|
    ensures var r := Views(ws, pos)[i];
            && r.flags == ws[i].Flags() && r.tnf == ws[i].tnf && r.typeLen == |ws[i].typ|
            && r.typ == ws[i].typ[..Min(r.typeLen, 32)]
            && pos + 3 <= r.payloadPos
            && r.payloadPos + r.payloadLen <= pos + |EncodeAll(ws)| <= |msg|
            && PayloadOf(msg, r) == ws[i].payload
    decreases i
  {
    hide HeaderBytes, WellFormed, Encode;
    var w, rest := ws[0], ws[1..];
    PrefixSplit(Encode(w), EncodeAll(rest), msg[pos..]);
    var next := pos + |Encode(w)|;
    ViewOfRecord(msg, pos, w);
    assert msg[pos..][|Encode(w)|..] == msg[next..];
    if i > 0 {
      ViewsTile(msg, next, rest, i - 1);
    }
  }

  /** Payload slices are ordered, disjoint, and leave room for a header. */
  lemma {:induction false} ViewsOrdered(msg: seq<byte>, pos: nat, ws: seq<WireRecord>, i: nat, j: nat)
    requires AllWellFormed(ws) && pos <= |msg| && EncodeAll(ws) <= msg[pos..] && i < j < |ws|
    ensures var q, r := Views(ws, pos)[i], Views(ws, pos)[j];
            q.payloadPos + q.payloadLen + 3 <= r.payloadPos
    decreases i
  {
    hide HeaderBytes, WellFormed, Encode;
    var w, rest := ws[0], ws[1..];
    PrefixSplit(Encode(w), EncodeAll(rest), msg[pos..]);
    var next := pos + |Encode(w)|;
    ViewOfRecord(msg, pos, w);
    assert msg[pos..][|Encode(w)|..] == msg[next..];
    if i == 0 {
      ViewsTile(msg, next, rest, j - 1);
    } else {
      ViewsOrdered(msg, next, rest, i - 1, j - 1);
    }
  }

  /** One turn of the decoding loop, in terms of the header it meets. */
  lemma DecodeFromHeader(m: Arithmetic, msg: seq<byte>, pos: nat, room: nat, h: Header)
    requires pos < |msg| && room > 0 && ReadHeader(msg, pos) == Some(h)
    ensures h.PayloadPos() <= |msg|
    ensures var next := End(m, h.PayloadPos(), h.payloadLen);
            DecodeFrom(m, msg, pos, room) ==
            if next > |msg| then Decoded([], false)
            else if MessageEnd(h.flags) then Decoded([RecordOf(msg, h)], false)
            else Then(RecordOf(msg, h), DecodeFrom(m, msg, next, room - 1))
  {
  }

  /** `done` records are out and `rest` is still to come of `whole`. */
  ghost predicate Continues(whole: Decoded, done: seq<Record>, rest: Decoded) {
    whole == Decoded(done + rest.records, rest.truncated)
  }

  lemma DecodeWithoutRoom(m: Arithmetic, msg: seq<byte>, pos: nat)
    requires pos < |msg|
    ensures DecodeFrom(m, msg, pos, 0) == Decoded([], true)
  {
  }

  lemma DecodeAtEnd(m: Arithmetic, msg: seq<byte>, pos: nat, room: nat)
    requires pos >= |msg|
    ensures DecodeFrom(m, msg, pos, room) == Decoded([], false)
  {
  }

  /** One turn of the decoding loop, after `done` records. */
  lemma ContinuesTurn(m: Arithmetic, msg: seq<byte>, done: seq<Record>, pos: nat, room: nat)
    requires pos < |msg| && room > 0
    ensures var rest := DecodeFrom(m, msg, pos, room);
            match ReadRecord(m, msg, pos)
            case None => rest == Decoded([], false)
            case Some(p) =>
              forall whole :: Continues(whole, done, rest) ==>
                Continues(whole, done + [p.rec],
                          if MessageEnd(p.rec.flags) then Decoded([], false) else DecodeFrom(m, msg, p.next, room - 1))
  {
    hide ReadHeader;
    match ReadRecord(m, msg, pos)
    case None =>
    case Some(p) =>
      var tail := if MessageEnd(p.rec.flags) then Decoded([], false) else DecodeFrom(m, msg, p.next, room - 1);
      assert DecodeFrom(m, msg, pos, room) == Then(p.rec, tail);
      hide DecodeFrom, ReadRecord;
      assert done + ([p.rec] + tail.records) == done + [p.rec] + tail.records;
  }

  // ----- Machine arithmetic -----------------------------------------------

  /** Where the walk in exact integers meets a record that overruns the message
      by so much that its end, taken modulo 2^32, falls inside it again. */
  predicate WrapsFrom(msg: seq<byte>, pos: nat, room: nat)
    decreases room
  {
    && pos < |msg| && room > 0
    && var h := ReadHeader(msg, pos);
       && h.Some?
       && var end := h.value.PayloadPos() + h.value.payloadLen;
          if end <= |msg| then !MessageEnd(h.value.flags) && WrapsFrom(msg, end, room - 1)
          else TWO_TO_32 <= end <= TWO_TO_32 + |msg|
  }

  predicate Wraps(msg: seq<byte>) {
    WrapsFrom(msg, 0, MAX_RECORDS)
  }

  lemma ThenInjective(r: Record, a: Decoded, b: Decoded)
    ensures Then(r, a) == Then(r, b) <==> a == b
  {
    assert Then(r, a).records[1..] == a.records;
    assert Then(r, b).records[1..] == b.records;
  }

  lemma MachineEnd(pos: nat, len: uint32)
    requires pos <= MAX_MESSAGE
    ensures End(Machine, pos, len) == if pos + len < TWO_TO_32 then pos + len else pos + len - TWO_TO_32
    ensures End(Exact, pos, len) == pos + len
  {
  }

  lemma {:induction false} MachineAgreesFrom(msg: seq<byte>, pos: nat, room: nat)
    requires |msg| <= MAX_MESSAGE
    ensures DecodeFrom(Machine, msg, pos, room) == DecodeFrom(Exact, msg, pos, room) <==> !WrapsFrom(msg, pos, room)
    decreases room
  {
    hide ReadHeader, RecordOf;
    if pos < |msg| && room > 0 && ReadHeader(msg, pos).Some? {
      hide DecodeFrom, End;
      MachineEnd(ReadHeader(msg, pos).value.PayloadPos(), ReadHeader(msg, pos).value.payloadLen);
      var h := ReadHeader(msg, pos).value;
      var end := h.PayloadPos() + h.payloadLen;
      DecodeFromHeader(Exact, msg, pos, room, h);
      DecodeFromHeader(Machine, msg, pos, room, h);
      if end <= |msg| {
        MachineAgreesFrom(msg, end, room - 1);
        ThenInjective(RecordOf(msg, h), DecodeFrom(Exact, msg, end, room - 1), DecodeFrom(Machine, msg, end, room - 1));
        hide Then;
      }
    }
  }

  /** The code's 32-bit end check decodes as exact integers would if and only if
      no reached record wraps. */
  lemma MachineAgrees(msg: seq<byte>)
    requires |msg| <= MAX_MESSAGE
    ensures Decode(Machine, msg) == Decode(Exact, msg) <==> !Wraps(msg)
  {
    MachineAgreesFrom(msg, 0, MAX_RECORDS);
  }

  /** Nothing a writer produces wraps, from any record of the message on. */
  lemma {:induction false} EncodingNeverWrapsFrom(msg: seq<byte>, pos: nat, ws: seq<WireRecord>, room: nat)
    requires AllWellFormed(ws) && pos <= |msg| && EncodeAll(ws) == msg[pos..]
    ensures !WrapsFrom(msg, pos, room)
    decreases room
  {
    hide Encode, ReadHeader, HeaderBytes;
    if ws != [] && pos < |msg| && room > 0 {
      var w, rest := ws[0], ws[1..];
      PrefixSplit(Encode(w), EncodeAll(rest), msg[pos..]);
      HeaderIsPrefix(w, msg, pos);
      ReadHeaderOfEncoding(w, msg, pos);
      var next := pos + |Encode(w)|;
      assert EncodeAll(rest) == msg[next..];
      EncodingNeverWrapsFrom(msg, next, rest, room - 1);
    }
  }

  lemma HeaderIsPrefix(w: WireRecord, msg: seq<byte>, pos: nat)
    requires WellFormed(w) && pos <= |msg| && Encode(w) <= msg[pos..]
    ensures HeaderBytes(w) <= msg[pos..]
    ensures |Encode(w)| == |HeaderBytes(w)| + |w.typ| + |w.id| + |w.payload|
    ensures pos + |Encode(w)| <= |msg|
  {
    EncodeLayout(w, msg[pos..]);
  }

  /** The code itself, in its own arithmetic, inverts the encoder. */
  lemma MachineDecodeOfEncoding(ws: seq<WireRecord>)
    requires AllWellFormed(ws) && |EncodeAll(ws)| <= MAX_MESSAGE
    ensures Decode(Machine, EncodeAll(ws)) == Decoded(Views(ws[..KeptCount(ws, 8)], 0), CutForSpace(ws, 8))
  {
    hide DecodeFrom, WrapsFrom, EncodeAll, Views, CutForSpace;
    var msg := EncodeAll(ws);
    assert msg[0..] == msg;
    EncodingNeverWrapsFrom(msg, 0, ws, MAX_RECORDS);
    MachineAgrees(msg);
    DecodeOfEncoding(ws);
  }

  lemma {:induction false} WrappedRecord(msg: seq<byte>, pos: nat, room: nat) returns (i: nat)
    requires |msg| <= MAX_MESSAGE && WrapsFrom(msg, pos, room)
    ensures var rs := DecodeFrom(Machine, msg, pos, room).records;
            i < |rs| && rs[i].payloadLen >= TWO_TO_32 - |msg|
    decreases room
  {
    hide ReadHeader, DecodeFrom;
    var h := ReadHeader(msg, pos).value;
    var end := h.PayloadPos() + h.payloadLen;
    DecodeFromHeader(Machine, msg, pos, room, h);
    if end <= |msg| {
      i := WrappedRecord(msg, end, room - 1);
      i := i + 1;
    } else {
      i := 0;
    }
  }

  /** Some list of records, encoded, opens the message and is what `rs` shows. */
  ghost predicate Tiles(msg: seq<byte>, rs: seq<Record>) {
    exists ws: seq<WireRecord> :: AllWellFormed(ws) && EncodeAll(ws) <= msg && Views(ws, 0) == rs
  }

  /** The records the code accepts tile a prefix of the message if and only if
      no reached record wraps. */
  lemma MachineTiles(msg: seq<byte>)
    requires |msg| <= MAX_MESSAGE
    ensures Tiles(msg, Decode(Machine, msg).records) <==> !Wraps(msg)
  {
    hide DecodeFrom, WrapsFrom, EncodeAll, Views;
    MachineAgrees(msg);
    var rs := Decode(Machine, msg).records;
    if !Wraps(msg) {
      var ws, truncated := DecodeIsTheReading(msg);
    } else if Tiles(msg, rs) {
      var ws: seq<WireRecord> :| AllWellFormed(ws) && EncodeAll(ws) <= msg && Views(ws, 0) == rs;
      var i := WrappedRecord(msg, 0, MAX_RECORDS);
      assert msg[0..] == msg;
      ViewsTile(msg, 0, ws, i);
      assert false;
    }
  }

  /** A short text record of one letter, the first or the last of a message. */
  function TextRecord(first: bool, letter: byte): WireRecord {
    WireRecord(first, !first, false, true, false, 1, [0x54], [], [letter])
  }

  lemma TextRecordOctets(first: bool, letter: byte, pos: nat)
    ensures WellFormed(TextRecord(first, letter))
    ensures Encode(TextRecord(first, letter)) == [if first then 0x91 else 0x51, 0x01, 0x01, 0x54, letter]
    ensures View(TextRecord(first, letter), pos) == Record(if first then 0x91 else 0x51, 1, 1, [0x54], pos + 4, 1)
  {
    var w := TextRecord(first, letter);
    assert HeaderBytes(w) == [if first then 0x91 else 0x51, 0x01, 0x01];
    assert w.typ[..1] == w.typ;
  }

  /** Two such records, octet by octet: the first begins the message, the second
      ends it. Both come back. */
  lemma TwoRecordMessage()
    ensures var msg := [0x91, 0x01, 0x01, 0x54, 0x61, 0x51, 0x01, 0x01, 0x54, 0x62];
            Decode(Machine, msg) ==
            Decoded([Record(0x91, 1, 1, [0x54], 4, 1), Record(0x51, 1, 1, [0x54], 9, 1)], false)
  {
    var first, second := TextRecord(true, 0x61), TextRecord(false, 0x62);
    TextRecordOctets(true, 0x61, 0);
    TextRecordOctets(false, 0x62, 5);
    var ws := [first, second];
    assert !first.me;
    hide Encode, View, TextRecord, WellFormed, DecodeFrom;
    assert ws[1..] == [second] && [second][1..] == [] && ws[..2] == ws;
    assert EncodeAll([second]) == Encode(second) + EncodeAll([]);
    assert EncodeAll(ws) == [0x91, 0x01, 0x01, 0x54, 0x61, 0x51, 0x01, 0x01, 0x54, 0x62];
    MachineDecodeOfEncoding(ws);
    KeptCountAll(ws, 8);
    assert Views([second], 5) == [View(second, 5)] + Views([], 10);
    assert Views(ws, 0) == [View(first, 0)] + Views([second], 5);
  }

  /** A six-byte message whose one header claims 2^32 - 6 payload bytes: its end
      wraps to 0, so the code decodes the same header until space runs out,
      where exact integers find no record at all. */
  const WRAPPING_MESSAGE: seq<byte> := [0x01, 0x00, 0xFF, 0xFF, 0xFF, 0xFA]

  const WRAPPING_HEADER := Header(0x01, 0, 0xFFFF_FFFA, 0, 6)

  lemma WrappingHeaderRead()
    ensures ReadHeader(WRAPPING_MESSAGE, 0) == Some(WRAPPING_HEADER)
    ensures !MessageEnd(WRAPPING_HEADER.flags)
    ensures End(Machine, 6, 0xFFFF_FFFA) == 0 && End(Exact, 6, 0xFFFF_FFFA) > 6
  {
  }

  lemma {:induction false} WrappingMessageFrom(room: nat)
    ensures var d := DecodeFrom(Machine, WRAPPING_MESSAGE, 0, room); |d.records| == room && d.truncated
    ensures DecodeFrom(Exact, WRAPPING_MESSAGE, 0, room).records == []
  {
    if room > 0 {
      WrappingHeaderRead();
      hide ReadHeader, DecodeFrom, RecordOf, End, MessageEnd;
      DecodeFromHeader(Exact, WRAPPING_MESSAGE, 0, room, WRAPPING_HEADER);
      DecodeFromHeader(Machine, WRAPPING_MESSAGE, 0, room, WRAPPING_HEADER);
      WrappingMessageFrom(room - 1);
    }
  }

  lemma WrappingMessage()
    ensures |Decode(Machine, WRAPPING_MESSAGE).records| == 8 && Decode(Machine, WRAPPING_MESSAGE).truncated
    ensures Decode(Exact, WRAPPING_MESSAGE).records == []
    ensures Wraps(WRAPPING_MESSAGE)
  {
    WrappingMessageFrom(MAX_RECORDS);
    MachineAgrees(WRAPPING_MESSAGE);
  }

  // ----- Cutting the message short ----------------------------------------

  lemma HeaderOfPrefix(cut: seq<byte>, msg: seq<byte>, pos: nat)
    requires cut <= msg
    ensures var h := ReadHeader(msg, pos);
            ReadHeader(cut, pos) == if h.Some? && h.value.PayloadPos() <= |cut| then h else None
  {
    hide ShortRecord, IdPresent, FromBigEndian32;
  }

  /** The record lies within the first `k` bytes, ends taken as `m` takes them. */
  predicate Fits(m: Arithmetic, r: Record, k: nat) {
    r.payloadPos <= k && End(m, r.payloadPos, r.payloadLen) <= k
  }

  lemma DecodeFromEnd(m: Arithmetic, msg: seq<byte>, pos: nat, room: nat)
    requires pos >= |msg| || room == 0 || ReadHeader(msg, pos).None?
    ensures DecodeFrom(m, msg, pos, room).records == []
  {
  }

  lemma HeaderFirst(msg: seq<byte>, pos: nat)
    requires ReadHeader(msg, pos).Some?
    ensures pos < |msg|
  {
  }

  ghost predicate LongestFit(m: Arithmetic, cut: seq<Record>, full: seq<Record>, k: nat) {
    && cut <= full
    && (forall i :: 0 <= i < |cut| ==> Fits(m, full[i], k))
    && (|cut| < |full| ==> !Fits(m, full[|cut|], k))
  }

  lemma LongestFitCons(m: Arithmetic, r: Record, cut: seq<Record>, full: seq<Record>, k: nat)
    requires Fits(m, r, k) && LongestFit(m, cut, full, k)
    ensures LongestFit(m, [r] + cut, [r] + full, k)
  {
  }

  /** One turn of decoding both the message and its first bytes `cut`, at a
      header that lies within them: the last turn of the cut, or one before. */
  lemma DecodePrefixLast(m: Arithmetic, cut: seq<byte>, msg: seq<byte>, pos: nat, room: nat, h: Header)
    requires pos < |cut| && cut <= msg && room > 0
    requires ReadHeader(msg, pos) == Some(h) && ReadHeader(cut, pos) == Some(h)
    requires End(m, h.PayloadPos(), h.payloadLen) > |cut| || MessageEnd(h.flags)
    ensures LongestFit(m, DecodeFrom(m, cut, pos, room).records, DecodeFrom(m, msg, pos, room).records, |cut|)
  {
    hide ReadHeader, DecodeFrom;
    DecodeFromHeader(m, msg, pos, room, h);
    DecodeFromHeader(m, cut, pos, room, h);
    RecordOfPrefix(cut, msg, h);
  }

  lemma DecodePrefixCons(m: Arithmetic, cut: seq<byte>, msg: seq<byte>, pos: nat, next: nat, room: nat, h: Header)
    requires pos < |cut| && cut <= msg && room > 0
    requires ReadHeader(msg, pos) == Some(h) && ReadHeader(cut, pos) == Some(h)
    requires next == End(m, h.PayloadPos(), h.payloadLen) && next <= |cut| && !MessageEnd(h.flags)
    requires LongestFit(m, DecodeFrom(m, cut, next, room - 1).records,
                        DecodeFrom(m, msg, next, room - 1).records, |cut|)
    ensures LongestFit(m, DecodeFrom(m, cut, pos, room).records, DecodeFrom(m, msg, pos, room).records, |cut|)
  {
    hide ReadHeader, DecodeFrom, LongestFit;
    DecodeFromHeader(m, msg, pos, room, h);
    DecodeFromHeader(m, cut, pos, room, h);
    RecordOfPrefix(cut, msg, h);
    LongestFitCons(m, RecordOf(msg, h), DecodeFrom(m, cut, next, room - 1).records,
                   DecodeFrom(m, msg, next, room - 1).records, |cut|);
  }

  lemma RecordOfPrefix(cut: seq<byte>, msg: seq<byte>, h: Header)
    requires cut <= msg && h.PayloadPos() <= |cut|
    ensures RecordOf(cut, h) == RecordOf(msg, h)
  {
    SliceOfTake(msg, |cut|, h.typePos, h.typePos + Min(h.typeLen, MAX_TYPE_LEN));
    assert cut == msg[..|cut|];
  }

  /** Decoding the message and its first bytes `cut` where the latter hold no
      whole header. */
  lemma DecodePrefixEnd(m: Arithmetic, cut: seq<byte>, msg: seq<byte>, pos: nat, room: nat)
    requires pos <= |cut| && cut <= msg
    requires room > 0 ==> ReadHeader(cut, pos).None?
    requires room > 0 && ReadHeader(msg, pos).Some? ==> ReadHeader(msg, pos).value.PayloadPos() > |cut|
    ensures LongestFit(m, DecodeFrom(m, cut, pos, room).records, DecodeFrom(m, msg, pos, room).records, |cut|)
  {
    hide ReadHeader, DecodeFrom;
    DecodeFromEnd(m, cut, pos, room);
    if room == 0 || ReadHeader(msg, pos).None? {
      DecodeFromEnd(m, msg, pos, room);
    } else {
      HeaderFirst(msg, pos);
      DecodeFromHeader(m, msg, pos, room, ReadHeader(msg, pos).value);
    }
  }

  lemma {:induction false} DecodeOfPrefixFrom(m: Arithmetic, cut: seq<byte>, msg: seq<byte>, pos: nat, room: nat)
    requires cut <= msg && pos <= |cut|
    ensures LongestFit(m, DecodeFrom(m, cut, pos, room).records, DecodeFrom(m, msg, pos, room).records, |cut|)
    decreases room
  {
    hide *;
    HeaderOfPrefix(cut, msg, pos);
    var h := ReadHeader(cut, pos);
    if room > 0 && h.Some? {
      HeaderFirst(cut, pos);
      var next := End(m, h.value.PayloadPos(), h.value.payloadLen);
      if next <= |cut| && !MessageEnd(h.value.flags) {
        DecodeOfPrefixFrom(m, cut, msg, next, room - 1);
        DecodePrefixCons(m, cut, msg, pos, next, room, h.value);
      } else {
        DecodePrefixLast(m, cut, msg, pos, room, h.value);
      }
    } else {
      DecodePrefixEnd(m, cut, msg, pos, room);
    }
  }

  /** Decoding the first `k` bytes gives the longest run of the whole message's
      records that lie within them: a cut never invents or alters a record. */
  lemma DecodeOfPrefix(m: Arithmetic, msg: seq<byte>, k: nat)
    requires k <= |msg|
    ensures LongestFit(m, Decode(m, msg[..k]).records, Decode(m, msg).records, k)
  {
    DecodeOfPrefixFrom(m, msg[..k], msg, 0, MAX_RECORDS);
  }
}
