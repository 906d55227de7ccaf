/**
 * The TLV area of a Type 2 Tag (NFC Forum Type 2 Tag Operation Specification,
 * section 2.3): the format as a writer lays it out, and the reader's search for
 * the NDEF Message TLV.
 */
module Tlv {
  import opened Bytes

  const NULL_TLV: byte := 0x00
  const NDEF_MESSAGE_TLV: byte := 0x03
  const TERMINATOR_TLV: byte := 0xFE

  // ----- The format -------------------------------------------------------

  /** A TLV that stands before the NDEF message: a Lock or Memory Control TLV, a
      proprietary one, or a NULL TLV, which is a lone tag. `long` selects the
      three-byte length form. */
  datatype Tlv = Null | Block(tag: byte, long: bool, value: seq<byte>)

  predicate ValidLength(long: bool, n: nat) {
    n < if long then 0x1_0000 else 0xFF
  }

  predicate Skippable(t: Tlv) {
    t.Block? ==> t.tag !in {0x00, 0x03, 0xFE} && ValidLength(t.long, |t.value|)
  }

  function LengthField(long: bool, n: nat): seq<byte>
    requires ValidLength(long, n)
  {
    if long then [0xFF, n / 0x100, n % 0x100] else [n]
  }

  function EncodeTlv(t: Tlv): seq<byte>
    requires Skippable(t)
  {
    match t
    case Null => [0x00]
    case Block(tag, long, value) => [tag] + LengthField(long, |value|) + value
  }

  function EncodeTlvs(ts: seq<Tlv>): seq<byte>
    requires forall i :: 0 <= i < |ts| ==> Skippable(ts[i])
  {
    if ts == [] then [] else EncodeTlv(ts[0]) + EncodeTlvs(ts[1..])
  }

  function NdefHeader(long: bool, n: nat): seq<byte>
    requires ValidLength(long, n)
  {
    [0x03] + LengthField(long, n)
  }

  ghost predicate AllSkippable(ts: seq<Tlv>) {
    forall i :: 0 <= i < |ts| ==> Skippable(ts[i])
  }

  /** `s` opens with TLVs to skip and the header of an NDEF Message TLV with `n`
      value bytes; the value starts at `pos`. */
  ghost predicate AnnouncesNdef(s: seq<byte>, pos: nat, n: nat) {
    exists ts: seq<Tlv>, long: bool ::
      && AllSkippable(ts) && ValidLength(long, n) && pos <= |s|
      && s[..pos] == EncodeTlvs(ts) + NdefHeader(long, n)
  }

  // ----- The search -------------------------------------------------------

  datatype Length = Length(value: nat, next: nat)

  function ReadLength(buf: seq<byte>, p: nat): (r: Option<Length>)
    ensures r.Some? ==> p < r.value.next <= |buf|
  {
    if p >= |buf| then None
    else if buf[p] != 0xFF then Some(Length(buf[p], p + 1))
    else if p + 3 > |buf| then None
    else Some(Length(buf[p + 1] as int * 0x100 + buf[p + 2] as int, p + 3))
  }

  datatype Search = NotFound | Found(pos: nat, len: nat)

  function Find(buf: seq<byte>, p: nat): (r: Search)
    ensures r.Found? ==> p < r.pos <= |buf|
    decreases |buf| - p
  {
    if p >= |buf| then NotFound
    else if buf[p] == NULL_TLV then Find(buf, p + 1)
    else if buf[p] == TERMINATOR_TLV then NotFound
    else
      match ReadLength(buf, p + 1)
      case None => NotFound
      case Some(l) =>
        if buf[p] == NDEF_MESSAGE_TLV then Found(l.next, l.value)
        else Find(buf, l.next + l.value)
  }

  lemma FindNothing(buf: seq<byte>, p: nat)
    requires p >= |buf|
    ensures Find(buf, p) == NotFound
  {
  }

  lemma FindTurn(buf: seq<byte>, p: nat)
    requires p < |buf|
    ensures var l := ReadLength(buf, p + 1);
            Find(buf, p) ==
            if buf[p] == NULL_TLV then Find(buf, p + 1)
            else if buf[p] == TERMINATOR_TLV || l.None? then NotFound
            else if buf[p] == NDEF_MESSAGE_TLV then Found(l.value.next, l.value.value)
            else Find(buf, l.value.next + l.value.value)
  {
  }

  /** What the reader copies: no more than was announced, than is there, and
      than the caller asked for. */
  function NdefValue(buf: seq<byte>, cap: nat): (v: Option<seq<byte>>) {
    match Find(buf, 0)
    case NotFound => None
    case Found(pos, len) => Some(buf[pos..pos + Min(Min(len, |buf| - pos), cap)])
  }

  // ----- The search refines the format ------------------------------------

  lemma ReadLengthOfField(buf: seq<byte>, p: nat, long: bool, n: nat)
    requires ValidLength(long, n) && p <= |buf| && LengthField(long, n) <= buf[p..]
    ensures ReadLength(buf, p) == Some(Length(n, p + |LengthField(long, n)|))
  {
    var f := LengthField(long, n);
    forall i | 0 <= i < |f| ensures buf[p + i] == f[i] {
      assert buf[p..][i] == f[i];
    }
  }

  lemma ReadLengthIsField(buf: seq<byte>, p: nat) returns (long: bool)
    requires p <= |buf| && ReadLength(buf, p).Some?
    ensures var l := ReadLength(buf, p).value;
            ValidLength(long, l.value) && buf[p..l.next] == LengthField(long, l.value)
  {
    long := buf[p] == 0xFF;
  }

  /** The search steps over one TLV that it skips. */
  lemma FindSkips(buf: seq<byte>, p: nat, t: Tlv)
    requires Skippable(t) && p <= |buf| && EncodeTlv(t) <= buf[p..]
    ensures p + |EncodeTlv(t)| <= |buf|
    ensures Find(buf, p) == Find(buf, p + |EncodeTlv(t)|)
  {
    assert buf[p..][0] == EncodeTlv(t)[0];
    if t.Block? {
      var f := LengthField(t.long, |t.value|);
      PrefixSplit([t.tag] + f, t.value, buf[p..]);
      PrefixSplit([t.tag], f, buf[p..]);
      assert buf[p..][1..] == buf[p + 1..];
      ReadLengthOfField(buf, p + 1, t.long, |t.value|);
    }
  }

  lemma FindStops(buf: seq<byte>, p: nat, long: bool, n: nat)
    requires ValidLength(long, n) && p <= |buf| && NdefHeader(long, n) <= buf[p..]
    ensures Find(buf, p) == Found(p + |NdefHeader(long, n)|, n)
  {
    assert buf[p..][0] == NDEF_MESSAGE_TLV;
    PrefixSplit([NDEF_MESSAGE_TLV], LengthField(long, n), buf[p..]);
    assert buf[p..][1..] == buf[p + 1..];
    ReadLengthOfField(buf, p + 1, long, n);
  }

  lemma {:induction false} FindComplete(buf: seq<byte>, p: nat, ts: seq<Tlv>, long: bool, n: nat)
    requires AllSkippable(ts) && ValidLength(long, n) && p <= |buf|
    requires EncodeTlvs(ts) + NdefHeader(long, n) <= buf[p..]
    ensures Find(buf, p) == Found(p + |EncodeTlvs(ts) + NdefHeader(long, n)|, n)
    decreases |ts|
  {
    hide Find, EncodeTlv, Skippable, NdefHeader;
    PrefixSplit(EncodeTlvs(ts), NdefHeader(long, n), buf[p..]);
    if ts == [] {
      assert buf[p..][0..] == buf[p..];
      FindStops(buf, p, long, n);
    } else {
      var t, rest := ts[0], ts[1..];
      var q := p + |EncodeTlv(t)|;
      assert EncodeTlvs(ts) + NdefHeader(long, n) == EncodeTlv(t) + (EncodeTlvs(rest) + NdefHeader(long, n));
      PrefixSplit(EncodeTlv(t), EncodeTlvs(rest) + NdefHeader(long, n), buf[p..]);
      FindSkips(buf, p, t);
      assert buf[p..][|EncodeTlv(t)|..] == buf[q..];
      FindComplete(buf, q, rest, long, n);
    }
  }

  /** The TLV that the search stepped over, reassembled from the bytes. */
  lemma SkippedTlv(buf: seq<byte>, p: nat) returns (t: Tlv)
    requires p < |buf| && buf[p] !in {NULL_TLV, NDEF_MESSAGE_TLV, TERMINATOR_TLV}
    requires ReadLength(buf, p + 1).Some?
    requires var l := ReadLength(buf, p + 1).value; l.next + l.value <= |buf|
    ensures Skippable(t)
    ensures var l := ReadLength(buf, p + 1).value; EncodeTlv(t) == buf[p..l.next + l.value]
  {
    var l := ReadLength(buf, p + 1).value;
    var long := ReadLengthIsField(buf, p + 1);
    t := Block(buf[p], long, buf[l.next..l.next + l.value]);
    assert buf[p..l.next + l.value] == [buf[p]] + buf[p + 1..l.next] + buf[l.next..l.next + l.value];
  }

  /** One step of the search over the TLV in `buf[p..q]`. */
  lemma FindStep(buf: seq<byte>, p: nat) returns (t: Tlv, q: nat)
    requires p < |buf| && Find(buf, p).Found? && buf[p] != NDEF_MESSAGE_TLV
    ensures p < q <= |buf| && Find(buf, q) == Find(buf, p)
    ensures Skippable(t) && EncodeTlv(t) == buf[p..q]
  {
    if buf[p] == NULL_TLV {
      t, q := Null, p + 1;
    } else {
      var l := ReadLength(buf, p + 1).value;
      q := l.next + l.value;
      t := SkippedTlv(buf, p);
    }
  }

  lemma FindHere(buf: seq<byte>, p: nat) returns (long: bool)
    requires p < |buf| && Find(buf, p).Found? && buf[p] == NDEF_MESSAGE_TLV
    ensures var r := Find(buf, p);
            ValidLength(long, r.len) && buf[p..r.pos] == NdefHeader(long, r.len)
  {
    var r := Find(buf, p);
    long := ReadLengthIsField(buf, p + 1);
    assert buf[p..r.pos] == [buf[p]] + buf[p + 1..r.pos];
  }

  lemma EncodeTlvsCons(t: Tlv, ts: seq<Tlv>)
    requires Skippable(t) && AllSkippable(ts)
    ensures AllSkippable([t] + ts)
    ensures EncodeTlvs([t] + ts) == EncodeTlv(t) + EncodeTlvs(ts)
  {
    hide Skippable, EncodeTlv;
    assert ([t] + ts)[1..] == ts;
  }

  lemma {:induction false} FindSound(buf: seq<byte>, p: nat) returns (ts: seq<Tlv>, long: bool)
    requires p < |buf| && Find(buf, p).Found?
    ensures var r := Find(buf, p);
            && AllSkippable(ts) && ValidLength(long, r.len)
            && buf[p..r.pos] == EncodeTlvs(ts) + NdefHeader(long, r.len)
    decreases |buf| - p
  {
    hide Find, Skippable, EncodeTlv, NdefHeader;
    if buf[p] == NDEF_MESSAGE_TLV {
      long := FindHere(buf, p);
      ts := [];
    } else {
      var t, q := FindStep(buf, p);
      FoundInside(buf, q);
      var rest;
      rest, long := FindSound(buf, q);
      hide EncodeTlvs, ValidLength;
      ts := [t] + rest;
      EncodeTlvsCons(t, rest);
      var end := Find(buf, p).pos;
      assert buf[p..end] == buf[p..q] + buf[q..end];
    }
  }

  lemma FoundInside(buf: seq<byte>, p: nat)
    requires Find(buf, p).Found?
    ensures p < |buf|
  {
  }

  /** The search finds a value exactly where the format announces one, so it
      reports none exactly when the bytes announce none. */
  lemma FindIsAnnouncement(buf: seq<byte>, pos: nat, len: nat)
    ensures Find(buf, 0) == Found(pos, len) <==> AnnouncesNdef(buf, pos, len)
  {
    hide Find, EncodeTlvs, NdefHeader;
    assert buf[0..] == buf;
    if Find(buf, 0) == Found(pos, len) {
      FoundInside(buf, 0);
      var ts, long := FindSound(buf, 0);
      assert buf[..pos] == buf[0..pos];
    }
    if AnnouncesNdef(buf, pos, len) {
      var ts: seq<Tlv>, long: bool :|
        && AllSkippable(ts) && ValidLength(long, len) && pos <= |buf|
        && buf[..pos] == EncodeTlvs(ts) + NdefHeader(long, len);
      assert EncodeTlvs(ts) + NdefHeader(long, len) <= buf[0..];
      FindComplete(buf, 0, ts, long, len);
      assert |EncodeTlvs(ts) + NdefHeader(long, len)| == pos;
    }
  }

  /** More bytes behind the same area can only add an answer. */
  lemma {:induction false} FindOfPrefix(cut: seq<byte>, buf: seq<byte>, p: nat)
    requires cut <= buf && Find(cut, p).Found?
    ensures Find(buf, p) == Find(cut, p)
    decreases |cut| - p
  {
    if cut[p] == NULL_TLV {
      FindOfPrefix(cut, buf, p + 1);
    } else if cut[p] != NDEF_MESSAGE_TLV {
      var l := ReadLength(cut, p + 1).value;
      FindOfPrefix(cut, buf, l.next + l.value);
    }
  }
}
