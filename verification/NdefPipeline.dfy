/**
 * From what a writer puts on a Type 2 Tag to what the reader reports: block
 * reads, TLV walk and record decoder together.
 */
module NdefPipeline {
  import opened Bytes
  import opened NdefRecord
  import opened Status
  import opened CardResult
  import opened TypeTwoTag
  import opened Tlv
  import opened CardInfoReader

  /** A tag's memory as a writer lays it out: a Capability Container in bytes 12
      to 15 and, from byte 16 on, TLVs to skip and the NDEF message. */
  ghost predicate Holds(mem: seq<byte>, ts: seq<Tlv>, long: bool, message: seq<byte>) {
    && |mem| >= 28 && mem[12] == 0xE1
    && AllSkippable(ts) && ValidLength(long, |message|)
    && EncodeTlvs(ts) + NdefHeader(long, |message|) + message <= mem[16..]
  }

  /** How many bytes of the data area a tag that always replies yields: the area
      that its Capability Container announces, in units of eight bytes, or the 280
      bytes of the buffer where it announces none or more; in whole replies. */
  function Reach(mem: seq<byte>): nat
    requires |mem| >= 28
  {
    var area := 8 * mem[14] as int;
    Min(if area == 0 || area > 280 then 280 else area, (|mem| - 16) / 16 * 16)
  }

  /** The cap that a caller's limit stands for. */
  function Limit(maxBytes: nat): nat {
    if 1 <= maxBytes <= 512 then maxBytes else 512
  }

  /** ... and all of it is within reach of the reads. */
  ghost predicate Reachable(mem: seq<byte>, ts: seq<Tlv>, long: bool, message: seq<byte>, cap: nat)
    requires Holds(mem, ts, long, message)
  {
    var need := |EncodeTlvs(ts) + NdefHeader(long, |message|) + message|;
    need <= Reach(mem) && |message| <= cap
  }

  lemma ContentsOfServed(card: Card, mem: seq<byte>)
    requires Serves(card, mem) && |mem| >= 28 && mem[12] == 0xE1
    ensures ReadContents(card) ==
            var dataArea := mem[14] as int * 8;
            Formatted(dataArea, mem[15] % 16 == 0, ReadBlocks(card, 1, FIRST_BLOCK, BufferCap(dataArea), []))
  {
    hide ReadBlocks;
    var cc := card(0, [READ, CC_BLOCK]);
    assert 4 * CC_BLOCK + 16 <= |mem|;
    assert cc.data[..16] == mem[12..28];
    assert forall i :: 0 <= i < 16 ==> cc.data[i] == cc.data[..16][i] == mem[12 + i];
  }

  /** How much of a message the walk copies that finds `reach` bytes of the data
      area, `at` of which come before the value. */
  function Copied(at: nat, n: nat, reach: nat, cap: nat): (k: nat)
    ensures k <= n && k <= cap
  {
    if reach < at then 0 else Min(Min(n, reach - at), cap)
  }

  /** The walk over the first bytes of such a layout, wherever they end. */
  lemma ValueOfLayout(image: seq<byte>, area: seq<byte>, ts: seq<Tlv>, long: bool, message: seq<byte>, cap: nat)
    requires AllSkippable(ts) && ValidLength(long, |message|)
    requires EncodeTlvs(ts) + NdefHeader(long, |message|) + message <= area && image <= area
    ensures var at := |EncodeTlvs(ts) + NdefHeader(long, |message|)|;
            NdefValue(image, cap).GetOr([]) == message[..Copied(at, |message|, |image|, cap)]
  {
    hide Find, EncodeTlvs, NdefHeader;
    var prefix := EncodeTlvs(ts) + NdefHeader(long, |message|);
    var at := |prefix|;
    PrefixSplit(prefix, message, area);
    assert area[0..] == area;
    FindComplete(area, 0, ts, long, |message|);
    assert Find(area, 0) == Found(at, |message|);
    if at <= |image| {
      assert image[0..] == image == area[..|image|];
      FindComplete(image, 0, ts, long, |message|);
      var k := Copied(at, |message|, |image|, cap);
      assert image[at..at + k] == area[at..at + k] == area[at..][..|message|][..k];
    } else if Find(image, 0).Found? {
      FindOfPrefix(image, area, 0);
      assert false;
    }
  }

  /** Whatever TLVs stand before a message and however long it is, a tag that
      always replies yields its bytes as far as the reads and the cap reach, with
      RS_OK even where they do not reach all of it. */
  lemma MessageReadBack(card: Card, mem: seq<byte>, ts: seq<Tlv>, long: bool, message: seq<byte>, cap: nat)
    requires Serves(card, mem) && Holds(mem, ts, long, message)
    ensures var dataArea := mem[14] as int * 8;
            var at := |EncodeTlvs(ts) + NdefHeader(long, |message|)|;
            var reach := Reach(mem);
            var read := message[..Copied(at, |message|, reach, cap)];
            T2TInfo(card, cap) ==
            Outcome(Info(read != [], read, Decoded([], false), dataArea, mem[15] % 16 == 0,
                         Some("NFC Forum Type 2 Tag (T2T)")), OK)
  {
    hide ReadBlocks, NdefValue, EncodeTlvs, NdefHeader, ReadContents, Serves, Copied;
    ContentsOfServed(card, mem);
    var bufCap := BufferCap(mem[14] as int * 8);
    var image := ReadBlocks(card, 1, FIRST_BLOCK, bufCap, []);
    ServedImage(card, mem, bufCap);
    assert image <= mem[16..] by {
      assert image == mem[16..][..|image|];
    }
    ValueOfLayout(image, mem[16..], ts, long, message, cap);
  }

  lemma WholeMessage(mem: seq<byte>, ts: seq<Tlv>, long: bool, message: seq<byte>, cap: nat)
    requires Holds(mem, ts, long, message) && Reachable(mem, ts, long, message, cap)
    ensures var at := |EncodeTlvs(ts) + NdefHeader(long, |message|)|;
            var reach := Reach(mem);
            message[..Copied(at, |message|, reach, cap)] == message
  {
  }

  /** End to end: records written to a tag come back from the reader, in its own
      arithmetic, whatever TLVs stand before them: all up to the first that ends
      the message, at most eight, and `truncated` tells whether more followed. */
  lemma RecordsReadBack(env: CardEnv, mem: seq<byte>, ts: seq<Tlv>, long: bool, ws: seq<WireRecord>, maxBytes: nat)
    requires AllWellFormed(ws) && ws != []
    requires Serves(env.card, mem) && Holds(mem, ts, long, EncodeAll(ws))
    requires Reachable(mem, ts, long, EncodeAll(ws), Limit(maxBytes))
    ensures var r := InfoOf(T2T, env, maxBytes);
            && r.status == OK && r.info.present && r.info.ndef == EncodeAll(ws)
            && r.info.decoded == Decoded(Views(ws[..KeptCount(ws, 8)], 0), CutForSpace(ws, 8))
  {
    hide EncodeAll, Views, KeptCount, CutForSpace, T2TInfo, Serves, Decode, Copied;
    EncodeAllNonEmpty(ws);
    WholeMessage(mem, ts, long, EncodeAll(ws), Clamp(maxBytes));
    MessageReadBack(env.card, mem, ts, long, EncodeAll(ws), Clamp(maxBytes));
    MachineDecodeOfEncoding(ws);
  }

  /** The plain case: one to eight records, the message end marked on no record
      but the last. Exactly these come back, with their payloads in place. */
  lemma UpToEightRecordsReadBack(env: CardEnv, mem: seq<byte>, ts: seq<Tlv>, long: bool,
                                 ws: seq<WireRecord>, maxBytes: nat)
    requires AllWellFormed(ws) && 1 <= |ws| <= 8
    requires forall i :: 0 <= i < |ws| - 1 ==> !ws[i].me
    requires Serves(env.card, mem) && Holds(mem, ts, long, EncodeAll(ws))
    requires Reachable(mem, ts, long, EncodeAll(ws), Limit(maxBytes))
    ensures var info := InfoOf(T2T, env, maxBytes).info;
            && |info.decoded.records| == |ws| && !info.decoded.truncated
            && forall i :: 0 <= i < |ws| ==>
                 var r := info.decoded.records[i];
                 && r.flags == ws[i].Flags() && r.tnf == ws[i].tnf && r.typeLen == |ws[i].typ|
                 && r.typ == ws[i].typ[..Min(|ws[i].typ|, 32)]
                 && r.payloadPos + r.payloadLen <= |info.ndef|
                 && PayloadOf(info.ndef, r) == ws[i].payload
  {
    RecordsReadBack(env, mem, ts, long, ws, maxBytes);
    KeptCountAll(ws, MAX_RECORDS);
    assert ws[..|ws|] == ws;
    var info := InfoOf(T2T, env, maxBytes).info;
    assert info.decoded == Decoded(Views(ws, 0), false);
    hide InfoOf, EncodeAll, Views;
    assert info.ndef[0..] == info.ndef;
    forall i | 0 <= i < |ws|
      ensures var r := info.decoded.records[i];
              && r.flags == ws[i].Flags() && r.tnf == ws[i].tnf && r.typeLen == |ws[i].typ|
              && r.typ == ws[i].typ[..Min(|ws[i].typ|, 32)]
              && r.payloadPos + r.payloadLen <= |info.ndef|
              && PayloadOf(info.ndef, r) == ws[i].payload
    {
      ViewsTile(info.ndef, 0, ws, i);
    }
  }

  // ----- Cutting short ----------------------------------------------------

  /** A shorter image or a smaller cap gives a prefix of the same message. */
  lemma ValueOfCut(cut: seq<byte>, image: seq<byte>, smallCap: nat, cap: nat)
    requires cut <= image && smallCap <= cap
    ensures NdefValue(cut, smallCap).Some? ==> NdefValue(image, cap).Some?
    ensures NdefValue(cut, smallCap).GetOr([]) <= NdefValue(image, cap).GetOr([])
  {
    if Find(cut, 0).Found? {
      FindOfPrefix(cut, image, 0);
      hide Find;
      var Found(pos, len) := Find(cut, 0);
      var a, b := pos + Min(Min(len, |cut| - pos), smallCap), pos + Min(Min(len, |image| - pos), cap);
      assert cut == image[..|cut|];
      SliceOfTake(image, |cut|, pos, a);
      SliceOfSlice(image, pos, b, a - pos);
    }
  }

  /** Truncation anywhere before the decoder never invents or alters a record:
      with the image cut and the cap lowered, the records are the longest run of
      the full message's records that fit in what is left. */
  lemma RecordsOfCut(cut: seq<byte>, image: seq<byte>, smallCap: nat, cap: nat)
    requires cut <= image && smallCap <= cap
    ensures var small, full := NdefValue(cut, smallCap).GetOr([]), NdefValue(image, cap).GetOr([]);
            LongestFit(Machine, DecodedNdef(small).records, DecodedNdef(full).records, |small|)
  {
    ValueOfCut(cut, image, smallCap, cap);
    var small, full := NdefValue(cut, smallCap).GetOr([]), NdefValue(image, cap).GetOr([]);
    hide NdefValue;
    assert small == full[..|small|];
    if full != [] {
      DecodeOfPrefix(Machine, full, |small|);
      hide DecodeFrom;
      if small == [] {
        DecodeAtEnd(Machine, small, 0, MAX_RECORDS);
      }
    }
  }

  lemma FitsInside(r: Record, k: nat)
    requires r.payloadPos + r.payloadLen <= MAX_MESSAGE
    ensures Fits(Machine, r, k) == Fits(Exact, r, k)
  {
  }

  /** Of records that were written, the place in the message is the same in both
      arithmetics. */
  lemma FitsEitherWay(ws: seq<WireRecord>, full: seq<Record>, cut: seq<Record>, k: nat)
    requires AllWellFormed(ws) && |EncodeAll(ws)| <= MAX_MESSAGE && full <= Views(ws, 0)
    requires LongestFit(Machine, cut, full, k)
    ensures LongestFit(Exact, cut, full, k)
  {
    hide WellFormed, EncodeAll, Views, Fits;
    var msg := EncodeAll(ws);
    assert msg[0..] == msg;
    forall i | 0 <= i < |full| ensures Fits(Machine, full[i], k) == Fits(Exact, full[i], k) {
      ViewsTile(msg, 0, ws, i);
      FitsInside(full[i], k);
    }
  }

  lemma {:induction false} ViewsOfFirst(ws: seq<WireRecord>, k: nat, pos: nat)
    requires AllWellFormed(ws) && k <= |ws|
    ensures Views(ws[..k], pos) == Views(ws, pos)[..k]
    decreases k
  {
    hide View, Encode, WellFormed;
    if k > 0 {
      assert ws[..k][1..] == ws[1..][..k - 1];
      ViewsOfFirst(ws[1..], k - 1, pos + |Encode(ws[0])|);
    }
  }

  /** End to end for a message of any length: the records reported are the longest
      run of those written that lie within the bytes that were copied; a message
      that is cut loses whole records at its end and nothing else. */
  lemma WrittenRecordsCut(env: CardEnv, mem: seq<byte>, ts: seq<Tlv>, long: bool, ws: seq<WireRecord>, maxBytes: nat)
    requires AllWellFormed(ws) && Serves(env.card, mem) && Holds(mem, ts, long, EncodeAll(ws))
    ensures var at := |EncodeTlvs(ts) + NdefHeader(long, |EncodeAll(ws)|)|;
            var reach := Reach(mem);
            var copied := Copied(at, |EncodeAll(ws)|, reach, Limit(maxBytes));
            var r := InfoOf(T2T, env, maxBytes);
            && r.status == OK && r.info.ndef == EncodeAll(ws)[..copied]
            && LongestFit(Exact, r.info.decoded.records, Views(ws[..KeptCount(ws, 8)], 0), copied)
  {
    hide EncodeAll, Views, KeptCount, CutForSpace, T2TInfo, Serves, Copied, EncodeTlvs, NdefHeader;
    hide Decode, DecodeFrom, LongestFit;
    var message := EncodeAll(ws);
    var k := KeptCount(ws, MAX_RECORDS);
    MessageReadBack(env.card, mem, ts, long, message, Clamp(maxBytes));
    var info := InfoOf(T2T, env, maxBytes).info;
    var copied := |info.ndef|;
    assert info.ndef == message[..copied] && info.decoded == DecodedNdef(info.ndef);
    hide InfoOf, DecodedNdef;
    MachineDecodeOfEncoding(ws);
    RecordsOfPrefix(message, copied);
    ViewsOfFirst(ws, k, 0);
    FitsEitherWay(ws, Views(ws[..k], 0), info.decoded.records, copied);
  }

  lemma RecordsOfPrefix(message: seq<byte>, k: nat)
    requires k <= |message|
    ensures LongestFit(Machine, DecodedNdef(message[..k]).records, Decode(Machine, message).records, k)
  {
    DecodeOfPrefix(Machine, message, k);
    hide DecodeFrom, LongestFit;
    if k == 0 {
      DecodeAtEnd(Machine, message[..k], 0, MAX_RECORDS);
    }
  }
}
