/**
 * Reading an activated card's NDEF message and metadata into its result.
 *
 * `InfoOf` says what the result must be, as a function of the protocol, the
 * card's replies and the caller's cap alone; the methods do the work in place.
 */
module CardInfoReader {
  import opened Bytes
  import opened NdefRecord
  import opened NdefDecoder
  import opened Status
  import opened CardResult
  import opened TypeTwoTag
  import opened Tlv

  // ----- Specification ----------------------------------------------------

  /** What the SDK's tag-type component answers for a Type 3, 4 or 5 Tag. `area`
      and `access` are the capability fields it exposes. */
  datatype SdkReply = SdkReply(open: Status, checkOk: bool, readOk: bool, data: seq<byte>, area: nat, access: byte)

  /** Everything a card (and the SDK between) will reply after activation. */
  datatype CardEnv = CardEnv(card: Card, sdk: SdkReply)

  /** What reading a card comes to: the extended result fields and a status. */
  datatype Outcome = Outcome(info: Info, status: Status)

  const T2T_NAME := "NFC Forum Type 2 Tag (T2T)"
  const T3T_BLOCK_SIZE: nat := 16

  function SdkName(p: Protocol): string {
    match p
    case T3T => "NFC Forum Type 3 Tag (T3T/FeliCa)"
    case T5T => "NFC Forum Type 5 Tag (T5T/ISO 15693)"
    case _ => "ISO-DEP (Type 4 Tag / ISO 14443-4)"
  }

  function Clamp(maxBytes: nat): (cap: nat)
    ensures 0 < cap <= NDEF_MAX_BYTES
  {
    if maxBytes == 0 || maxBytes > NDEF_MAX_BYTES then NDEF_MAX_BYTES else maxBytes
  }

  /** The records of a message; none is decoded where none is present. */
  function DecodedNdef(ndef: seq<byte>): Decoded {
    if ndef == [] then Decoded([], false) else Decode(Machine, ndef)
  }

  function WithNdef(info: Info, ndef: seq<byte>): Info {
    info.(present := ndef != [], ndef := ndef)
  }

  function T2TInfo(card: Card, cap: nat): Outcome {
    match ReadContents(card)
    case Unformatted => Outcome(NO_INFO, ErrNotFound)
    case Formatted(dataArea, writeable, image) =>
      var base := Info(false, [], Decoded([], false), dataArea, writeable, Some(T2T_NAME));
      Outcome(WithNdef(base, NdefValue(image, cap).GetOr([])), OK)
  }

  function SdkInfo(p: Protocol, sdk: SdkReply, cap: nat): Outcome {
    var base := NO_INFO.(name := Some(SdkName(p)));
    if sdk.open != OK then Outcome(base, sdk.open)
    else if !sdk.checkOk then Outcome(base, ErrNotFound)
    else
      var area := if p.T3T? then sdk.area * T3T_BLOCK_SIZE else sdk.area;
      var meta := base.(dataArea := area, writeable := (sdk.access == 0) != p.T3T?);
      Outcome(if sdk.readOk then WithNdef(meta, sdk.data[..Min(|sdk.data|, cap)]) else meta, OK)
  }

  /** The message and metadata, before the message is decoded. */
  function MessageOf(p: Protocol, env: CardEnv, cap: nat): Outcome {
    match p
    case T2T => T2TInfo(env.card, cap)
    case NfcDep => Outcome(NO_INFO.(name := Some("NFC-DEP (Peer-to-Peer)")), OK)
    case IsoDep => SdkInfo(p, env.sdk, cap)
    case T3T => SdkInfo(p, env.sdk, cap)
    case T5T => SdkInfo(p, env.sdk, cap)
    case _ => Outcome(NO_INFO.(name := Some("Unknown")), OK)
  }

  lemma PresentMeansBytes(p: Protocol, env: CardEnv, cap: nat)
    ensures var info := MessageOf(p, env, cap).info;
            info.present == (info.ndef != []) && info.decoded == Decoded([], false)
  {
    hide NdefValue, ReadContents;
  }

  function InfoOf(p: Protocol, env: CardEnv, maxBytes: nat): Outcome {
    var r := MessageOf(p, env, Clamp(maxBytes));
    r.(info := r.info.(decoded := DecodedNdef(r.info.ndef)))
  }

  /** A limit from 1 to 512 bytes is a caller's own; any other stands for 512. */
  lemma WhatALimitMeans(maxBytes: nat)
    ensures Clamp(maxBytes) == if 1 <= maxBytes <= 512 then maxBytes else 512
  {
  }

  /** A Type 3, 4 or 5 Tag: what its component read of the message, up to the
      limit, and the area and access it announces, the area of a Type 3 Tag in
      blocks of 16 bytes and its access byte with the opposite sense. */
  lemma SdkCardInfo(p: Protocol, env: CardEnv, maxBytes: nat)
    requires p in {IsoDep, T3T, T5T}
    ensures var r, sdk := InfoOf(p, env, maxBytes), env.sdk;
            var limit := if 1 <= maxBytes <= 512 then maxBytes else 512;
            && r.info.name == Some(if p.T3T? then "NFC Forum Type 3 Tag (T3T/FeliCa)"
                                   else if p.T5T? then "NFC Forum Type 5 Tag (T5T/ISO 15693)"
                                   else "ISO-DEP (Type 4 Tag / ISO 14443-4)")
            && r.info.present == (r.info.ndef != [])
            && if sdk.open != OK || !sdk.checkOk then
                 && r.status == (if sdk.open != OK then sdk.open else ErrNotFound)
                 && r.info.ndef == [] && r.info.decoded == Decoded([], false)
                 && r.info.dataArea == 0 && !r.info.writeable
               else
                 && r.status == OK
                 && r.info.ndef == (if !sdk.readOk then []
                                    else if |sdk.data| <= limit then sdk.data
                                    else sdk.data[..limit])
                 && r.info.decoded == (if r.info.ndef == [] then Decoded([], false) else Decode(Machine, r.info.ndef))
                 && r.info.dataArea == (if p.T3T? then 16 * sdk.area else sdk.area)
                 && (r.info.writeable <==> if p.T3T? then sdk.access != 0 else sdk.access == 0)
  {
    hide Decode;
    WhatALimitMeans(maxBytes);
    if |env.sdk.data| <= Clamp(maxBytes) {
      assert env.sdk.data[..|env.sdk.data|] == env.sdk.data;
    }
  }

  /** A Type 2 Tag that does not answer the READ of block 3, or answers it without
      the NDEF magic, is not found and nothing is learnt of it; of any other the
      area, the write access and the name are, whatever it answers afterwards. */
  lemma TypeTwoInfo(env: CardEnv, maxBytes: nat)
    ensures var r, cc := InfoOf(T2T, env, maxBytes), env.card(0, [0x30, 3]);
            if !cc.ok || |cc.data| < 4 || cc.data[0] != 0xE1 then
              r == Outcome(Info(false, [], Decoded([], false), 0, false, None), ErrNotFound)
            else
              && r.status == OK && r.info.dataArea == 8 * cc.data[2] as int
              && r.info.writeable == (cc.data[3] % 16 == 0) && r.info.name == Some("NFC Forum Type 2 Tag (T2T)")
              && r.info.present == (r.info.ndef != [])
  {
    hide ReadBlocks, NdefValue, Decode;
  }

  /** No message reported is longer than the limit. */
  lemma MessageWithinLimit(p: Protocol, env: CardEnv, maxBytes: nat)
    ensures |InfoOf(p, env, maxBytes).info.ndef| <= if 1 <= maxBytes <= 512 then maxBytes else 512
  {
    hide ReadContents, Find, Decode;
  }

  /** Any other card than these and Type 2 Tags has no message; its name tells a
      peer from the unknown. */
  lemma OtherCardInfo(p: Protocol, env: CardEnv, maxBytes: nat)
    requires p in {Undefined, NfcDep, Extension}
    ensures InfoOf(p, env, maxBytes) ==
            Outcome(Info(false, [], Decoded([], false), 0, false,
                         Some(if p.NfcDep? then "NFC-DEP (Peer-to-Peer)" else "Unknown")), OK)
  {
  }

  // ----- Type 2 Tags ------------------------------------------------------

  /** One exchange with the card; the reply lands in `rx`. */
  method DataExchange(card: Card, n: nat, cmd: seq<byte>, rx: array<byte>) returns (ok: bool, rxLen: nat)
    requires rx.Length == RX_BUF_SIZE
    modifies rx
    ensures var r := card(n, cmd);
            && ok == r.ok && rxLen == Min(|r.data|, RX_BUF_SIZE)
            && rx[..rxLen] == r.data[..rxLen]
  {
    var r := card(n, cmd);
    ok, rxLen := r.ok, Min(|r.data|, RX_BUF_SIZE);
    forall i | 0 <= i < rxLen {
      rx[i] := r.data[i];
    }
  }

  /** Copies to the end of the bytes already gathered. */
  method Append(dst: array<byte>, at: nat, src: array<byte>, from: nat, n: nat)
    requires at + n <= dst.Length && from + n <= src.Length && dst != src
    modifies dst
    ensures dst[..at + n] == old(dst[..at]) + src[from..from + n]
  {
    forall i | 0 <= i < n {
      dst[at + i] := src[from + i];
    }
  }

  /** The block loop: fills `dataBuf` from block 4 on. */
  method ReadImage(card: Card, rx: array<byte>, dataBuf: array<byte>, cap: nat) returns (got: nat)
    requires rx.Length == RX_BUF_SIZE && dataBuf.Length == TX_BUF_SIZE && cap <= TX_BUF_SIZE && rx != dataBuf
    modifies rx, dataBuf
    ensures got <= cap && dataBuf[..got] == ReadBlocks(card, 1, FIRST_BLOCK, cap, [])
  {
    hide ReadBlocks;
    got := 0;
    var block: byte := FIRST_BLOCK;
    var n := 1;  // numbers the exchanges, for the card only
    ghost var image := ReadBlocks(card, 1, FIRST_BLOCK, cap, []);
    assert dataBuf[..0] == [];
    while got < cap
      invariant got <= cap
      invariant image == ReadBlocks(card, n, block, cap, dataBuf[..got])
      decreases cap - got
    {
      ghost var r := card(n, [READ, block]);
      var ok, rxLen := DataExchange(card, n, [READ, block], rx);
      if !ok || rxLen < 4 {
        ReadBlocksEnd(card, n, block, cap, dataBuf[..got]);
        break;
      }
      var take := if rxLen < 16 then rxLen else 16;
      if got + take > cap {
        take := cap - got;
      }
      ReadBlocksStep(card, n, block, cap, dataBuf[..got], take);
      Append(dataBuf, got, rx, 0, take);
      assert rx[0..take] == r.data[..take] by {
        assert rx[0..take] == rx[..rxLen][..take] && r.data[..take] == r.data[..rxLen][..take];
      }
      got := got + take;
      if block + 4 > 0xFF {
        break;
      }
      block := block + 4;
      n := n + 1;
    }
    if got == cap {
      ReadBlocksEnd(card, n, block, cap, dataBuf[..got]);
    }
  }

  /** The length octets at `p`, one or three of them. */
  method ReadTlvLength(dataBuf: array<byte>, got: nat, p: nat) returns (complete: bool, l: nat, next: nat)
    requires p <= got <= dataBuf.Length
    ensures complete <==> ReadLength(dataBuf[..got], p).Some?
    ensures complete ==> ReadLength(dataBuf[..got], p) == Some(Length(l, next))
  {
    complete, l, next := false, 0, p;
    if p >= got {
      return;
    }
    l := dataBuf[p];
    next := p + 1;
    if l == 0xFF {
      if next + 2 > got {
        return;
      }
      l := dataBuf[next] as int * 0x100 + dataBuf[next + 1] as int;
      next := next + 2;
    }
    complete := true;
  }

  /** The TLV walk: finds the NDEF Message TLV in the gathered bytes and copies
      its value into the result. */
  method WalkTlvs(dataBuf: array<byte>, got: nat, res: Result, cap: nat)
    requires got <= dataBuf.Length && cap <= NDEF_MAX_BYTES
    requires res.Valid() && dataBuf !in res.Footprint()
    modifies res`ndefPresent, res`ndefLen, res.ndefData
    ensures res.Valid()
    ensures var v := NdefValue(dataBuf[..got], cap).GetOr([]);
            res.ndefData[..res.ndefLen] == v && res.ndefPresent == (v != [])
  {
    hide ReadLength, Find;
    ghost var buf := dataBuf[..got];
    var p: nat := 0;
    while p < got
      invariant Find(buf, p) == Find(buf, 0)
      invariant dataBuf[..got] == buf && res.Valid()
      decreases got - p
    {
      FindTurn(buf, p);
      var t := dataBuf[p];
      p := p + 1;
      if t == NULL_TLV {
        continue;
      }
      if t == TERMINATOR_TLV {
        break;
      }
      var complete, l, next := ReadTlvLength(dataBuf, got, p);
      if !complete {
        break;
      }
      p := next;
      if t == NDEF_MESSAGE_TLV {
        if p + l > got {
          l := got - p;
        }
        var copy := if l > cap then cap else l;
        SliceOfTake(dataBuf[..], got, p, p + copy);
        res.StoreNdef(dataBuf, p, copy);
        return;
      }
      p := p + l;
    }
    if p >= got {
      FindNothing(buf, p);
    }
    res.ndefPresent := false;
    res.ndefLen := 0;
  }

  method ReadT2TNdef(card: Card, res: Result, cap: nat) returns (st: Status)
    requires res.Valid() && res.InfoValue() == NO_INFO && cap <= NDEF_MAX_BYTES
    modifies res`ndefPresent, res`ndefLen, res`dataAreaSize, res`writeable, res`tagTypeName, res.ndefData
    ensures res.Valid()
    ensures Outcome(res.InfoValue(), st) == T2TInfo(card, cap)
  {
    hide ReadBlocks, NdefValue;
    var rx := new byte[RX_BUF_SIZE];
    var dataBuf := new byte[TX_BUF_SIZE];

    ghost var cc := card(0, [READ, CC_BLOCK]);
    var ok, rxLen := DataExchange(card, 0, [READ, CC_BLOCK], rx);
    if !ok || rxLen < 4 {
      return ErrNotFound;
    }
    assert forall i :: 0 <= i < 4 ==> rx[i] == rx[..rxLen][i] == cc.data[i];
    if rx[0] != NDEF_MAGIC {
      return ErrNotFound;
    }

    var dataArea := rx[2] as int * 8;
    res.dataAreaSize := dataArea;
    res.writeable := rx[3] % 16 == 0;
    res.tagTypeName := Some(T2T_NAME);

    var bufCap := if dataArea > TX_BUF_SIZE then TX_BUF_SIZE else dataArea;
    if bufCap == 0 {
      bufCap := TX_BUF_SIZE;
    }
    var got := ReadImage(card, rx, dataBuf, bufCap);
    WalkTlvs(dataBuf, got, res, cap);
    return OK;
  }

  // ----- Type 3, 4 and 5 Tags ---------------------------------------------

  method ReadSdkNdef(p: Protocol, sdk: SdkReply, res: Result, cap: nat) returns (st: Status)
    requires res.Valid() && res.InfoValue() == NO_INFO && cap <= NDEF_MAX_BYTES
    modifies res`ndefPresent, res`ndefLen, res`dataAreaSize, res`writeable, res`tagTypeName, res.ndefData
    ensures res.Valid()
    ensures Outcome(res.InfoValue(), st) == SdkInfo(p, sdk, cap)
  {
    res.tagTypeName := Some(SdkName(p));
    if sdk.open != OK {
      return sdk.open;
    }
    if !sdk.checkOk {
      return ErrNotFound;
    }
    if sdk.readOk {
      var n := Min(|sdk.data|, cap);
      var src := new byte[n](i requires 0 <= i < n => sdk.data[i]);
      assert src[0..n] == sdk.data[..n];
      res.StoreNdef(src, 0, n);
    } else {
      res.ndefPresent := false;
      res.ndefLen := 0;
    }
    res.dataAreaSize := if p.T3T? then sdk.area * T3T_BLOCK_SIZE else sdk.area;
    res.writeable := if p.T3T? then sdk.access != 0 else sdk.access == 0;
    return OK;
  }

  // ----- Entry point ------------------------------------------------------

  /** Whatever an earlier card left in the result, the extended fields come out
      as `InfoOf` says and the basic ones are left alone. */
  method ReadCardInfo(p: Protocol, env: CardEnv, res: Result, maxBytes: nat) returns (st: Status)
    requires res.Valid()
    modifies res`ndefPresent, res`ndefLen, res`dataAreaSize, res`writeable, res`tagTypeName
    modifies res.ndefData, res.decoded, res.decoded.records
    ensures res.Valid() && Outcome(res.InfoValue(), st) == InfoOf(p, env, maxBytes)
  {
    hide T2TInfo, SdkInfo, Decode;
    res.ndefPresent, res.ndefLen := false, 0;
    res.dataAreaSize, res.writeable, res.tagTypeName := 0, false, None;
    res.decoded.Clear();
    assert res.InfoValue() == NO_INFO;

    var cap := if maxBytes == 0 || maxBytes > NDEF_MAX_BYTES then NDEF_MAX_BYTES else maxBytes;
    st := OK;
    match p {
      case T2T => st := ReadT2TNdef(env.card, res, cap);
      case IsoDep => st := ReadSdkNdef(p, env.sdk, res, cap);
      case T5T => st := ReadSdkNdef(p, env.sdk, res, cap);
      case T3T => st := ReadSdkNdef(p, env.sdk, res, cap);
      case NfcDep => res.tagTypeName := Some("NFC-DEP (Peer-to-Peer)");
      case _ => res.tagTypeName := Some("Unknown");
    }
    assert Outcome(res.InfoValue(), st) == MessageOf(p, env, cap);
    PresentMeansBytes(p, env, cap);

    if res.ndefPresent && res.ndefLen > 0 {
      var _ := DecodeMessage(res.ndefData, res.ndefLen, res.decoded);
    }
  }
}
