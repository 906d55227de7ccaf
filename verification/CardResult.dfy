/** The result record that the reader fills for one card. */
module CardResult {
  import opened Bytes
  import opened NdefRecord
  import opened NdefDecoder
  import opened Status

  const UID_MAX_BYTES: nat := 10
  const NDEF_MAX_BYTES: nat := 512

  datatype CardType =
    | Unknown | Iso14443A | Iso14443B | FeliCa | Iso15693
    | NfcTagType2 | NfcTagType3 | NfcTagType4A | NfcTagType4B | NfcTagType5

  datatype Protocol = Undefined | T2T | T3T | IsoDep | NfcDep | T5T | Extension

  /** The optional raw exchange: its status and the bytes received. */
  datatype RawExchange = RawExchange(status: Status, rx: seq<byte>)

  /** The extended card information: NDEF message, records and tag metadata. */
  datatype Info = Info(present: bool, ndef: seq<byte>, decoded: Decoded,
                       dataArea: nat, writeable: bool, name: Option<string>)

  /** A snapshot of the whole result, as an application sees it. */
  datatype Report = Report(cardType: CardType, protocol: Protocol, uid: seq<byte>, info: Info, raw: Option<RawExchange>)

  const NO_INFO := Info(false, [], Decoded([], false), 0, false, None)
  const NO_REPORT := Report(Unknown, Undefined, [], NO_INFO, None)

  class Result {
    var cardType: CardType
    var protocol: Protocol
    const uid: array<byte>
    var uidLen: nat
    var ndefPresent: bool
    const ndefData: array<byte>
    var ndefLen: nat
    const decoded: DecodedMessage
    var dataAreaSize: nat
    var writeable: bool
    var tagTypeName: Option<string>
    var raw: Option<RawExchange>

    ghost predicate Shaped() {
      && uid.Length == UID_MAX_BYTES && ndefData.Length == NDEF_MAX_BYTES && uid != ndefData
      && decoded.records.Length == MAX_RECORDS
      && decoded.records as object != uid && decoded.records as object != ndefData
    }

    ghost function Footprint(): set<object> {
      {this, uid, ndefData, decoded, decoded.records}
    }

    ghost predicate Valid()
      reads Footprint()
    {
      && Shaped() && decoded.Valid()
      && uidLen <= UID_MAX_BYTES && ndefLen <= NDEF_MAX_BYTES
    }

    ghost function InfoValue(): Info
      requires Valid()
      reads Footprint()
    {
      Info(ndefPresent, ndefData[..ndefLen], decoded.Value(), dataAreaSize, writeable, tagTypeName)
    }

    ghost function Value(): Report
      requires Valid()
      reads Footprint()
    {
      Report(cardType, protocol, uid[..uidLen], InfoValue(), raw)
    }

    constructor ()
      ensures Valid() && Value() == NO_REPORT && fresh(Footprint())
    {
      cardType, protocol := Unknown, Undefined;
      uid := new byte[UID_MAX_BYTES](_ => 0);
      ndefData := new byte[NDEF_MAX_BYTES](_ => 0);
      uidLen, ndefLen, ndefPresent := 0, 0, false;
      dataAreaSize, writeable, tagTypeName, raw := 0, false, None, None;
      var d := new DecodedMessage();
      decoded := d;
    }

    /** Zeroes the whole result. */
    method Clear()
      requires Shaped()
      modifies Footprint()
      ensures Valid() && Value() == NO_REPORT
      ensures forall i :: 0 <= i < NDEF_MAX_BYTES ==> ndefData[i] == 0
    {
      forall i | 0 <= i < uid.Length { uid[i] := 0; }
      forall i | 0 <= i < ndefData.Length { ndefData[i] := 0; }
      cardType, protocol := Unknown, Undefined;
      uidLen, ndefLen, ndefPresent := 0, 0, false;
      dataAreaSize, writeable, tagTypeName, raw := 0, false, None, None;
      decoded.Clear();
    }

    /** Copies a message into the result, with its length. */
    method StoreNdef(src: array<byte>, from: nat, n: nat)
      requires Valid() && n <= NDEF_MAX_BYTES && from + n <= src.Length && src != ndefData
      modifies this`ndefPresent, this`ndefLen, ndefData
      ensures Valid() && ndefData[..ndefLen] == src[from..from + n]
      ensures ndefPresent == (n > 0) && ndefLen == n
    {
      forall i | 0 <= i < n {
        ndefData[i] := src[from + i];
      }
      ndefLen := n;
      ndefPresent := n > 0;
    }
  }
}
