/**
 * The one-line summary of a card, printed into a bounded buffer, and a parser
 * that recovers what it says.
 */
module CardSummary {
  import opened Bytes
  import opened CardResult

  // ----- The text ---------------------------------------------------------

  const HEX_DIGITS := "0123456789ABCDEF"
  const LEAD := "CARD DETECTED! type="
  const UID_LABEL := " UID="
  const NDEF_LABEL := " NDEF="

  function TypeName(t: CardType): string {
    match t
    case Iso14443A => "ISO14443A"
    case Iso14443B => "ISO14443B"
    case FeliCa => "FeliCa"
    case Iso15693 => "ISO15693"
    case NfcTagType2 => "NFC-T2T"
    case NfcTagType3 => "NFC-T3T"
    case NfcTagType4A => "NFC-T4A"
    case NfcTagType4B => "NFC-T4B"
    case NfcTagType5 => "NFC-T5T"
    case Unknown => "Unknown"
  }

  function HexByte(b: byte): (s: string)
    ensures |s| == 2
  {
    [HEX_DIGITS[b / 16], HEX_DIGITS[b % 16]]
  }

  function Hex(bs: seq<byte>): (s: string)
    ensures |s| == 2 * |bs|
  {
    if bs == [] then "" else HexByte(bs[0]) + Hex(bs[1..])
  }

  function Digit(d: nat): char
    requires d < 10
  {
    HEX_DIGITS[d]
  }

  function Digits(n: nat): string {
    if n == 0 then "" else Digits(n / 10) + [Digit(n % 10)]
  }

  function Decimal(n: nat): string {
    if n == 0 then "0" else Digits(n)
  }

  function Start(r: Report): string {
    "CARD DETECTED! type=" + TypeName(r.cardType) + " UID="
  }

  function NdefPart(r: Report): string {
    if r.info.present then " NDEF=" + Decimal(|r.info.ndef|) + "B" else ""
  }

  function FullText(r: Report): string {
    Start(r) + Hex(r.uid) + NdefPart(r)
  }

  // ----- Printing into a buffer of `size` characters ----------------------

  /** A string is cut to leave room for the terminator. */
  function PutString(out: string, size: nat, s: string): (t: string)
    ensures |out| < size ==> |t| < size
    ensures |out| >= size ==> t == out
  {
    out + s[..Min(|s|, if |out| < size then size - 1 - |out| else 0)]
  }

  /** A byte is printed whole or not at all. */
  function PutHex(out: string, size: nat, bs: seq<byte>): (t: string)
    ensures |out| < size ==> |t| < size
    ensures |out| >= size ==> t == out
    decreases |bs|
  {
    if bs == [] then out
    else PutHex(if |out| + 2 >= size then out else out + HexByte(bs[0]), size, bs[1..])
  }

  function Summary(r: Report, size: nat): (t: string)
    requires size > 0
    ensures |t| < size
  {
    var t := PutString(PutString(PutString("", size, LEAD), size, TypeName(r.cardType)), size, UID_LABEL);
    var t := PutHex(t, size, r.uid);
    if r.info.present then
      PutString(PutString(PutString(t, size, NDEF_LABEL), size, Decimal(|r.info.ndef|)), size, "B")
    else t
  }

  // ----- What a bounded summary is ----------------------------------------

  lemma PutStringTwice(out: string, size: nat, a: string, b: string)
    requires |out| < size
    ensures PutString(PutString(out, size, a), size, b) == PutString(out, size, a + b)
  {
    var room := size - 1 - |out|;
    if |a| <= room {
      assert (a + b)[..Min(|a + b|, room)] == a + b[..Min(|b|, room - |a|)];
    } else {
      assert (a + b)[..room] == a[..room];
    }
  }

  lemma PutHexFull(out: string, size: nat, bs: seq<byte>)
    requires |out| < size <= |out| + 2
    ensures PutHex(out, size, bs) == out
    decreases |bs|
  {
  }

  lemma PutHexCons(out: string, size: nat, bs: seq<byte>)
    requires |out| + 2 < size && bs != []
    ensures PutHex(out, size, bs) == PutHex(out + HexByte(bs[0]), size, bs[1..])
  {
  }

  lemma HexTake(bs: seq<byte>, k: nat)
    requires k < |bs|
    ensures Hex(bs)[..2 * (k + 1)] == HexByte(bs[0]) + Hex(bs[1..])[..2 * k]
  {
    hide HexByte;
    assert Hex(bs) == HexByte(bs[0]) + Hex(bs[1..]);
  }

  /** As many whole bytes are printed as fit. */
  lemma {:induction false} PutHexIsPrefix(out: string, size: nat, bs: seq<byte>)
    requires |out| < size
    ensures PutHex(out, size, bs) == out + Hex(bs)[..2 * Min(|bs|, (size - 1 - |out|) / 2)]
    decreases |bs|
  {
    hide PutHex, Hex, HexByte;
    var room := (size - 1 - |out|) / 2;
    if room == 0 {
      PutHexFull(out, size, bs);
      assert out + Hex(bs)[..0] == out;
    } else if bs == [] {
      PutHexSuffix(out, size, bs);
      assert out + Hex(bs)[..0] == out;
    } else {
      var out' := out + HexByte(bs[0]);
      PutHexCons(out, size, bs);
      PutHexIsPrefix(out', size, bs[1..]);
      var k := Min(|bs| - 1, room - 1);
      HexTake(bs, k);
      assert out' + Hex(bs[1..])[..2 * k] == out + (HexByte(bs[0]) + Hex(bs[1..])[..2 * k]);
    }
  }

  lemma SummaryParts(r: Report, size: nat)
    requires size > 0
    ensures Summary(r, size) == PutString(PutHex(PutString("", size, Start(r)), size, r.uid), size, NdefPart(r))
  {
    PutStringTwice("", size, LEAD, TypeName(r.cardType));
    PutStringTwice("", size, LEAD + TypeName(r.cardType), UID_LABEL);
    var t := PutHex(PutString("", size, Start(r)), size, r.uid);
    if r.info.present {
      var d := Decimal(|r.info.ndef|);
      PutStringTwice(t, size, NDEF_LABEL, d);
      PutStringTwice(t, size, NDEF_LABEL + d, "B");
    }
  }

  /** A buffer with one character more than the text holds all of it. */
  lemma SummaryComplete(r: Report, size: nat)
    requires |FullText(r)| < size
    ensures Summary(r, size) == FullText(r)
  {
    hide Start, NdefPart, Hex;
    SummaryParts(r, size);
    PutHexIsPrefix(Start(r), size, r.uid);
    assert Start(r)[..|Start(r)|] == Start(r);
    assert Hex(r.uid)[..2 * |r.uid|] == Hex(r.uid);
    assert NdefPart(r)[..|NdefPart(r)|] == NdefPart(r);
    assert "" + Start(r) == Start(r);
  }

  /** A UID byte that misses its second digit by one character is dropped, and
      the blank of the NDEF label takes the place of its first. */
  predicate DropsHalfByte(r: Report, size: nat) {
    var room := size - 1 - |Start(r)|;
    r.info.present && 0 < room < 2 * |r.uid| && room % 2 == 1
  }

  lemma HexHasNoBlank(bs: seq<byte>)
    ensures ' ' !in Hex(bs)
  {
    if bs != [] {
      HexHasNoBlank(bs[1..]);
      var a, b := bs[0] / 16, bs[0] % 16;
      assert HEX_DIGITS[a] in HEX_DIGITS && HEX_DIGITS[b] in HEX_DIGITS && ' ' !in HEX_DIGITS;
    }
  }

  /** The bounded text by the part that the end of the buffer falls in. */
  lemma SummaryCut(r: Report, size: nat)
    requires size > 0
    ensures var start, hex, ndef := Start(r), Hex(r.uid), NdefPart(r);
            var room := size - 1 - |start|;
            Summary(r, size) ==
            if room <= 0 then start[..size - 1]
            else if room >= |hex| then start + hex + ndef[..Min(|ndef|, room - |hex|)]
            else start + hex[..room / 2 * 2] + ndef[..Min(|ndef|, room % 2)]
  {
    hide Start, Hex, NdefPart, Summary, PutHex;
    var start, hex := Start(r), Hex(r.uid);
    var first := PutString("", size, start);
    SummaryParts(r, size);
    PutHexIsPrefix(first, size, r.uid);
    var room := size - 1 - |start|;
    if room > 0 {
      assert first == start;
      assert hex[..|hex|] == hex;
    }
  }

  lemma CutIsPrefix(start: string, hex: string, ndef: string, j: nat)
    ensures j <= |start| ==> start[..j] <= start + hex + ndef
    ensures j <= |hex| ==> start + hex[..j] <= start + hex + ndef
    ensures j <= |ndef| ==> start + hex + ndef[..j] <= start + hex + ndef
  {
  }

  lemma BlankForDigit(start: string, hex: string, ndef: string, j: nat)
    requires j < |hex| && ndef != "" && hex[j] != ndef[0]
    ensures !(start + hex[..j] + ndef[..1] <= start + hex + ndef)
  {
    var s, t := start + hex[..j] + ndef[..1], start + hex + ndef;
    assert s[|start| + j] == ndef[0];
    assert t[|start| + j] == hex[j];
  }

  lemma NdefPartStart(r: Report)
    ensures if r.info.present then NdefPart(r) != "" && NdefPart(r)[0] == ' ' else NdefPart(r) == ""
  {
  }

  /** A text cut after `size - 1` characters, whole bytes only, that still goes
      on with `ndef` if a character is left. */
  lemma CutText(start: string, hex: string, ndef: string, size: nat, t: string)
    requires size > 0 && (ndef != "" ==> ndef[0] !in hex)
    requires var room := size - 1 - |start|;
             t == if room <= 0 then start[..size - 1]
                  else if room >= |hex| then start + hex + ndef[..Min(|ndef|, room - |hex|)]
                  else start + hex[..room / 2 * 2] + ndef[..Min(|ndef|, room % 2)]
    ensures var room := size - 1 - |start|;
            t <= start + hex + ndef <==> !(ndef != "" && 0 < room < |hex| && room % 2 == 1)
  {
    var room := size - 1 - |start|;
    if room <= 0 {
      CutIsPrefix(start, hex, ndef, size - 1);
    } else if room >= |hex| {
      CutIsPrefix(start, hex, ndef, Min(|ndef|, room - |hex|));
    } else {
      var j := room / 2 * 2;
      CutIsPrefix(start, hex, ndef, j);
      if room % 2 == 1 && ndef != "" {
        BlankForDigit(start, hex, ndef, j);
      } else {
        assert start + hex[..j] + "" == start + hex[..j];
      }
    }
  }

  /** A smaller buffer holds a prefix of the text, except in that one case. */
  lemma SummaryIsPrefix(r: Report, size: nat)
    requires size > 0
    ensures Summary(r, size) <= FullText(r) <==> !DropsHalfByte(r, size)
  {
    hide Start, Hex, NdefPart, Summary;
    HexHasNoBlank(r.uid);
    SummaryCut(r, size);
    NdefPartStart(r);
    CutText(Start(r), Hex(r.uid), NdefPart(r), size, Summary(r, size));
  }

  // ----- Reading the text back --------------------------------------------

  datatype Facts = Facts(cardType: CardType, uid: seq<byte>, ndefLen: Option<nat>)

  /** The text up to the first blank, and the text from there on. */
  function SplitAtBlank(s: string): (string, string) {
    if s == "" || s[0] == ' ' then ("", s)
    else
      var (a, b) := SplitAtBlank(s[1..]);
      ([s[0]] + a, b)
  }

  function TypeOfName(s: string): Option<CardType> {
    if s == "ISO14443A" then Some(Iso14443A)
    else if s == "ISO14443B" then Some(Iso14443B)
    else if s == "FeliCa" then Some(FeliCa)
    else if s == "ISO15693" then Some(Iso15693)
    else if s == "NFC-T2T" then Some(NfcTagType2)
    else if s == "NFC-T3T" then Some(NfcTagType3)
    else if s == "NFC-T4A" then Some(NfcTagType4A)
    else if s == "NFC-T4B" then Some(NfcTagType4B)
    else if s == "NFC-T5T" then Some(NfcTagType5)
    else if s == "Unknown" then Some(Unknown)
    else None
  }

  function HexValue(c: char): (v: Option<nat>)
    ensures v.Some? ==> v.value < 16 && HEX_DIGITS[v.value] == c
  {
    if '0' <= c <= '9' then Some(c as int - '0' as int)
    else if 'A' <= c <= 'F' then Some(c as int - 'A' as int + 10)
    else None
  }

  function ParseHex(s: string): Option<seq<byte>> {
    if s == "" then Some([])
    else if |s| < 2 then None
    else
      match (HexValue(s[0]), HexValue(s[1]), ParseHex(s[2..]))
      case (Some(h), Some(l), Some(rest)) => Some([16 * h + l] + rest)
      case _ => None
  }

  predicate IsDigit(c: char) { '0' <= c <= '9' }

  /** The value of a string of digits, the last digit counting ones. */
  function DigitsValue(s: string): Option<nat> {
    if s == "" then Some(0)
    else
      var c := s[|s| - 1];
      match DigitsValue(s[..|s| - 1])
      case Some(n) => if IsDigit(c) then Some(10 * n + (c as int - '0' as int)) else None
      case None => None
  }

  function ParseNdef(s: string): Option<Option<nat>> {
    if s == "" then Some(None)
    else if !(NDEF_LABEL <= s) || s[|s| - 1] != 'B' || |s| < |NDEF_LABEL| + 2 then None
    else
      match DigitsValue(s[|NDEF_LABEL|..|s| - 1])
      case Some(n) => Some(Some(n))
      case None => None
  }

  function Parse(s: string): Option<Facts> {
    if !(LEAD <= s) then None
    else
      var (name, rest) := SplitAtBlank(s[|LEAD|..]);
      if !(UID_LABEL <= rest) then None
      else
        var (hex, tail) := SplitAtBlank(rest[|UID_LABEL|..]);
        match (TypeOfName(name), ParseHex(hex), ParseNdef(tail))
        case (Some(t), Some(uid), Some(n)) => Some(Facts(t, uid, n))
        case _ => None
  }

  lemma {:induction false} SplitOfConcat(a: string, b: string)
    requires ' ' !in a && (b == "" || b[0] == ' ')
    ensures SplitAtBlank(a + b) == (a, b)
  {
    if a == "" {
      assert a + b == b;
    } else {
      assert (a + b)[1..] == a[1..] + b;
      SplitOfConcat(a[1..], b);
      assert [a[0]] + a[1..] == a;
    }
  }

  lemma HexValueOfDigit(d: nat)
    requires d < 16
    ensures HexValue(HEX_DIGITS[d]) == Some(d)
  {
  }

  lemma ParseOfHexByte(b: byte, rest: string)
    ensures ParseHex(HexByte(b) + rest) ==
            match ParseHex(rest)
            case Some(bs) => Some([b] + bs)
            case None => None
  {
    HexValueOfDigit(b / 16);
    HexValueOfDigit(b % 16);
    var s := HexByte(b) + rest;
    assert s[2..] == rest && s[0] == HEX_DIGITS[b / 16] && s[1] == HEX_DIGITS[b % 16];
    hide HexValue, HexByte;
    assert 16 * (b / 16) + b % 16 == b;
  }

  lemma {:induction false} ParseOfHex(bs: seq<byte>)
    ensures ParseHex(Hex(bs)) == Some(bs)
  {
    if bs != [] {
      ParseOfHex(bs[1..]);
      ParseOfHexByte(bs[0], Hex(bs[1..]));
      hide ParseHex, HexByte;
      assert [bs[0]] + bs[1..] == bs;
    }
  }

  lemma {:induction false} ValueOfDigits(n: nat)
    ensures DigitsValue(Digits(n)) == Some(n)
  {
    if n > 0 {
      ValueOfDigits(n / 10);
      HexValueOfDigit(n % 10);
      var s := Digits(n);
      assert s[..|s| - 1] == Digits(n / 10);
    }
  }

  lemma ValueOfDecimal(n: nat)
    ensures DigitsValue(Decimal(n)) == Some(n)
  {
    if n == 0 {
      assert "0"[..0] == "";
      assert DigitsValue("0"[..0]) == Some(0);
    } else {
      ValueOfDigits(n);
    }
  }

  /** No other string of digits without leading zeros has that value. */
  lemma {:induction false} DecimalIsCanonical(s: string, n: nat)
    requires DigitsValue(s) == Some(n) && (s != "" ==> s[0] != '0')
    ensures s == Digits(n)
    decreases |s|
  {
    if s != "" {
      var front := s[..|s| - 1];
      var m := DigitsValue(front).value;
      DecimalIsCanonical(front, m);
      var d := s[|s| - 1] as int - '0' as int;
      assert HEX_DIGITS[d] == s[|s| - 1] by { HexValueOfDigit(d); }
      assert n / 10 == m && n % 10 == d;
    }
  }

  lemma NamesParse(t: CardType)
    ensures TypeOfName(TypeName(t)) == Some(t)
    ensures ' ' !in TypeName(t)
  {
  }

  lemma ParseOfNdefPart(r: Report)
    ensures var s := NdefPart(r);
            && ParseNdef(s) == Some(if r.info.present then Some(|r.info.ndef|) else None)
            && (s == "" || s[0] == ' ')
  {
    if r.info.present {
      var n := |r.info.ndef|;
      var d := Decimal(n);
      ValueOfDecimal(n);
      var s := NdefPart(r);
      assert s[|NDEF_LABEL|..|s| - 1] == d;
      assert NDEF_LABEL <= s;
      assert d != "" by { if n > 0 { assert Digits(n) != ""; } }
    }
  }

  /** Where the parser cuts a text that is laid out like a summary. */
  lemma Layout(lead: string, name: string, mark: string, hex: string, tail: string)
    ensures var s := lead + name + mark + hex + tail;
            && lead <= s && s[|lead|..] == name + (mark + (hex + tail))
            && mark <= mark + (hex + tail) && (mark + (hex + tail))[|mark|..] == hex + tail
  {
    assert lead + name + mark + hex + tail == lead + (name + (mark + (hex + tail)));
  }

  lemma ParseOfLayout(name: string, hex: string, tail: string)
    requires ' ' !in name && ' ' !in hex && (tail == "" || tail[0] == ' ')
    ensures Parse(LEAD + name + UID_LABEL + hex + tail) ==
            match (TypeOfName(name), ParseHex(hex), ParseNdef(tail))
            case (Some(t), Some(uid), Some(n)) => Some(Facts(t, uid, n))
            case _ => None
  {
    hide TypeOfName, ParseHex, ParseNdef, SplitAtBlank;
    Layout(LEAD, name, UID_LABEL, hex, tail);
    assert (UID_LABEL + (hex + tail))[0] == ' ';
    SplitOfConcat(name, UID_LABEL + (hex + tail));
    SplitOfConcat(hex, tail);
  }

  /** The summary determines the card type, the UID and the message length. */
  lemma ParseOfSummary(r: Report, size: nat)
    requires |FullText(r)| < size
    ensures Parse(Summary(r, size)) ==
            Some(Facts(r.cardType, r.uid, if r.info.present then Some(|r.info.ndef|) else None))
  {
    SummaryComplete(r, size);
    hide Summary, Hex, NdefPart, ParseNdef, ParseHex, TypeName, TypeOfName, SplitAtBlank, Parse;
    NamesParse(r.cardType);
    ParseOfHex(r.uid);
    ParseOfNdefPart(r);
    HexHasNoBlank(r.uid);
    ParseOfLayout(TypeName(r.cardType), Hex(r.uid), NdefPart(r));
  }

  lemma {:induction false} DigitsAtMost(n: nat, k: nat)
    requires n < Pow10(k)
    ensures |Digits(n)| <= k
  {
    if n > 0 && k > 0 {
      DigitsAtMost(n / 10, k - 1);
    }
  }

  function Pow10(k: nat): nat {
    if k == 0 then 1 else 10 * Pow10(k - 1)
  }

  lemma StartLength(r: Report)
    ensures |Start(r)| <= 34
  {
  }

  const SUMMARY_BUF_SIZE: nat := 128

  /** The reader's own buffer is always long enough. */
  lemma SummaryFits(r: Report)
    requires |r.uid| <= 10 && |r.info.ndef| <= 512
    ensures |FullText(r)| < 128
  {
    StartLength(r);
    hide Start, Digits;
    assert Pow10(3) == 1000;
    DigitsAtMost(|r.info.ndef|, 3);
  }

  // ----- The printer ------------------------------------------------------

  method CopyString(dst: array<char>, size: nat, off: nat, s: string) returns (end: nat)
    requires off <= dst.Length && size <= dst.Length
    modifies dst
    ensures off <= end <= dst.Length && (off < size ==> end < size)
    ensures dst[..end] == PutString(old(dst[..off]), size, s)
  {
    end := off;
    var i := 0;
    while i < |s| && end + 1 < size
      invariant 0 <= i <= |s| && end == off + i && (off < size ==> end < size) && (off >= size ==> i == 0)
      invariant dst[..end] == old(dst[..off]) + s[..i]
    {
      dst[end] := s[i];
      end := end + 1;
      i := i + 1;
    }
  }

  method CopyHexByte(dst: array<char>, size: nat, off: nat, b: byte) returns (end: nat)
    requires off <= dst.Length && size <= dst.Length
    modifies dst
    ensures off <= end <= dst.Length && (off < size ==> end < size)
    ensures dst[..end] == if off + 2 >= size then old(dst[..off]) else old(dst[..off]) + HexByte(b)
  {
    if off + 2 >= size {
      return off;
    }
    dst[off] := HEX_DIGITS[b / 16 % 16];
    dst[off + 1] := HEX_DIGITS[b % 16];
    end := off + 2;
    assert dst[..end] == old(dst[..off]) + [dst[off], dst[off + 1]];
  }

  /** The values still possible after `n` digits have been taken off a uint32. */
  function Remaining(n: nat): nat {
    if n == 0 then 0xFFFF_FFFF else Remaining(n - 1) / 10
  }

  lemma LastDigit(v: nat)
    requires v > 0
    ensures Digits(v) == Digits(v / 10) + [HEX_DIGITS[v % 10]]
  {
  }

  lemma NoDigits(none: string)
    requires none == ""
    ensures Digits(0) == "" && Reversed(none) == ""
  {
  }

  /** Digits come out last first into `tmp`; eleven places are enough. */
  method TakeDigits(value: uint32, tmp: array<char>) returns (n: nat)
    requires tmp.Length == 11
    modifies tmp
    ensures n <= tmp.Length && Reversed(tmp[..n]) == Digits(value)
  {
    hide Digits, Reversed;
    n := 0;
    var v: nat := value;
    NoDigits(tmp[..0]);
    while v > 0 && n < tmp.Length
      invariant n <= tmp.Length && v <= Remaining(n)
      invariant Digits(value) == Digits(v) + Reversed(tmp[..n])
      decreases v
    {
      ghost var taken := tmp[..n];
      LastDigit(v);
      tmp[n] := HEX_DIGITS[v % 10];
      assert tmp[..n + 1] == taken + [tmp[n]];
      ReversedAppend(taken, tmp[n]);
      n := n + 1;
      v := v / 10;
    }
    TenDigitsAtMost();
  }

  /** Copies `tmp` from its `n`-th character back to its first. */
  method CopyBackwards(dst: array<char>, size: nat, off: nat, tmp: array<char>, n: nat) returns (end: nat)
    requires off <= dst.Length && size <= dst.Length && n <= tmp.Length && dst != tmp
    modifies dst
    ensures off <= end <= dst.Length && (off < size ==> end < size)
    ensures dst[..end] == PutString(old(dst[..off]), size, Reversed(tmp[..n]))
  {
    hide Reversed;
    end := off;
    var k: nat := n;
    ghost var taken, out := tmp[..n], dst[..off];
    ghost var back := Reversed(taken);
    while k > 0 && end + 1 < size
      invariant k <= n && end == off + (n - k) && tmp[..n] == taken
      invariant (off < size ==> end < size) && (off >= size ==> end == off)
      invariant end <= dst.Length && dst[..end] == out + back[..n - k]
    {
      k := k - 1;
      ReversedAt(taken, k);
      assert tmp[k] == taken[k] == back[n - 1 - k];
      dst[end] := tmp[k];
      end := end + 1;
    }
  }

  method CopyUint(dst: array<char>, size: nat, off: nat, value: uint32) returns (end: nat)
    requires off <= dst.Length && size <= dst.Length
    modifies dst
    ensures off <= end <= dst.Length && (off < size ==> end < size)
    ensures dst[..end] == PutString(old(dst[..off]), size, Decimal(value))
  {
    end := off;
    if value == 0 {
      if off + 1 < size {
        dst[end] := '0';
        end := end + 1;
      }
      return;
    }
    hide Digits, Reversed, PutString;
    var tmp := new char[11];
    var n := TakeDigits(value, tmp);
    end := CopyBackwards(dst, size, off, tmp, n);
  }

  function Reversed(s: string): (r: string)
    ensures |r| == |s|
  {
    if s == "" then "" else Reversed(s[1..]) + [s[0]]
  }

  lemma {:induction false} ReversedAppend(s: string, c: char)
    ensures Reversed(s + [c]) == [c] + Reversed(s)
  {
    if s != "" {
      assert (s + [c])[1..] == s[1..] + [c];
      ReversedAppend(s[1..], c);
    }
  }

  lemma {:induction false} ReversedAt(s: string, k: nat)
    requires k < |s|
    ensures Reversed(s)[|s| - 1 - k] == s[k]
  {
    if k > 0 {
      ReversedAt(s[1..], k - 1);
    }
  }

  lemma TenDigitsAtMost()
    ensures Remaining(10) == 0 && Remaining(11) == 0
  {
    assert Remaining(3) == 4294967;
    assert Remaining(6) == 4294;
    assert Remaining(9) == 4;
  }

  lemma PutHexSuffix(out: string, size: nat, bs: seq<byte>)
    ensures bs[0..] == bs
    ensures PutHex(out, size, bs[|bs|..]) == out
  {
  }

  lemma PutHexStep(out: string, size: nat, bs: seq<byte>, i: nat)
    requires i < |bs|
    ensures PutHex(out, size, bs[i..]) ==
            PutHex(if |out| + 2 >= size then out else out + HexByte(bs[i]), size, bs[i + 1..])
  {
    assert bs[i..][1..] == bs[i + 1..];
  }

  method CopyUid(dst: array<char>, size: nat, off: nat, uid: array<byte>, uidLen: nat) returns (end: nat)
    requires off <= dst.Length && size <= dst.Length && uidLen <= uid.Length
    modifies dst
    ensures off <= end <= dst.Length && (off < size ==> end < size)
    ensures dst[..end] == PutHex(old(dst[..off]), size, uid[..uidLen])
  {
    hide PutHex, HexByte;
    ghost var bytes := uid[..uidLen];
    end := off;
    PutHexSuffix(dst[..end], size, bytes);
    var i: nat := 0;
    while i < uidLen
      invariant i <= uidLen && off <= end <= dst.Length && (off < size ==> end < size)
      invariant PutHex(old(dst[..off]), size, bytes) == PutHex(dst[..end], size, bytes[i..])
    {
      PutHexStep(dst[..end], size, bytes, i);
      end := CopyHexByte(dst, size, end, uid[i]);
      i := i + 1;
    }
    PutHexSuffix(dst[..end], size, bytes);
  }

  method CopyNdefPart(dst: array<char>, size: nat, off: nat, ndefLen: uint32) returns (end: nat)
    requires off <= dst.Length && size <= dst.Length
    modifies dst
    ensures off <= end <= dst.Length && (off < size ==> end < size)
    ensures dst[..end] ==
            PutString(PutString(PutString(old(dst[..off]), size, NDEF_LABEL), size, Decimal(ndefLen)), size, "B")
  {
    hide PutString, Decimal;
    end := CopyString(dst, size, off, NDEF_LABEL);
    end := CopyUint(dst, size, end, ndefLen);
    end := CopyString(dst, size, end, "B");
  }

  /** rs_nfc_reader_card_summary_build: the text, terminated inside the buffer. */
  method BuildSummary(res: Result, buf: array<char>, size: nat) returns (end: nat)
    requires res.Valid() && size <= buf.Length
    modifies buf
    ensures size == 0 ==> end == 0 && buf[..] == old(buf[..])
    ensures size > 0 ==> end < size && buf[end] == '\0' && buf[..end] == Summary(res.Value(), size)
  {
    if size == 0 {
      return 0;
    }
    hide PutString, PutHex, Decimal, TypeName;
    assert buf[..0] == "";
    end := CopyString(buf, size, 0, LEAD);
    end := CopyString(buf, size, end, TypeName(res.cardType));
    end := CopyString(buf, size, end, UID_LABEL);
    end := CopyUid(buf, size, end, res.uid, res.uidLen);
    if res.ndefPresent {
      end := CopyNdefPart(buf, size, end, res.ndefLen);
    }
    buf[end] := '\0';
  }
}
