/** Configuration, environment and observable actions of the reader module. */
module ReaderTypes {
  import opened Bytes
  import opened Status
  import opened CardResult
  import opened CardInfoReader
  import TypeTwoTag
  import CardWait

  /** UINT32_MAX milliseconds: run until stopped. */
  const FOREVER: uint32 := 0xFFFF_FFFF

  const RAW_RX_BUF_SIZE: nat := 300

  type Disc = CardWait.Disc

  /** The configuration as far as it steers the flow; the last two fields say
      whether the per-card and the completion callback are set. */
  datatype Config = Config(timeoutMs: uint32, retryCount: byte, readNdef: bool, maxNdefBytes: nat,
                           runRawExchange: bool, onCardEvent: bool, callback: bool)
  {
    predicate Forever() { timeoutMs == FOREVER }
  }

  /** What activating a card gives; `rawUid` is its UID in the order in which the
      result shows it. */
  datatype Activation = Activation(status: Status, cardType: CardType, protocol: Protocol, rawUid: seq<byte>)
  {
    /** The UID as extract_uid clips it to the result's ten bytes. */
    function Uid(): (uid: seq<byte>)
      ensures |uid| <= UID_MAX_BYTES
    {
      rawUid[..Min(|rawUid|, UID_MAX_BYTES)]
    }
  }

  /** A UID of at most ten bytes is reported whole. */
  lemma UidClipped(a: Activation)
    ensures a.Uid() == if |a.rawUid| <= 10 then a.rawUid else a.rawUid[..10]
  {
    if |a.rawUid| <= 10 {
      assert a.rawUid[..|a.rawUid|] == a.rawUid;
    }
  }

  /** An activated card, with everything it will still reply. */
  datatype CardSeen = CardSeen(activation: Activation, env: CardEnv, raw: TypeTwoTag.Reply)

  const MUTE := TypeTwoTag.Reply(false, [])

  /** A card that never replies. */
  const MUTE_CARD := CardSeen(Activation(OK, Unknown, Undefined, []),
                              CardEnv((n: nat, cmd: seq<byte>) => MUTE, SdkReply(OK, false, false, [], 0, 0)), MUTE)

  datatype CardEvent = CardEvent(status: Status, report: Option<Report>, text: string)

  /** One call into the adapter, or one call of the application's card callback. */
  datatype Call =
    | Open(ok: bool)
    | Configure(ok: bool)
    | Start(ok: bool)
    | GetSystemState
    | GetRfError
    | Wait(ms: uint32, ok: bool, disc: Disc)
    | Activate(ok: bool)
    | ReadCard
    | ExchangeRaw
    | Deactivate
    | Close
    | Event(event: CardEvent)

  // ----- What an application is told about a card -------------------------

  predicate WantsRaw(cfg: Config, p: Protocol) {
    cfg.runRawExchange && !p.IsoDep? && !p.Undefined?
  }

  /** ... and there is a frame for it to send to the card. */
  predicate ExchangesRaw(cfg: Config, p: Protocol) {
    WantsRaw(cfg, p) && !p.Extension?
  }

  function RawOf(cfg: Config, p: Protocol, raw: TypeTwoTag.Reply): Option<RawExchange> {
    if !WantsRaw(cfg, p) then None
    else if p.Extension? then Some(RawExchange(ErrInvalidCfg, []))
    else if raw.ok then Some(RawExchange(OK, raw.data[..Min(|raw.data|, RAW_RX_BUF_SIZE)]))
    else Some(RawExchange(ErrInternal, []))
  }

  function InfoRead(cfg: Config, card: CardSeen): Info {
    if cfg.readNdef then InfoOf(card.activation.protocol, card.env, cfg.maxNdefBytes).info else NO_INFO
  }

  /** The result reported for a card: a function of the configuration and of
      this card's own replies. */
  function ReportOf(cfg: Config, card: CardSeen): Report {
    var a := card.activation;
    Report(a.cardType, a.protocol, a.Uid(), InfoRead(cfg, card), RawOf(cfg, a.protocol, card.raw))
  }

  const FAILED_TEXT := "card activate failed"
  const WARNING_TEXT := "WARN: PA overcurrent limiter activated"
  const FAULT_TEXT := "ERROR: critical system-error (overcurrent/temperature)"

  const WARNING := Event(CardEvent(OK, None, WARNING_TEXT))
  const FAULT := Event(CardEvent(ErrInternal, None, FAULT_TEXT))

  /** The card callback runs only where one is set. */
  function Told(cfg: Config, c: Call): seq<Call> {
    if cfg.onCardEvent then [c] else []
  }
}
