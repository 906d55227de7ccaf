# Verification of the NFC reader module

This project models the reader module of the firmware and proves what it does.
It follows the three source files that hold the logic:

* `src/nfc_reader/src/rs_ndef_read.c`: how an activated card is read. A Type 2
  Tag is read block by block into a 280-byte buffer, a walk over its TLVs finds
  the NDEF message, and a decoder splits the message into at most eight records.
* `src/nfc_reader/src/rs_nfc_reader.c`: the orchestrator. It has an event loop
  of four states, a single shot with a retry wrapper, the bracket of open and
  close around both, the worker behind non-blocking reads, `Stop()`, and the
  printer of the one-line card summary.
* `src/nfc_reader/src/ptx105r/rs_nfc_ptx105r.c`: the wait that blocks on the
  reader's interrupt, the hand-over of the interrupt callback, open and close.

`dafny verify dfyconfig.toml` checks all of it.

## How it is built

The data formats are written down independently of the reader, as a writer sees
them: `WireRecord`/`Encode` for NDEF records (NFC Forum NDEF Technical
Specification 1.0, section 3.2), `Tlv`/`EncodeTlv` for the TLV area (NFC Forum
Type 2 Tag Operation Specification, section 2.3), and the memory layout of a tag
in `NdefPipeline.Holds`. The theorems tie the reader to these.

The code works in place, and so does the model: the decoder fills slots of an
array and counts them, the block loop fills a byte array, the event loop reuses
one result record, the wait driver swaps the installed callback, the printer
writes a character array at a moving offset. Each such method is proved equal to
a function of what it meets, and the theorems are about that function.

| File | Contents |
|---|---|
| `Bytes`, `Status` | integer widths with their wrap-around, options, slices; status codes |
| `NdefRecord` | the record format, the decoder as a function in exact and in 32-bit arithmetic, round trip, tiling, cutting |
| `NdefDecoder` | the decoder in place |
| `Tlv` | the TLV format and the search for the NDEF message |
| `TypeTwoTag` | Capability Container and block reads, against a tag's memory |
| `CardResult`, `CardInfoReader` | the result record, and reading a card into it |
| `NdefPipeline` | the three loops together, from tag memory to records |
| `CardSummary` | the summary printer and a parser for what it prints |
| `CardWait` | the wait: tick arithmetic and interrupt callback |
| `ReaderTypes`, `AdapterTrace` | configuration, adapter calls, the order they may come in |
| `EventLoop`, `EventLoopRunner` | the event loop as a function and as a loop |
| `EventReports` | what the application is told, event by event |
| `SingleRead`, `BlockingRead`, `BlockingReadRunner` | single shot, retry, open and close |
| `Lifecycle`, `LifecycleRunner` | Read, Stop and the worker as interleaved steps; the flags they write |
| `StopRequests` | what Stop answers and what it achieves |
| `LoopInterleaving`, `AttemptInterleaving` | the event loop, and the single shot with its retries, among other tasks are the sequential ones |

The environment is a parameter everywhere: a card is a function from the exchange
counter and the command to a reply, the adapter's answers are a sequence with one
element for each turn or attempt, peripherals and task creation succeed or fail
as told. Loops that need not end are run while the given sequence lasts, and say
whether they have returned by then; a theorem about all sequences is one about
all finite parts of all runs. The exchange counter is there for the card only.

Tasks are scheduled cooperatively: they share a priority and there is no time
slicing (`configuration.xml:496`, `configuration.xml:561`). So an API call is one
step of the interleaving, and so are the last writes of the worker.

## Where code and documentation differ

The model follows the code. In these places the code does not do what its
documentation says, or does not do all that one expects:

* Stop does not always return `RS_OK` (`src/nfc_reader/include/rs_nfc_reader.h:295-301`,
  `README.md:696`). `StopAnswers` gives the exact condition for each of three statuses.
* Stop does not end a blocked wait as such (`README.md:696`, `README.md:823-835`):
  its notification wakes the task, which finds no card and goes by the clock
  without looking at the stop flag. A card-less wake-up ends the wait exactly if
  the times before and after it add up to the timeout (`CardLessTurn`), a
  notification exactly if half of the timeout is over (`NotificationEndsTheWait`);
  before that any number of them leaves it blocked, with or without a limit.
  `StopSafety` says what Stop does achieve.
* The wait can report "no card" before its timeout. `WhenNoCardIsEarly` has the
  exact condition on a run; a timeout is always waited for in full if and only if
  it is one tick at most (`FullWaitNeedsOneTick`).
* A wait without limit counts down from a converted value and can underflow:
  `ForeverUnderflow`. One with a limit never does.
* With a finite timeout there is never an event for a card
  (`src/nfc_reader/include/rs_nfc_reader.h:252-255`): a successful wait uses up the whole timeout and
  the loop ends before it activates the card. `ActivationNeedsForever` is the
  exact condition.
* With a finite timeout a read in event mode need not end when it elapses
  (`src/nfc_reader/include/rs_nfc_reader.h:280-281`): a wait that fails uses up none of it.
  `FiniteRunEnds` says exactly when such a read ends.
* A message that is longer than the cap or than the reads reach is cut and read
  with `RS_OK`; there is no overflow status (`README.md:862`). `MessageReadBack`
  and `WrittenRecordsCut` say what is left of it.
* The decoder's end check is a 32-bit sum. A record whose payload length nears
  2^32 passes it and is accepted with a payload far outside of the message.
  `MachineAgrees` and `MachineTiles` give the exact condition, `WrappingMessage`
  a message of six bytes.
* A retry count of 255 retries for ever, as the 8-bit counter never exceeds it:
  `GivesUpBelow255`.
* The single shot takes a discovery that is still running for a card, which the
  event loop does not. `StrictOrderNeedsEventMode` is the exact condition for the
  loop's order of calls, `ReadIsDisciplined` states the order for both.
* The summary in a buffer that is too small is not always a prefix of the full
  text: `SummaryIsPrefix` has the exact condition.

## Model

| member | source | states |
|---|---|---|
| NdefRecord.WireRecord.Flags | src/nfc_reader/src/rs_ndef_read.c:422-430 | Of a flags octet packed from its six header fields, the reader takes the message end, short record and ID length bits and the type name format that were packed |
| NdefRecord.ReadRecordOfEncoding | src/nfc_reader/src/rs_ndef_read.c:421-501 | Where an encoded record stands, the reader finds exactly that record, with either length form and with or without an ID, and goes on right behind it |
| NdefRecord.ReadRecordIsEncoding | src/nfc_reader/src/rs_ndef_read.c:421-501 | Conversely, whatever the reader accepts as a record is the encoding of one, with the same fields |
| NdefRecord.DecodeOfReading | src/nfc_reader/src/rs_ndef_read.c:413-507 | Any division of a byte string into records up to the first message end, the last free slot or the first malformed byte is what the decoder returns: the result is unique |
| NdefRecord.DecodeIsTheReading | src/nfc_reader/src/rs_ndef_read.c:413-507 | Every byte string has such a division, and `truncated` is set exactly when only space ran out |
| NdefRecord.DecodeOfEncoding | src/nfc_reader/src/rs_ndef_read.c:413-507 | The decoder inverts the encoder on every list of records: all up to the first that was written as the message end come back, at most 8, and `truncated` tells whether more followed |
| NdefRecord.MachineDecodeOfEncoding | src/nfc_reader/src/rs_ndef_read.c:386-510 | The same for the code's own 32-bit arithmetic, for every message that fits `ndef_len` |
| NdefRecord.ViewsTile | src/nfc_reader/src/rs_ndef_read.c:474-501 | Each accepted record has the flags, type name format, type length, first 32 type bytes and payload that were written, its payload being a slice inside the message |
| NdefRecord.ViewsOrdered | src/nfc_reader/src/rs_ndef_read.c:497-501 | Payload slices come in order, disjoint, with room for a header between |
| NdefRecord.MachineAgrees | src/nfc_reader/src/rs_ndef_read.c:492-499 | The 32-bit end check decodes as exact integers would if and only if no reached record ends between 2^32 and 2^32 plus the message length |
| NdefRecord.MachineTiles | src/nfc_reader/src/rs_ndef_read.c:421-501 | The records the code accepts tile a prefix of the message if and only if no reached record wraps |
| NdefRecord.WrappedRecord | src/nfc_reader/src/rs_ndef_read.c:492-499 | Where one wraps, some accepted record claims nearly 2^32 payload bytes |
| NdefRecord.WrappingMessage | src/nfc_reader/src/rs_ndef_read.c:492-499 | A six-byte message from which the code accepts eight records and exact integers accept none |
| NdefRecord.TwoRecordMessage | src/nfc_reader/src/rs_ndef_read.c:386-510 | An ordinary message of two short text records, octet by octet, is decoded into both |
| NdefRecord.EncodingNeverWrapsFrom | src/nfc_reader/src/rs_ndef_read.c:492-499 | Nothing that a writer produces wraps |
| NdefRecord.DecodeOfPrefix | src/nfc_reader/src/rs_ndef_read.c:386-510 | In either arithmetic, the records of a message's first k bytes are the longest run of the whole message's records that lie within them |
| NdefDecoder.DecodedMessage.Clear | src/nfc_reader/src/rs_ndef_read.c:406 | Empties the list and clears every slot |
| NdefDecoder.DecodeFixedPart | src/nfc_reader/src/rs_ndef_read.c:422-472 | Reads flags, lengths and ID length, telling a complete header from a cut one; writes only the flags and the type name format of the one slot |
| NdefDecoder.DecodeInto | src/nfc_reader/src/rs_ndef_read.c:421-499 | Succeeds exactly where the format has a record, and then the slot holds it; other slots are untouched |
| NdefDecoder.DecodeRecord | src/nfc_reader/src/rs_ndef_read.c:421-501 | A complete record joins the list at its end; an incomplete one leaves the list as it was |
| NdefDecoder.DecodeMessage | src/nfc_reader/src/rs_ndef_read.c:386-510 | For every content and length the list and `truncated` end up as the decoding function says, within bounds and terminating although the position need not advance; slots past the abandoned one stay clear |
| Tlv.FindComplete | src/nfc_reader/src/rs_ndef_read.c:266-317 | Behind any NULL, Lock, Memory and proprietary TLVs in either length form, the walk finds the NDEF Message TLV and its announced length |
| Tlv.FindSound | src/nfc_reader/src/rs_ndef_read.c:266-317 | Conversely, what the walk found stands behind a sequence of such TLVs only |
| Tlv.FindIsAnnouncement | src/nfc_reader/src/rs_ndef_read.c:266-323 | For every byte buffer the walk finds a value exactly where the format announces one, so it finds none exactly when there is none |
| Tlv.FindOfPrefix | src/nfc_reader/src/rs_ndef_read.c:266-317 | A value found in the first bytes of a buffer is the one found in all of it |
| TypeTwoTag.ImageOfMemory | src/nfc_reader/src/rs_ndef_read.c:234-264 | With full READ replies the image is the tag's memory from byte 16 on, of length min(cap, 16 times useful replies), whenever the tag stops replying |
| TypeTwoTag.ServedImage | src/nfc_reader/src/rs_ndef_read.c:226-264 | A tag that always replies gives its whole data area up to the cap, in whole replies |
| TypeTwoTag.ReadCount | src/nfc_reader/src/rs_ndef_read.c:258-263 | For any replies at most 63 of them are taken from block 4 on: the 8-bit block number does not wrap |
| TypeTwoTag.ImageOfReplies | src/nfc_reader/src/rs_ndef_read.c:234-264 | For replies of any length the image is their first sixteen bytes each, one after the other, up to the cap; each of them brought four bytes at least, and it falls short of the cap only where the next did not or the block numbers ran out |
| TypeTwoTag.ShortRepliesSkipMemory | src/nfc_reader/src/rs_ndef_read.c:248-263 | A tag that answers READ with one correct block of four bytes yields blocks 4 and 8 as neighbours, so full replies are needed |
| CardResult.Result.Clear | src/nfc_reader/src/rs_nfc_reader.c:385 | Nothing an earlier card left is in the result afterwards |
| CardResult.Result.StoreNdef | src/nfc_reader/src/rs_ndef_read.c:308-311 | The message field holds exactly the copied bytes, and is marked present unless they are none |
| CardInfoReader.DataExchange | src/nfc_reader/src/ptx105r/rs_nfc_ptx105r.c:501-511 | The receive buffer holds the reply, up to its size |
| CardInfoReader.Append | src/nfc_reader/src/rs_ndef_read.c:255 | What was gathered before stays in front of the new bytes |
| CardInfoReader.ReadImage | src/nfc_reader/src/rs_ndef_read.c:234-264 | The block loop gathers exactly the specified image, for replies of any length |
| CardInfoReader.ReadTlvLength | src/nfc_reader/src/rs_ndef_read.c:283-299 | One or three length octets, or a cut-off header |
| CardInfoReader.WalkTlvs | src/nfc_reader/src/rs_ndef_read.c:266-323 | The walk copies min(length, bytes left, cap) bytes of the first NDEF TLV, and reports no message exactly when there is none or it is empty |
| CardInfoReader.ReadT2TNdef | src/nfc_reader/src/rs_ndef_read.c:195-324 | Every result field and the status for a Type 2 Tag, including the untouched result of an unformatted one |
| CardInfoReader.ReadSdkNdef | src/nfc_reader/src/rs_ndef_read.c:41-190 | The same for Type 3, 4 and 5 Tags from the SDK's answer, with their opposite senses of the access byte |
| CardInfoReader.ReadCardInfo | src/nfc_reader/src/rs_ndef_read.c:330-380 | Whatever was in the extended fields before, they end up as a function of protocol, this card's replies and the cap; the basic fields are left alone |
| CardInfoReader.TypeTwoInfo | src/nfc_reader/src/rs_ndef_read.c:202-223 | A tag without an answer or the NDEF magic is not found and nothing is learnt of it; of any other the area, write access and name are, with RS_OK, whatever it answers afterwards |
| CardInfoReader.SdkCardInfo | src/nfc_reader/src/rs_ndef_read.c:41-190 | Of a Type 3, 4 or 5 Tag: status, name, the message its component read up to the limit and its records, area and access, each in the sense of its type |
| CardInfoReader.OtherCardInfo | src/nfc_reader/src/rs_ndef_read.c:362-368 | Any other card has no message, RS_OK, and a name that tells a peer from the unknown |
| CardInfoReader.MessageWithinLimit | src/nfc_reader/src/rs_ndef_read.c:347-351 | No message is longer than the limit, which is 512 where a caller gives none from 1 to 512 |
| CardInfoReader.PresentMeansBytes | src/nfc_reader/src/rs_ndef_read.c:371-377 | For every protocol a message is marked present exactly when it has bytes, so the guard of the decoder never skips one |
| NdefPipeline.ValueOfLayout | src/nfc_reader/src/rs_ndef_read.c:266-323 | From the first bytes of a tag layout, wherever they end, the walk takes the message as far as it is there, and none if its header is not |
| NdefPipeline.MessageReadBack | src/nfc_reader/src/rs_ndef_read.c:195-324 | A message of any length behind any TLVs on a tag that replies is read as far as the announced area or the 280-byte buffer, whole replies and the cap reach, with the tag's area size and access, and always with RS_OK |
| NdefPipeline.RecordsReadBack | src/nfc_reader/src/rs_ndef_read.c:330-380 | End to end, in the code's arithmetic: any records written to a tag within reach come back, up to the first message end and at most eight, with `truncated` exact |
| NdefPipeline.UpToEightRecordsReadBack | src/nfc_reader/src/rs_ndef_read.c:330-380 | One to eight records with the end marked at most on the last come back exactly, payloads in place and `truncated` false |
| NdefPipeline.WrittenRecordsCut | src/nfc_reader/src/rs_ndef_read.c:330-380 | End to end for a message of any length: the records reported are the longest run of those written that lie within the bytes copied, with RS_OK |
| NdefPipeline.ValueOfCut | src/nfc_reader/src/rs_ndef_read.c:303-311 | A shorter image or smaller cap gives a prefix of the same message |
| NdefPipeline.RecordsOfCut | src/nfc_reader/src/rs_ndef_read.c:303-311 | Truncation by buffer or cap gives the longest run of the full message's records that fit: none is invented or altered |
| CardSummary.SummaryComplete | src/nfc_reader/src/rs_nfc_reader.c:779-824 | A buffer one longer than the text holds all of it |
| CardSummary.SummaryFits | src/nfc_reader/src/rs_nfc_reader.c:307 | 128 characters always suffice for up to 10 UID bytes and 512 message bytes |
| CardSummary.ParseOfSummary | src/nfc_reader/src/rs_nfc_reader.c:779-824 | Card type, UID and message length can be parsed back from the summary |
| CardSummary.SummaryIsPrefix | src/nfc_reader/src/rs_nfc_reader.c:710-721 | In any smaller buffer the text is a prefix of the full one if and only if no UID byte loses its second digit by one character in front of an NDEF part |
| CardSummary.ValueOfDecimal | src/nfc_reader/src/rs_nfc_reader.c:723-750 | The printed decimal has the printed value |
| CardSummary.DecimalIsCanonical | src/nfc_reader/src/rs_nfc_reader.c:738-749 | No other digit string without leading zeros has that value |
| CardSummary.CopyString | src/nfc_reader/src/rs_nfc_reader.c:700-708 | As much of the string as leaves room for the terminator |
| CardSummary.CopyHexByte | src/nfc_reader/src/rs_nfc_reader.c:710-721 | Two digits or none |
| CardSummary.TakeDigits | src/nfc_reader/src/rs_nfc_reader.c:738-742 | The eleven-character scratch buffer holds all digits of every uint32, last first |
| CardSummary.CopyUint | src/nfc_reader/src/rs_nfc_reader.c:723-750 | The canonical decimal of every uint32, cut to leave room for the terminator |
| CardSummary.CopyUid | src/nfc_reader/src/rs_nfc_reader.c:801-804 | All UID bytes that fit, each whole |
| CardSummary.BuildSummary | src/nfc_reader/src/rs_nfc_reader.c:779-824 | For every buffer of at least one character the bounded text, terminated inside the buffer; nothing is written to an empty one |
| CardWait.RemainingNeverUnderflows | src/nfc_reader/src/ptx105r/rs_nfc_ptx105r.c:416-418 | For every finite timeout, every sequence of wake-ups and whatever time they take, the remaining ticks never underflow |
| CardWait.CardLessTurn | src/nfc_reader/src/ptx105r/rs_nfc_ptx105r.c:404-418 | A card-less wake-up ends the wait if and only if the times before and after it add up to the timeout; otherwise the wait blocks for what is left |
| CardWait.WaitBudget | src/nfc_reader/src/ptx105r/rs_nfc_ptx105r.c:389-422 | For every finite timeout and every sequence of wake-ups "no card" comes after half of the timeout at the earliest; the ticks blocked never exceed the timeout where no turn brings the counter round |
| CardWait.BlockingBound | src/nfc_reader/src/ptx105r/rs_nfc_ptx105r.c:416-418 | The bound on blocking holds in every run if and only if no turn's other work can bring the tick counter round within a timeout |
| CardWait.WhenNoCard | src/nfc_reader/src/ptx105r/rs_nfc_ptx105r.c:389-422 | In every run, with or without limit and whatever the counter does, "no card" is answered if and only if some wake-up, after card-less ones only, has no card and comes too late, and then at the time of the first such |
| CardWait.WhatTheWaitReturns | src/nfc_reader/src/ptx105r/rs_nfc_ptx105r.c:402-425 | In every run, with or without limit: a discovery state other than "no card" is returned if and only if the first wake-up that did not find "no card" read it, with none before too late; RS_ERR_INTERNAL if and only if that wake-up could not read it; the wait goes on if and only if there is none |
| CardWait.WhenNoCardIsEarly | src/nfc_reader/src/ptx105r/rs_nfc_ptx105r.c:416-418 | For every finite timeout and every sequence of wake-ups, "no card" is answered before the timeout if and only if two card-less wake-ups in a row, with none but such up to them, lie before it but add up to it |
| CardWait.TimeoutAfterHalf | src/nfc_reader/src/ptx105r/rs_nfc_ptx105r.c:417-418 | For every timeout some run reports no card when just half of it is over |
| CardWait.FullWaitNeedsOneTick | src/nfc_reader/src/ptx105r/rs_nfc_ptx105r.c:417-418 | Every "no card" comes after the whole timeout if and only if that is one tick at most |
| CardWait.ForeverUnderflow | src/nfc_reader/src/ptx105r/rs_nfc_ptx105r.c:389-418 | A wait without limit is free of underflow in every run if and only if UINT32_MAX milliseconds convert to the largest tick count or one less |
| CardWait.ForeverFirstTurn | src/nfc_reader/src/ptx105r/rs_nfc_ptx105r.c:389-418 | A wait without limit returns from its first card-less wake-up if and only if the counter then shows the largest delay |
| CardWait.WakingDoesNotEndTheWait | src/nfc_reader/src/ptx105r/rs_nfc_ptx105r.c:402-422 | Any card-less wake-ups, however long they take, leave the wait blocked for exactly what is left while less than half of the timeout is over |
| CardWait.NotificationEndsTheWait | src/nfc_reader/src/ptx105r/rs_nfc_ptx105r.c:536-543 | A notification that finds no card ends the wait if and only if half of the timeout is over |
| CardWait.ForeverWaitOutlastsNotifications | src/nfc_reader/src/ptx105r/rs_nfc_ptx105r.c:536-543 | So the notification of Stop does not end a wait without limit either, up to half of the ticks that the limit converts to |
| CardWait.WaitDriver.WaitTurn | src/nfc_reader/src/ptx105r/rs_nfc_ptx105r.c:404-421 | One turn from any starting tick, counter rollover included, with the callback in the right hands at each call |
| CardWait.WaitDriver.WaitForCard | src/nfc_reader/src/ptx105r/rs_nfc_ptx105r.c:375-426 | The wake callback is installed only while the waiting task is named, the SDK is asked only with its own callback installed, and every return leaves that callback installed and no task named; status and discovery state are those of the run |
| EventLoop.LoopIsDisciplined | src/nfc_reader/src/rs_nfc_reader.c:314-464 | In every run of the event loop, ended or not, each activation follows a wait that found a card, with no deactivation or activation since, and any two activations have a deactivation between them |
| EventLoop.LoopIsPrompt | src/nfc_reader/src/rs_nfc_reader.c:347-448 | In every run a card that a wait found is activated before the next wait or deactivation, and an activation or a failed wait is followed by a deactivation before the next wait |
| EventLoop.EventConservation | src/nfc_reader/src/rs_nfc_reader.c:378-441 | In every run the results delivered are those of the cards activated, one each and in order, each a function of that card's replies and the configuration only; failed activations get one event each |
| EventReports.DeliveredFields | src/nfc_reader/src/rs_nfc_reader.c:378-428 | In every run the i-th result delivered shows the i-th card activated field by field: type, protocol, UID up to ten bytes, message only if asked for, raw exchange only where asked for; its text can be parsed back |
| EventReports.OtherEvents | src/nfc_reader/src/rs_nfc_reader.c:333-343 | In every run a warning is told for each turn made whose status byte is 6 and for no other, the fault once if and only if the run ends for a system error, which its last turn met, and each failed activation with its own status |
| EventReports.WhatIsAsked | src/nfc_reader/src/rs_nfc_reader.c:394-420 | A message is read of every activated card if the configuration asks for it, and a raw exchange made if it asks for that and the protocol is T2T, T3T, T5T or NFC-DEP |
| EventLoop.FiniteLoop | src/nfc_reader/src/rs_nfc_reader.c:314-376 | With a finite timeout no card is ever activated, every wait asks for the whole timeout, and a run that times out makes twice its failed waits plus one turns |
| EventLoop.FiniteRunEnds | src/nfc_reader/src/rs_nfc_reader.c:314-376 | A read with a finite timeout ends if and only if it is stopped, meets a system error, or one of its waits, which are every other turn, succeeds; failing waits use up no time |
| EventLoop.ActivationNeedsForever | src/nfc_reader/src/rs_nfc_reader.c:370-373 | Some run activates a card if and only if the read is to run for ever |
| EventLoop.ForeverLoop | src/nfc_reader/src/rs_nfc_reader.c:310-376 | A read that is to run for ever never times out and always waits without limit |
| EventLoop.StopEndsLoop | src/nfc_reader/src/rs_nfc_reader.c:314-320 | No turn is made at or after the first stop flag met |
| EventLoopRunner.FillBasics | src/nfc_reader/src/rs_nfc_reader.c:386-389 | The basic fields of this card in an otherwise empty result |
| EventLoopRunner.RawExchangeWith | src/nfc_reader/src/rs_nfc_reader.c:399-420 | The exchange is made exactly where configuration and protocol ask for it and there is a frame to send; its outcome, or the refusal where there is none, is kept |
| EventLoopRunner.FillReport | src/nfc_reader/src/rs_nfc_reader.c:385-420 | Whatever the reused buffer held, the result is what this card and the configuration determine |
| EventLoopRunner.HandleCard | src/nfc_reader/src/rs_nfc_reader.c:378-441 | One activation, then one event with the result and its summary, which is what the result then holds, or one about the failure, which leaves the result as it was |
| EventLoopRunner.CheckHealth | src/nfc_reader/src/rs_nfc_reader.c:322-343 | A system error is noticed exactly where the status read succeeds and reports one; the overcurrent warning is an event |
| EventLoopRunner.LoopTurn | src/nfc_reader/src/rs_nfc_reader.c:322-466 | The adapter calls, events and next state of one turn in each of the four states, and the result it leaves |
| EventLoopRunner.RunEventLoop | src/nfc_reader/src/rs_nfc_reader.c:302-468 | The loop makes exactly the calls of the specified run, returns its status, and leaves the report of the last card activated, or the result as it was if there was none |
| SingleRead.RetryBound | src/nfc_reader/src/rs_nfc_reader.c:262-280 | Up to 254 retries: the wrapper stops at the first success or after one attempt more than its retries, deactivates once per failed attempt and returns the last attempt's status |
| SingleRead.GivesUpBelow255 | src/nfc_reader/src/rs_nfc_reader.c:266-277 | It gives up on every sequence of failures if and only if the retry count is at most 254 |
| SingleRead.RetriesForever | src/nfc_reader/src/rs_nfc_reader.c:266-277 | With 255 it does not: the counter is 0 again after 255 |
| SingleRead.WhenAnAttemptSucceeds | src/nfc_reader/src/rs_nfc_reader.c:145-228 | An attempt succeeds if and only if a stop was seen before or behind the wait or a card was found and activated; else it gives the failure of the wait, RS_ERR_TIMEOUT for nothing found, or the failure of the activation |
| SingleRead.WhatAnAttemptReports | src/nfc_reader/src/rs_nfc_reader.c:230-251 | It reports a card exactly if it activated one, field by field, with the message if asked for and no raw exchange |
| SingleRead.StopEndsRetry | src/nfc_reader/src/rs_nfc_reader.c:145-192 | An attempt that begins with the stop flag set asks nothing of the adapter and ends the retried read with RS_OK, with just the calls of the attempts before |
| SingleRead.TryOnceScans | src/nfc_reader/src/rs_nfc_reader.c:197-254 | The scanner for the order of adapter calls never finds an attempt wrong: it activates only after a wait that found something |
| SingleRead.RetryScans | src/nfc_reader/src/rs_nfc_reader.c:262-280 | ... nor a retried read, which deactivates between any two activations |
| BlockingRead.ReadIsDisciplined | src/nfc_reader/src/rs_nfc_reader.c:473-526 | In every mode and whatever fails: activations follow a wait that found a card, a deactivation separates any two, and a read that started discovery returns only through deactivate and close |
| BlockingRead.StrictOrderNeedsEventMode | src/nfc_reader/src/rs_nfc_reader.c:216-223 | Every read of a configuration activates only after a wait that reported a card or discovery done, if and only if it is one for event mode; a single shot that meets a running discovery is the witness |
| BlockingRead.ReadBalanced | src/nfc_reader/src/rs_nfc_reader.c:473-526 | A read after a balanced history keeps it balanced and leaves the adapter closed when it returns |
| BlockingRead.OpenCloseBalance | src/nfc_reader/src/rs_nfc_reader.c:473-526 | Over any sequence of reads that do not overlap: each successful open has one close, a failed one none, nothing is asked of a closed adapter, and it is closed while no read is in flight |
| BlockingRead.WhatAReadReturns | src/nfc_reader/src/rs_nfc_reader.c:483-525 | The status of a read is the first failure of opening, configuring and starting, else that of the loop, of the retried attempts or of the one attempt, by the mode that the configuration selects |
| BlockingRead.WhenItOpens | src/nfc_reader/src/ptx105r/rs_nfc_ptx105r.c:283-318 | The adapter is opened if and only if all four peripherals come up and one of two tries at the SDK does |
| BlockingReadRunner.OpenAdapter | src/nfc_reader/src/ptx105r/rs_nfc_ptx105r.c:254-319 | The open flag is set exactly when all peripherals and the SDK come up, the SDK at the second try at the latest |
| BlockingReadRunner.CloseAdapter | src/nfc_reader/src/ptx105r/rs_nfc_ptx105r.c:321-327 | The open flag is cleared whatever the SDK answers; only the status tells |
| BlockingReadRunner.DetectWait | src/nfc_reader/src/rs_nfc_reader.c:145-192 | Status and discovery state for a stop before or after the wait, a failed wait, a card, or nothing |
| BlockingReadRunner.TryOnce | src/nfc_reader/src/rs_nfc_reader.c:197-254 | The attempt's calls and status; the result is filled only for an activated card and stays empty otherwise |
| BlockingReadRunner.Retry | src/nfc_reader/src/rs_nfc_reader.c:262-280 | The wrapper with its 8-bit counter makes the calls of the specified run and leaves the result of the successful attempt |
| BlockingReadRunner.Prepare | src/nfc_reader/src/rs_nfc_reader.c:483-507 | Open, configure, start: what fails after the open closes again |
| BlockingReadRunner.RunBody | src/nfc_reader/src/rs_nfc_reader.c:509-523 | The mode that the configuration selects, then deactivate and close |
| BlockingReadRunner.ReadBlocking | src/nfc_reader/src/rs_nfc_reader.c:473-526 | A whole read from an empty result on: its calls, status and the result left in every mode, and a closed adapter whenever it has returned |
| Lifecycle.InvStep | src/nfc_reader/src/rs_nfc_reader.c:531-692 | What every step keeps: only the newest read can be alive, the flags say whether it is, the copied configuration is the one it was accepted with, and callbacks match reads, one for each, with the status it ended with |
| Lifecycle.InvRun | src/nfc_reader/src/rs_nfc_reader.c:531-692 | ... so it holds after every interleaving of Read, Stop and worker steps that keeps blocking reads apart |
| Lifecycle.Conservation | src/nfc_reader/src/rs_nfc_reader.c:531-656 | Accepted non-blocking reads equal completion callbacks fired plus reads that have still to call back, of which there is at most one; each callback carries the status of its read, which is the failure of its start-up, the failure that ended it, or RS_OK; at most one read is alive, and a worker goes by the configuration its Read was given |
| Lifecycle.NonBlockingIsAdmissible | src/nfc_reader/src/rs_nfc_reader.c:619-656 | With non-blocking reads only, every interleaving keeps reads apart, so that these theorems hold of all of them |
| Lifecycle.RefusedRead | src/nfc_reader/src/rs_nfc_reader.c:597-656 | A non-blocking Read that passes its checks is refused exactly while a worker is alive, when it changes nothing, or when no task can be created, which leaves the module free; accepted, it leaves a worker to start with a copy of its configuration and no stop requested; one that fails a check changes nothing |
| LifecycleRunner.ReaderModule.Read | src/nfc_reader/src/rs_nfc_reader.c:597-667 | The call's writes in order are one step of the model, including the roll-back when no task can be created |
| LifecycleRunner.ReaderModule.Stop | src/nfc_reader/src/rs_nfc_reader.c:669-692 | The call is one step, changes the stop flag only, and keeps the invariant |
| LifecycleRunner.ReaderModule.LoopHead | src/nfc_reader/src/rs_nfc_reader.c:314-320 | A turn begins exactly if no stop is requested at that moment and time is left by the configuration in force; otherwise the read closes with RS_OK |
| LifecycleRunner.ReaderModule.AttemptHead | src/nfc_reader/src/rs_nfc_reader.c:154-160 | An attempt waits for a card exactly if no stop is requested at that moment; otherwise the read closes with RS_OK |
| LifecycleRunner.ReaderModule.FireCallback | src/nfc_reader/src/rs_nfc_reader.c:539-543 | One callback with the read's status |
| LifecycleRunner.ReaderModule.Retire | src/nfc_reader/src/rs_nfc_reader.c:545-549 | The worker's last writes, or the return from a blocking read, free the module for the next one |
| LifecycleRunner.ReaderModule.RunSchedule | src/nfc_reader/src/rs_nfc_reader.c:531-692 | Any schedule of calls and steps takes the fields where the run of the model goes, and keeps the invariant if blocking reads are kept apart |
| StopRequests.StopAnswers | src/nfc_reader/src/rs_nfc_reader.c:669-692 | After every run: RS_ERR_DEPENDENCY if and only if no read is alive, RS_ERR_INTERNAL if and only if the one alive was asked to stop before, RS_OK otherwise; between two Reads at most one Stop returns RS_OK |
| StopRequests.StopSafety | src/nfc_reader/src/rs_nfc_reader.c:314-331 | Once Stop has returned RS_OK, the read it met begins no further turn and no further attempt whatever follows; caught before its start-up it ends with that failure or RS_OK; caught in the loop it ends RS_OK, or RS_ERR_INTERNAL exactly if the turn under way met a system error; caught in an attempt it ends RS_OK, or with the failure of that one if it was the last allowed; the request stands until the read is gone |
| StopRequests.StopCompletes | src/nfc_reader/src/rs_nfc_reader.c:531-550 | A worker asked to stop at the top of its loop is gone after four steps of its own, its one callback says RS_OK, and a new Read is accepted |
| StopRequests.StandsUntilRead | src/nfc_reader/src/rs_nfc_reader.c:658-692 | In every run, overlapping reads included, a request once made stands throughout if and only if no Read begins meanwhile |
| StopRequests.OverlapLosesStop | src/nfc_reader/src/rs_nfc_reader.c:658-666 | Why reads must not overlap: a blocking Read beside a worker withdraws a stop request already answered RS_OK, and the worker starts another turn |
| StopRequests.OverlapFromTheStart | src/nfc_reader/src/rs_nfc_reader.c:658-666 | A run from power-up in which that happens: after Stop has returned RS_OK a blocking Read comes in between and the worker makes its first turn |
| LoopInterleaving.InterleavedRunIsALoop | src/nfc_reader/src/rs_nfc_reader.c:302-468 | Whatever else goes on, a read in event mode makes the turns of the sequential loop on just what it met, under the configuration it was accepted with, and ends when and why that ends: what is proved of the loop holds in every interleaving |
| AttemptInterleaving.InterleavedRunIsARetry | src/nfc_reader/src/rs_nfc_reader.c:197-280 | Whatever else goes on, a read outside event mode makes the attempts of the sequential retried read on just what it met, under the configuration it was accepted with, and ends when that ends, with the same status |
| AttemptInterleaving.StopEndsTheAttempts | src/nfc_reader/src/rs_nfc_reader.c:145-192 | Once Stop has returned RS_OK to a read in an attempt, the one under way asks the adapter at most for the wait it is in, unless that is over already, and no other asks for anything |

## Left out

- The PTX SDK and its Type 3, 4 and 5 Tag components are not part of this model: their answers are parameters.
- CardInfoReader.ReadSdkNdef: takes an SDK component to report no more bytes than the cap it was given, so the cast of that length to 16 bits changes nothing; the code relies on it too.
- BlockingReadRunner.CloseAdapter: does not model the forgotten card registry, which no part of the reader module looks at.
- Blocking reads that overlap another read: nothing in the code guards against them, so the theorems over interleavings assume that the application keeps them apart, which `NonBlockingIsAdmissible` shows needs no care where all reads are non-blocking; `StandsUntilRead` and `OverlapLosesStop` say what happens otherwise.
- LED control, log output, and what the application's callbacks do; a callback is an entry in the trace.
- FreeRTOS beyond task notifications, the tick counter and task creation; `pdMS_TO_TICKS` is a parameter, so a timeout comes as a tick count.
- NULL arguments, and a read without a result pointer, which skips the NDEF read in single-shot mode.
- Configuration checks, as finite case splits: what they say is the `check` parameter of a Read.
- Card type, protocol choice and the byte positions of the UID for each technology: activation yields them; only the limit of ten UID bytes is modelled.
- The frames sent in the raw exchange, signal strength, read time, and temperature calibration.
- Peripheral bring-up is modelled by its outcome, not by what is left half open when a later step of it fails.
- ID bytes of a record, which the reader does not keep either.
