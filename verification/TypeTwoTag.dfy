/**
 * What the reader learns from a Type 2 Tag: the Capability Container in block 3
 * and an image of the data area, read sixteen bytes at a time from block 4 on.
 */
module TypeTwoTag {
  import opened Bytes

  const RX_BUF_SIZE: nat := 300
  const TX_BUF_SIZE: nat := 280
  const READ: byte := 0x30
  const NDEF_MAGIC: byte := 0xE1
  const CC_BLOCK: byte := 3
  const FIRST_BLOCK: byte := 4

  /** The outcome of one data exchange. */
  datatype Reply = Reply(ok: bool, data: seq<byte>)

  /** A card in the field, by its reply to the n-th exchange, whatever it is. */
  type Card = (nat, seq<byte>) -> Reply

  predicate Useful(r: Reply) {
    r.ok && |r.data| >= 4
  }

  /** The data-area image, read on from `block` at the n-th exchange with `got`
      already there and `cap` bytes wanted in all. */
  function ReadBlocks(card: Card, n: nat, block: byte, cap: nat, got: seq<byte>): (image: seq<byte>)
    requires |got| <= cap
    ensures got <= image && |image| <= cap
    decreases cap - |got|
  {
    if |got| >= cap then got
    else
      var r := card(n, [READ, block]);
      if !Useful(r) then got
      else
        var take := Min(Min(|r.data|, 16), cap - |got|);
        var got' := got + r.data[..take];
        if block + 4 > 0xFF then got' else ReadBlocks(card, n + 1, block + 4, cap, got')
  }

  lemma ReadBlocksEnd(card: Card, n: nat, block: byte, cap: nat, got: seq<byte>)
    requires |got| == cap || (|got| < cap && !Useful(card(n, [READ, block])))
    ensures ReadBlocks(card, n, block, cap, got) == got
  {
  }

  lemma ReadBlocksStep(card: Card, n: nat, block: byte, cap: nat, got: seq<byte>, take: nat)
    requires |got| < cap && Useful(card(n, [READ, block]))
    requires take == Min(Min(|card(n, [READ, block]).data|, 16), cap - |got|)
    ensures var got' := got + card(n, [READ, block]).data[..take];
            ReadBlocks(card, n, block, cap, got) ==
            if block + 4 > 0xFF then got' else ReadBlocks(card, n + 1, block + 4, cap, got')
  {
  }

  function BufferCap(dataArea: nat): (cap: nat)
    ensures 0 < cap <= TX_BUF_SIZE
  {
    if dataArea == 0 || dataArea > TX_BUF_SIZE then TX_BUF_SIZE else dataArea
  }

  datatype Contents = Unformatted | Formatted(dataArea: nat, writeable: bool, image: seq<byte>)

  function ReadContents(card: Card): Contents {
    var cc := card(0, [READ, CC_BLOCK]);
    if !Useful(cc) || cc.data[0] != NDEF_MAGIC then Unformatted
    else
      var dataArea := cc.data[2] as int * 8;
      Formatted(dataArea, cc.data[3] % 16 == 0, ReadBlocks(card, 1, FIRST_BLOCK, BufferCap(dataArea), []))
  }

  // ----- The image is the card's memory -----------------------------------

  /** Every useful reply to READ carries the sixteen bytes of `mem` from that
      block on, or more; the card may fail to reply at any time. */
  ghost predicate Faithful(card: Card, mem: seq<byte>) {
    forall n: nat, block: byte ::
      var r := card(n, [0x30, block]);
      Useful(r) ==> |r.data| >= 16 && 4 * block + 16 <= |mem| && r.data[..16] == mem[4 * block..4 * block + 16]
  }

  /** ... and it always replies where all sixteen bytes exist. */
  ghost predicate Serves(card: Card, mem: seq<byte>) {
    && Faithful(card, mem)
    && forall n: nat, block: byte :: 4 * block + 16 <= |mem| ==> Useful(card(n, [0x30, block]))
  }

  /** How many of the block reads got a useful reply. */
  function ReadCount(card: Card, n: nat, block: byte, cap: nat, got: nat): (k: nat)
    requires got <= cap
    ensures 4 * k <= 0x100 - block + 3
    decreases cap - got
  {
    if got >= cap then 0
    else
      var r := card(n, [READ, block]);
      if !Useful(r) then 0
      else
        var take := Min(Min(|r.data|, 16), cap - got);
        if block + 4 > 0xFF then 1 else 1 + ReadCount(card, n + 1, block + 4, cap, got + take)
  }

  /** The n-th exchange, a READ of `block`, brings at least one block. */
  predicate Answers(card: Card, n: nat, block: byte) {
    card(n, [0x30, block]).ok && |card(n, [0x30, block]).data| >= 4
  }

  /** At most sixteen bytes of each of `k` replies to successive READs. */
  function Replies(card: Card, n: nat, block: nat, k: nat): seq<byte>
    decreases k
  {
    if k == 0 || block > 0xFF then []
    else
      var data := card(n, [0x30, block]).data;
      data[..Min(|data|, 16)] + Replies(card, n + 1, block + 4, k - 1)
  }

  /** One useful reply, in all three accounts of the loop. */
  lemma UsefulReply(card: Card, n: nat, block: byte, cap: nat, got: seq<byte>)
    requires |got| < cap && Useful(card(n, [READ, block]))
    ensures var data := card(n, [READ, block]).data;
            var whole, take := data[..Min(|data|, 16)], Min(Min(|data|, 16), cap - |got|);
            var got' := got + data[..take];
            var k := ReadCount(card, n, block, cap, |got|);
            && whole[..take] == data[..take] && k > 0
            && Replies(card, n, block, k) == whole + Replies(card, n + 1, block + 4, k - 1)
            && if block + 4 > 0xFF then k == 1 && ReadBlocks(card, n, block, cap, got) == got'
               else
                 && k == 1 + ReadCount(card, n + 1, block + 4, cap, |got'|)
                 && ReadBlocks(card, n, block, cap, got) == ReadBlocks(card, n + 1, block + 4, cap, got')
  {
  }

  lemma NoReply(card: Card, n: nat, block: byte, cap: nat, got: seq<byte>)
    requires |got| == cap || (|got| < cap && !Useful(card(n, [READ, block])))
    ensures ReadCount(card, n, block, cap, |got|) == 0 && ReadBlocks(card, n, block, cap, got) == got
    ensures Replies(card, n, block, 0) == []
  {
  }

  lemma CutAfter(got: seq<byte>, whole: seq<byte>, rest: seq<byte>, cap: nat, take: nat)
    requires |got| < cap && take == Min(|whole|, cap - |got|)
    ensures var all, all' := got + (whole + rest), got + whole[..take] + rest;
            && (take == |whole| ==> all == all')
            && (take < |whole| ==> all[..Min(cap, |all|)] == got + whole[..take])
  {
  }

  lemma {:induction false} ImageOfRepliesFrom(card: Card, n: nat, block: byte, cap: nat, got: seq<byte>)
    requires |got| <= cap
    ensures var k := ReadCount(card, n, block, cap, |got|);
            var image, all := ReadBlocks(card, n, block, cap, got), got + Replies(card, n, block, k);
            && image == all[..Min(cap, |all|)]
            && (|image| < cap && block + 4 * k <= 0xFF ==> !Answers(card, n + k, block + 4 * k))
    decreases cap - |got|
  {
    hide ReadBlocks, ReadCount, Replies;
    if |got| < cap && Useful(card(n, [READ, block])) {
      UsefulReply(card, n, block, cap, got);
      var data := card(n, [READ, block]).data;
      assert Answers(card, n, block);
      hide Useful, Answers;
      var whole := data[..Min(|data|, 16)];
      var take := Min(|whole|, cap - |got|);
      var got' := got + data[..take];
      var rest := Replies(card, n + 1, block + 4, ReadCount(card, n, block, cap, |got|) - 1);
      CutAfter(got, whole, rest, cap, take);
      if block + 4 > 0xFF {
        NothingPast(card, n + 1, block + 4);
      } else {
        ImageOfRepliesFrom(card, n + 1, block + 4, cap, got');
        if take < |whole| {
          NoReply(card, n + 1, block + 4, cap, got');
        }
      }
    } else {
      NoReply(card, n, block, cap, got);
      assert got + [] == got;
    }
  }

  lemma {:induction false} AllAnswered(card: Card, n: nat, block: byte, cap: nat, got: nat, j: nat)
    requires got <= cap && j < ReadCount(card, n, block, cap, got)
    ensures block + 4 * j <= 0xFF && Answers(card, n + j, block + 4 * j)
    decreases j
  {
    if j > 0 {
      var take := Min(Min(|card(n, [0x30, block]).data|, 16), cap - got);
      AllAnswered(card, n + 1, block + 4, cap, got + take, j - 1);
    }
  }

  lemma NothingPast(card: Card, n: nat, block: nat)
    requires block > 0xFF
    ensures Replies(card, n, block, 0) == []
  {
  }

  /** For replies of any length the image is the first bytes of the replies one
      after the other, up to the cap; it falls short of that only where the card
      failed to reply or the block numbers ran out. */
  lemma ImageOfReplies(card: Card, cap: nat)
    ensures var k := ReadCount(card, 1, FIRST_BLOCK, cap, 0);
            var image, all := ReadBlocks(card, 1, FIRST_BLOCK, cap, []), Replies(card, 1, FIRST_BLOCK, k);
            && image == all[..Min(cap, |all|)]
            && (forall j :: 0 <= j < k ==> 4 + 4 * j <= 0xFF && Answers(card, 1 + j, 4 + 4 * j))
            && (|image| < cap && 4 + 4 * k <= 0xFF ==> !Answers(card, 1 + k, 4 + 4 * k))
  {
    var all := Replies(card, 1, FIRST_BLOCK, ReadCount(card, 1, FIRST_BLOCK, cap, 0));
    assert [] + all == all;
    ImageOfRepliesFrom(card, 1, FIRST_BLOCK, cap, []);
    forall j: nat | j < ReadCount(card, 1, FIRST_BLOCK, cap, 0)
      ensures 4 + 4 * j <= 0xFF && Answers(card, 1 + j, 4 + 4 * j)
    {
      AllAnswered(card, 1, FIRST_BLOCK, cap, 0, j);
    }
  }

  lemma {:induction false} ImageFrom(card: Card, mem: seq<byte>, n: nat, block: byte, cap: nat, got: seq<byte>)
    requires Faithful(card, mem) && |got| <= cap
    requires 16 + |got| <= |mem| && got == mem[16..16 + |got|]
    requires |got| == cap || (block >= 4 && |got| == 4 * (block - 4))
    ensures var image := ReadBlocks(card, n, block, cap, got);
            && 16 + |image| <= |mem| && image == mem[16..16 + |image|]
            && |image| == Min(cap, |got| + 16 * ReadCount(card, n, block, cap, |got|))
    decreases cap - |got|
  {
    hide ReadBlocks, ReadCount, Replies;
    var r := card(n, [READ, block]);
    if |got| == cap || !Useful(r) {
      NoReply(card, n, block, cap, got);
    } else {
      UsefulReply(card, n, block, cap, got);
      var take := Min(16, cap - |got|);
      var got' := got + r.data[..take];
      var from := 4 * block;
      assert r.data[..take] == mem[from..from + take] by {
        assert r.data[..16] == mem[from..from + 16];
        SliceOfSlice(r.data, 0, 16, take);
        SliceOfSlice(mem, from, from + 16, take);
      }
      assert got' == mem[16..16 + |got'|];
      if block + 4 <= 0xFF {
        ImageFrom(card, mem, n + 1, block + 4, cap, got');
      }
    }
  }

  /** With full READ replies the image is the card's memory from byte 16 on, and
      as long as the useful replies and the cap make it. */
  lemma ImageOfMemory(card: Card, mem: seq<byte>, cap: nat)
    requires Faithful(card, mem) && |mem| >= 16
    ensures var image := ReadBlocks(card, 1, FIRST_BLOCK, cap, []);
            && 16 + |image| <= |mem| && image == mem[16..16 + |image|]
            && |image| == Min(cap, 16 * ReadCount(card, 1, FIRST_BLOCK, cap, 0))
  {
    ImageFrom(card, mem, 1, FIRST_BLOCK, cap, []);
  }

  lemma WholeReplies(left: nat)
    ensures left < 16 ==> left / 16 == 0
    ensures left >= 16 ==> left / 16 == 1 + (left - 16) / 16
  {
  }

  lemma {:induction false} ServedCount(card: Card, mem: seq<byte>, n: nat, block: byte, cap: nat, got: nat)
    requires Serves(card, mem) && got <= cap <= TX_BUF_SIZE
    requires |mem| >= 16 + got
    requires got == cap || (block >= 4 && got == 4 * (block - 4))
    ensures Min(cap, got + 16 * ReadCount(card, n, block, cap, got)) == Min(cap, got + (|mem| - 16 - got) / 16 * 16)
    decreases cap - got
  {
    WholeReplies(|mem| - 16 - got);
    if got < cap {
      var r := card(n, [READ, block]);
      if Useful(r) {
        assert 4 * block + 16 <= |mem|;
        var take := Min(16, cap - got);
        if take == 16 {
          ServedCount(card, mem, n + 1, block + 4, cap, got + 16);
        } else {
          assert (|mem| - 16 - got) / 16 >= 1;
        }
      } else {
        assert (|mem| - 16 - got) / 16 == 0;
      }
    }
  }

  /** A card that always replies gives the whole of its data area, up to the cap
      and in whole replies. */
  lemma ServedImage(card: Card, mem: seq<byte>, cap: nat)
    requires Serves(card, mem) && |mem| >= 16 && cap <= TX_BUF_SIZE
    ensures var image := ReadBlocks(card, 1, FIRST_BLOCK, cap, []);
            && |image| == Min(cap, (|mem| - 16) / 16 * 16)
            && image == mem[16..16 + |image|]
  {
    ImageOfMemory(card, mem, cap);
    ServedCount(card, mem, 1, FIRST_BLOCK, cap, 0);
  }

  /** Why full replies matter: the block number moves on by four whatever the
      reply's length, so a card that answers READ with one correct block gives
      blocks 4 and 8 as neighbours. */
  lemma ShortRepliesSkipMemory(card: Card, mem: seq<byte>)
    requires |mem| >= 36
    requires forall n: nat, block: byte :: 4 * block + 4 <= |mem| ==>
               card(n, [0x30, block]) == Reply(true, mem[4 * block..4 * block + 4])
    ensures ReadBlocks(card, 1, FIRST_BLOCK, 8, []) == mem[16..20] + mem[32..36]
    ensures ReadBlocks(card, 1, FIRST_BLOCK, 8, []) == mem[16..24] <==> mem[20..24] == mem[32..36]
  {
    var first := mem[16..20];
    assert card(1, [0x30, 4]) == Reply(true, first);
    assert card(2, [0x30, 8]) == Reply(true, mem[32..36]);
    assert [] + first[..4] == first;
    assert ReadBlocks(card, 1, FIRST_BLOCK, 8, []) == ReadBlocks(card, 2, 8, 8, first);
    assert ReadBlocks(card, 2, 8, 8, first) == ReadBlocks(card, 3, 12, 8, first + mem[32..36][..4]);
    assert mem[16..24] == first + mem[20..24];
    assert (first + mem[20..24])[4..] == mem[20..24];
    assert (first + mem[32..36])[4..] == mem[32..36];
  }
}
