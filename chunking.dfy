/**
  `format_articles_for_telegram`: the selected articles become one or more Telegram messages
  of Markdown text. A message opens with a header naming the board and collects numbered
  entries until the next entry would push it past Telegram's 4096-character limit; the next
  message opens with a "continued" header. Lengths are counted in code points, as Python's
  `len` counts them.
*/
module Chunking {
  import Seqs
  import Text
  import opened Selection

  const MaxLength: nat := 4096

  function Header(board: string, count: nat): string {
    "📋 **" + board + "** 看板最新文章 (" + Text.NatToString(count) + " 篇)\n\n"
  }

  function ContinuedHeader(board: string): string {
    "📋 **" + board + "** 看板最新文章 (續)\n\n"
  }

  function NoArticlesMessage(board: string): string {
    "📋 **" + board + "** 看板目前沒有符合條件的文章"
  }

  /** The text of the `number`-th entry: title, author and date, link. */
  function EntryText(number: nat, a: Article): string {
    Text.NatToString(number) + ". **" + a.title + "**\n"
    + "   👤 " + a.author + " | 📅 " + a.date + "\n"
    + "   🔗 " + a.link + "\n\n"
  }

  /** An entry shows the article's title, author, date and link. */
  lemma EntryTextNamesArticle(number: nat, a: Article)
    ensures Text.Contains(EntryText(number, a), a.title)
    ensures Text.Contains(EntryText(number, a), a.author)
    ensures Text.Contains(EntryText(number, a), a.date)
    ensures Text.Contains(EntryText(number, a), a.link)
  {
    var p1 := Text.NatToString(number) + ". **";
    var p3 := p1 + a.title + "**\n";
    var p4 := p3 + "   👤 ";
    var p6 := p4 + a.author + " | 📅 ";
    var p8 := p6 + a.date + "\n";
    var p9 := p8 + "   🔗 ";
    var t := p9 + a.link + "\n\n";
    assert t == EntryText(number, a);
    Text.ContainsMiddle(p1, a.title, "**\n");
    Text.ContainsExtended(p3, a.title, "   👤 ");
    Text.ContainsMiddle(p4, a.author, " | 📅 ");
    Text.ContainsExtended(p4, a.title, a.author);
    Text.ContainsExtended(p4 + a.author, a.title, " | 📅 ");
    Text.ContainsMiddle(p6, a.date, "\n");
    Text.ContainsExtended(p6, a.title, a.date);
    Text.ContainsExtended(p6, a.author, a.date);
    Text.ContainsExtended(p6 + a.date, a.title, "\n");
    Text.ContainsExtended(p6 + a.date, a.author, "\n");
    Text.ContainsExtended(p8, a.title, "   🔗 ");
    Text.ContainsExtended(p8, a.author, "   🔗 ");
    Text.ContainsExtended(p8, a.date, "   🔗 ");
    Text.ContainsMiddle(p9, a.link, "\n\n");
    Text.ContainsExtended(p9, a.title, a.link);
    Text.ContainsExtended(p9, a.author, a.link);
    Text.ContainsExtended(p9, a.date, a.link);
    Text.ContainsExtended(p9 + a.link, a.title, "\n\n");
    Text.ContainsExtended(p9 + a.link, a.author, "\n\n");
    Text.ContainsExtended(p9 + a.link, a.date, "\n\n");
  }

  /** The entry texts of the articles, numbered from 1. */
  function EntryTexts(articles: seq<Article>): (texts: seq<string>)
    ensures |texts| == |articles|
    ensures forall i :: 0 <= i < |articles| ==> texts[i] == EntryText(i + 1, articles[i])
  {
    seq(|articles|, i requires 0 <= i < |articles| => EntryText(i + 1, articles[i]))
  }

  /** A message under construction: its header and the entry texts appended to it. */
  datatype Block = Block(header: string, entries: seq<string>)

  function Concat(texts: seq<string>): string {
    if texts == [] then [] else Concat(texts[..|texts| - 1]) + texts[|texts| - 1]
  }

  function BlockText(b: Block): string {
    b.header + Concat(b.entries)
  }

  function Last(bs: seq<Block>): Block
    requires bs != []
  {
    bs[|bs| - 1]
  }

  /** All entry texts of the blocks, in order. */
  function Flatten(bs: seq<Block>): seq<string> {
    if bs == [] then [] else Flatten(bs[..|bs| - 1]) + Last(bs).entries
  }

  /**
    Packing one more text: the last block takes it if the two fit within the limit together;
    otherwise a new block, with the continued header, starts with it.
  */
  function PackStep(bs: seq<Block>, cont: string, t: string): (next: seq<Block>)
    requires bs != []
    ensures |next| == |bs| || |next| == |bs| + 1
  {
    var last := Last(bs);
    if |BlockText(last)| + |t| > MaxLength then bs + [Block(cont, [t])]
    else bs[..|bs| - 1] + [Block(last.header, last.entries + [t])]
  }

  /** Packing the remaining entry texts one after another. */
  function PackFrom(texts: seq<string>, cont: string, bs: seq<Block>): seq<Block>
    requires bs != []
    decreases |texts|
  {
    if texts == [] then bs else PackFrom(texts[1..], cont, PackStep(bs, cont, texts[0]))
  }

  /** The blocks of a list of articles, before white space is trimmed. */
  function Blocks(articles: seq<Article>, board: string): seq<Block> {
    PackFrom(EntryTexts(articles), ContinuedHeader(board), [Block(Header(board, |articles|), [])])
  }


  /** `messages.append(current.strip())`, unless the stripped text is empty. */
  function Push(messages: seq<string>, current: string): seq<string> {
    var text := Text.Strip(current);
    if text != [] then messages + [text] else messages
  }

  /** The messages of a list of blocks: each block's text, stripped, unless it is white space only. */
  function MessagesOf(bs: seq<Block>): seq<string> {
    if bs == [] then [] else Push(MessagesOf(bs[..|bs| - 1]), BlockText(Last(bs)))
  }

  /**
    The loop of `format_articles_for_telegram` over the remaining entry texts, with the
    messages finished so far and the message being built.
  */
  function FormatFrom(texts: seq<string>, cont: string, messages: seq<string>, current: string): seq<string>
    decreases |texts|
  {
    if texts == [] then Push(messages, current)
    else if |current + texts[0]| > MaxLength then
      FormatFrom(texts[1..], cont, Push(messages, current), cont + texts[0])
    else
      FormatFrom(texts[1..], cont, messages, current + texts[0])
  }

  /** The messages `format_articles_for_telegram` returns. */
  function Messages(articles: seq<Article>, board: string): seq<string> {
    if articles == [] then [NoArticlesMessage(board)]
    else FormatFrom(EntryTexts(articles), ContinuedHeader(board), [], Header(board, |articles|))
  }

  // The loop, proved against `Messages`.

  lemma FormatStep(texts: seq<string>, i: nat, cont: string, messages: seq<string>, current: string)
    requires i < |texts|
    ensures FormatFrom(texts[i..], cont, messages, current) ==
      if |current + texts[i]| > MaxLength then
        FormatFrom(texts[i + 1..], cont, Push(messages, current), cont + texts[i])
      else
        FormatFrom(texts[i + 1..], cont, messages, current + texts[i])
  {
    assert texts[i..][0] == texts[i] && texts[i..][1..] == texts[i + 1..];
  }

  /** `format_articles_for_telegram`. */
  method FormatArticles(articles: seq<Article>, board: string) returns (messages: seq<string>)
    ensures messages == Messages(articles, board)
  {
    if articles == [] {
      return [NoArticlesMessage(board)];
    }
    messages := [];
    var current := Header(board, |articles|);
    ghost var texts := EntryTexts(articles);
    ghost var cont := ContinuedHeader(board);
    ghost var spec := FormatFrom(texts, cont, [], current);
    assert texts[0..] == texts;
    for i := 0 to |articles|
      invariant FormatFrom(texts[i..], cont, messages, current) == spec
    {
      var text := EntryText(i + 1, articles[i]);
      FormatStep(texts, i, cont, messages, current);
      if |current + text| > MaxLength {
        var trimmed := Text.Strip(current);
        if trimmed != [] {
          messages := messages + [trimmed];
        }
        current := ContinuedHeader(board) + text;
      } else {
        current := current + text;
      }
    }
    var trimmed := Text.Strip(current);
    if trimmed != [] {
      messages := messages + [trimmed];
    }
    assert texts[|articles|..] == [];
  }

  // The messages are the blocks of a greedy packing.

  /** Appending a text to a block appends it to the block's text. */
  lemma BlockTextSnoc(b: Block, t: string)
    ensures BlockText(Block(b.header, b.entries + [t])) == BlockText(b) + t
  {
    assert (b.entries + [t])[..|b.entries|] == b.entries;
    assert b.header + (Concat(b.entries) + t) == (b.header + Concat(b.entries)) + t;
  }

  lemma BlockTextSingle(header: string, t: string)
    ensures BlockText(Block(header, [t])) == header + t
  {
    BlockTextSnoc(Block(header, []), t);
  }

  /** Building the messages text by text is packing the texts into blocks. */
  lemma {:induction false} FormatIsPacking(texts: seq<string>, cont: string, bs: seq<Block>)
    requires bs != []
    ensures FormatFrom(texts, cont, MessagesOf(bs[..|bs| - 1]), BlockText(Last(bs))) ==
            MessagesOf(PackFrom(texts, cont, bs))
    decreases |texts|
  {
    var front, last := bs[..|bs| - 1], Last(bs);
    if texts != [] {
      var t := texts[0];
      if |BlockText(last)| + |t| > MaxLength {
        var grown := bs + [Block(cont, [t])];
        assert grown[..|grown| - 1] == bs;
        BlockTextSingle(cont, t);
        FormatIsPacking(texts[1..], cont, grown);
      } else {
        var grown := front + [Block(last.header, last.entries + [t])];
        assert grown[..|grown| - 1] == front;
        BlockTextSnoc(last, t);
        FormatIsPacking(texts[1..], cont, grown);
      }
    }
  }

  /** Block `i` is well packed: */
  ghost predicate PackedAt(bs: seq<Block>, first: string, cont: string, i: nat)
    requires i < |bs|
  {
    // the first block has the main header, every later one the continued header and an entry;
    && (if i == 0 then bs[i].header == first else bs[i].header == cont && bs[i].entries != [])
    // a block longer than the limit holds only what it started with;
    && (|BlockText(bs[i])| > MaxLength ==> |bs[i].entries| <= (if i == 0 then 0 else 1))
    // a block ends only because the next entry would not have fitted in it.
    && (i + 1 < |bs| ==> bs[i + 1].entries != [] && |BlockText(bs[i])| + |bs[i + 1].entries[0]| > MaxLength)
  }

  /** The blocks are well packed, each at its position. */
  ghost predicate Packed(bs: seq<Block>, first: string, cont: string) {
    bs != [] && forall i :: 0 <= i < |bs| ==> PackedAt(bs, first, cont, i)
  }

  /** Flattening after appending a block appends that block's entries. */
  lemma FlattenSnoc(bs: seq<Block>, b: Block)
    ensures Flatten(bs + [b]) == Flatten(bs) + b.entries
  {
    assert (bs + [b])[..|bs|] == bs;
  }

  /** Opening a new block for a text that does not fit in the last one keeps the packing. */
  lemma PackNewBlock(bs: seq<Block>, first: string, cont: string, t: string)
    requires Packed(bs, first, cont)
    requires |BlockText(Last(bs))| + |t| > MaxLength
    ensures Packed(bs + [Block(cont, [t])], first, cont)
  {
    var grown := bs + [Block(cont, [t])];
    BlockTextSingle(cont, t);
    forall i | 0 <= i < |grown|
      ensures PackedAt(grown, first, cont, i)
    {
      if i < |bs| {
        assert PackedAt(bs, first, cont, i);
        assert grown[i] == bs[i];
        if i + 1 < |bs| {
          assert grown[i + 1] == bs[i + 1];
        }
      }
    }
  }

  /** Adding a text that fits to the last block keeps the packing. */
  lemma PackAppend(bs: seq<Block>, first: string, cont: string, t: string)
    requires Packed(bs, first, cont)
    requires |BlockText(Last(bs))| + |t| <= MaxLength
    ensures var last := Last(bs);
      Packed(bs[..|bs| - 1] + [Block(last.header, last.entries + [t])], first, cont)
  {
    var last := Last(bs);
    var front := bs[..|bs| - 1];
    var grown := front + [Block(last.header, last.entries + [t])];
    BlockTextSnoc(last, t);
    forall i | 0 <= i < |grown|
      ensures PackedAt(grown, first, cont, i)
    {
      assert PackedAt(bs, first, cont, i);
      if i < |front| {
        assert grown[i] == bs[i];
        if i + 1 < |front| {
          assert grown[i + 1] == bs[i + 1];
        } else {
          assert grown[i + 1].entries[0] == last.entries[0];
        }
      }
    }
  }

  /** One packing step keeps the packing. */
  lemma PackStepPacked(bs: seq<Block>, first: string, cont: string, t: string)
    requires Packed(bs, first, cont)
    ensures Packed(PackStep(bs, cont, t), first, cont)
  {
    if |BlockText(Last(bs))| + |t| > MaxLength {
      PackNewBlock(bs, first, cont, t);
    } else {
      PackAppend(bs, first, cont, t);
    }
  }

  /** One packing step appends the text to the flattened entries. */
  lemma PackStepFlatten(bs: seq<Block>, cont: string, t: string)
    requires bs != []
    ensures Flatten(PackStep(bs, cont, t)) == Flatten(bs) + [t]
  {
    var last := Last(bs);
    if |BlockText(last)| + |t| > MaxLength {
      FlattenSnoc(bs, Block(cont, [t]));
    } else {
      var front := bs[..|bs| - 1];
      var grown := front + [Block(last.header, last.entries + [t])];
      assert grown[..|grown| - 1] == front;
    }
  }

  lemma {:induction false} PackFromPacked(texts: seq<string>, first: string, cont: string, bs: seq<Block>)
    requires Packed(bs, first, cont)
    ensures Packed(PackFrom(texts, cont, bs), first, cont)
    decreases |texts|
  {
    if texts != [] {
      PackStepPacked(bs, first, cont, texts[0]);
      PackFromPacked(texts[1..], first, cont, PackStep(bs, cont, texts[0]));
    }
  }

  lemma {:induction false} PackFromFlatten(texts: seq<string>, cont: string, bs: seq<Block>)
    requires bs != []
    ensures Flatten(PackFrom(texts, cont, bs)) == Flatten(bs) + texts
    decreases |texts|
  {
    if texts == [] {
      assert Flatten(bs) + texts == Flatten(bs);
    } else {
      var t, rest := texts[0], texts[1..];
      var next := PackStep(bs, cont, t);
      PackStepFlatten(bs, cont, t);
      PackFromFlatten(rest, cont, next);
      Seqs.AppendThrough(Flatten(bs), t, rest, texts, Flatten(next), Flatten(PackFrom(texts, cont, bs)));
    }
  }

  /** The blocks of a list of articles are well packed and hold every entry text once, in order. */
  lemma BlocksPacked(articles: seq<Article>, board: string)
    ensures Packed(Blocks(articles, board), Header(board, |articles|), ContinuedHeader(board))
    ensures Flatten(Blocks(articles, board)) == EntryTexts(articles)
  {
    var start := [Block(Header(board, |articles|), [])];
    assert start[..0] == [];
    assert Flatten(start) == [];
    PackFromPacked(EntryTexts(articles), Header(board, |articles|), ContinuedHeader(board), start);
    PackFromFlatten(EntryTexts(articles), ContinuedHeader(board), start);
  }

  /** A text that starts with a visible character is never dropped. */
  lemma PushVisible(messages: seq<string>, s: string)
    requires s != [] && !Text.IsSpace(s[0])
    ensures |Push(messages, s)| == |messages| + 1
    ensures Push(messages, s)[|messages|] == Text.Strip(s)
    ensures forall i :: 0 <= i < |messages| ==> Push(messages, s)[i] == messages[i]
  {
    assert !(forall i :: 0 <= i < |s| ==> Text.IsSpace(s[i]));
  }

  predicate Visible(s: string) {
    s != [] && !Text.IsSpace(s[0])
  }

  /** Blocks whose headers start with a visible character give one message each. */
  lemma {:induction false} MessagesOfVisible(bs: seq<Block>)
    requires forall i :: 0 <= i < |bs| ==> Visible(bs[i].header)
    ensures |MessagesOf(bs)| == |bs|
    ensures forall i :: 0 <= i < |bs| ==> MessagesOf(bs)[i] == Text.Strip(BlockText(bs[i]))
  {
    if bs != [] {
      var front := bs[..|bs| - 1];
      assert forall i :: 0 <= i < |front| ==> front[i] == bs[i];
      MessagesOfVisible(front);
      MessagesSnoc(front, Last(bs), MessagesOf(front), MessagesOf(bs), bs);
    }
  }

  /** One more block with a visible header adds its stripped text as the next message. */
  lemma MessagesSnoc(front: seq<Block>, b: Block, ms: seq<string>, all: seq<string>, bs: seq<Block>)
    requires |bs| == |front| + 1 && bs[|front|] == b && forall i :: 0 <= i < |front| ==> bs[i] == front[i]
    requires Visible(b.header) && all == Push(ms, BlockText(b))
    requires |ms| == |front| && forall i :: 0 <= i < |front| ==> ms[i] == Text.Strip(BlockText(front[i]))
    ensures |all| == |bs|
    ensures forall i :: 0 <= i < |bs| ==> all[i] == Text.Strip(BlockText(bs[i]))
  {
    var s := BlockText(b);
    assert s[0] == b.header[0];
    PushVisible(ms, s);
    forall i | 0 <= i < |bs|
      ensures all[i] == Text.Strip(BlockText(bs[i]))
    {
      if i == |front| {
        assert all[i] == Text.Strip(s);
      }
    }
  }

  /** Every header of a well packed list of blocks is one of the two headers. */
  lemma PackedHeadersVisible(bs: seq<Block>, first: string, cont: string)
    requires Packed(bs, first, cont) && Visible(first) && Visible(cont)
    ensures forall i :: 0 <= i < |bs| ==> Visible(bs[i].header)
  {
    forall i | 0 <= i < |bs|
      ensures Visible(bs[i].header)
    {
      assert PackedAt(bs, first, cont, i);
    }
  }

  /** The message sent when nothing matched names the board. */
  lemma NoArticlesMessageNamesBoard(board: string)
    ensures Text.Contains(NoArticlesMessage(board), board)
  {
    Text.ContainsMiddle("📋 **", board, "** 看板目前沒有符合條件的文章");
  }

  /**
    `format_articles_for_telegram`: with no articles, one message saying so. Otherwise one
    message per block of the greedy packing of the numbered entry texts, each the block's text
    stripped; the first opens with the header that counts the articles, the others with the
    continued header. No message is empty.
  */
  lemma MessagesAreBlocks(articles: seq<Article>, board: string)
    ensures articles == [] ==> Messages(articles, board) == [NoArticlesMessage(board)]
    ensures articles != [] ==>
      var bs := Blocks(articles, board);
      && Packed(bs, Header(board, |articles|), ContinuedHeader(board))
      && Flatten(bs) == EntryTexts(articles)
      && |Messages(articles, board)| == |bs|
      && (forall i :: 0 <= i < |bs| ==> Messages(articles, board)[i] == Text.Strip(BlockText(bs[i])))
    ensures forall i :: 0 <= i < |Messages(articles, board)| ==> Messages(articles, board)[i] != []
  {
    if articles != [] {
      MessagesOfBlocks(articles, board);
      BlocksPacked(articles, board);
      BlockHeadersVisible(articles, board);
      var bs := Blocks(articles, board);
      MessagesOfVisible(bs);
      VisibleBlocksNonEmpty(bs);
    }
  }

  /** With articles to report, the formatting loop emits the messages of the packed blocks. */
  lemma MessagesOfBlocks(articles: seq<Article>, board: string)
    requires articles != []
    ensures Messages(articles, board) == MessagesOf(Blocks(articles, board))
  {
    var header := Header(board, |articles|);
    var start := [Block(header, [])];
    assert start[..0] == [];
    assert BlockText(Last(start)) == header + [] == header;
    FormatIsPacking(EntryTexts(articles), ContinuedHeader(board), start);
  }

  /** Both headers start with the clipboard sign, so every block's header is visible. */
  lemma BlockHeadersVisible(articles: seq<Article>, board: string)
    ensures forall i :: 0 <= i < |Blocks(articles, board)| ==> Visible(Blocks(articles, board)[i].header)
  {
    BlocksPacked(articles, board);
    assert Visible(Header(board, |articles|)) by {
      assert Header(board, |articles|)[0] == '📋';
    }
    assert Visible(ContinuedHeader(board)) by {
      assert ContinuedHeader(board)[0] == '📋';
    }
    PackedHeadersVisible(Blocks(articles, board), Header(board, |articles|), ContinuedHeader(board));
  }

  /** A block whose header starts with a visible character strips to a non-empty message. */
  lemma VisibleBlocksNonEmpty(bs: seq<Block>)
    requires forall i :: 0 <= i < |bs| ==> Visible(bs[i].header)
    ensures forall i :: 0 <= i < |bs| ==> Text.Strip(BlockText(bs[i])) != []
  {
    forall i | 0 <= i < |bs|
      ensures Text.Strip(BlockText(bs[i])) != []
    {
      assert BlockText(bs[i])[0] == bs[i].header[0];
    }
  }

  /** Every entry of every block is among the flattened texts. */
  lemma {:induction false} FlattenHas(bs: seq<Block>, i: nat, j: nat)
    requires i < |bs| && j < |bs[i].entries|
    ensures bs[i].entries[j] in Flatten(bs)
  {
    var front := bs[..|bs| - 1];
    if i < |bs| - 1 {
      assert bs[i] == front[i];
      FlattenHas(front, i, j);
    }
  }

  /**
    Every message fits Telegram's limit when the header, and the continued header with any
    single entry, do: only a lone entry too long for a message of its own makes one overflow.
  */
  lemma MessagesFit(articles: seq<Article>, board: string)
    requires |Header(board, |articles|)| <= MaxLength
    requires forall k :: 0 <= k < |articles| ==>
      |ContinuedHeader(board) + EntryText(k + 1, articles[k])| <= MaxLength
    ensures forall i :: 0 <= i < |Messages(articles, board)| ==> |Messages(articles, board)[i]| <= MaxLength
  {
    MessagesAreBlocks(articles, board);
    if articles != [] {
      var bs := Blocks(articles, board);
      var texts := EntryTexts(articles);
      var cont := ContinuedHeader(board);
      assert forall k :: 0 <= k < |texts| ==> |cont + texts[k]| <= MaxLength;
      BlocksFit(bs, Header(board, |articles|), cont, texts);
      var ms := Messages(articles, board);
      assert forall i :: 0 <= i < |ms| ==> ms[i] == Text.Strip(BlockText(bs[i]));
    }
  }

  /** Packed blocks fit when the first header does and the continued header with any one text does. */
  lemma BlocksFit(bs: seq<Block>, first: string, cont: string, texts: seq<string>)
    requires Packed(bs, first, cont) && Flatten(bs) == texts && |first| <= MaxLength
    requires forall k :: 0 <= k < |texts| ==> |cont + texts[k]| <= MaxLength
    ensures forall i :: 0 <= i < |bs| ==> |BlockText(bs[i])| <= MaxLength
  {
    forall i | 0 <= i < |bs|
      ensures |BlockText(bs[i])| <= MaxLength
    {
      if i > 0 && |bs[i].entries| == 1 {
        FlattenHas(bs, i, 0);
      }
      PackedBlockFits(bs, first, cont, i);
    }
  }

  /**
    A packed block fits when the first header does and, for a later block holding a single entry,
    the continued header with that entry does.
  */
  lemma PackedBlockFits(bs: seq<Block>, first: string, cont: string, i: nat)
    requires Packed(bs, first, cont) && i < |bs| && |first| <= MaxLength
    requires i > 0 && |bs[i].entries| == 1 ==> |cont + bs[i].entries[0]| <= MaxLength
    ensures |BlockText(bs[i])| <= MaxLength
  {
    assert PackedAt(bs, first, cont, i);
    var b := bs[i];
    if i == 0 && b.entries == [] {
      assert BlockText(b) == b.header + [];
    } else if i > 0 && |b.entries| == 1 {
      assert b == Block(cont, [b.entries[0]]);
      BlockTextSingle(cont, b.entries[0]);
    }
  }
}
