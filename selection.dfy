/**
  Article selection: the filter-and-budget loop of `scrape_ptt_articles` over the entries of a
  board's listing page, already parsed. Fetching the page (and the age-consent step) is not
  part of this model; a page that could not be fetched or parsed is `None`.
*/
module Selection {
  import opened Wrappers
  import Text

  const PttOrigin: string := "https://www.ptt.cc"
  const Unknown: string := "Unknown"

  /** The `div.title` cell of a listing entry. */
  datatype TitleCell =
    | NoTitleDiv                              // `.find('a')` on None raises AttributeError
    | Unlinked                                // a deleted post: no <a>, the entry is skipped
    | Linked(text: string, href: Option<string>)  // no href: `title_link['href']` raises KeyError

  /** One `div.r-ent` of the listing: its title cell and the texts of its author and date cells. */
  datatype Entry = Entry(title: TitleCell, author: Option<string>, date: Option<string>)

  datatype Article = Article(title: string, author: string, date: string, link: string, board: string)

  datatype ScrapeError =
    | PageUnavailable   // the fetch or the parse failed
    | MalformedEntry    // an entry made the loop raise

  /** What the loop does with one entry. */
  datatype Verdict = Abort | Skip | Keep(article: Article)

  /** Whether `xs[:stop]` keeps index `p` of a list of length `n`: a negative `stop` counts from the end. */
  predicate SliceKeeps(n: nat, stop: int, p: int)
  {
    0 <= p < n && (if stop >= 0 then p < stop else p < n + stop)
  }

  /** The number of elements `xs[:stop]` keeps: exactly the first `k` indices are kept. */
  function SliceLength(n: nat, stop: int): (k: nat)
    ensures k <= n
    ensures forall p :: SliceKeeps(n, stop, p) <==> 0 <= p < k
  {
    if stop >= 0 then (if stop < n then stop else n)
    else if n + stop > 0 then n + stop else 0
  }

  /** How many listing entries the loop may look at: `article_entries[:post_count * 2]`. */
  function Budget(n: nat, postCount: int): nat
  {
    SliceLength(n, postCount * 2)
  }

  /** The keyword filter: no keywords, or some keyword occurs in the title, ignoring case. */
  predicate MatchesKeywords(title: string, keywords: seq<string>)
  {
    keywords == [] || exists k :: k in keywords && Text.Contains(Text.Lower(title), Text.Lower(k))
  }

  /** A cell's stripped text, or "Unknown" when the cell is missing. */
  function CellText(cell: Option<string>): string
  {
    match cell
    case Some(text) => Text.Strip(text)
    case None => Unknown
  }

  /** The body of the loop for one entry: read its title link, filter, and build the article. */
  function Examine(e: Entry, keywords: seq<string>, board: string): Verdict
  {
    match e.title
    case NoTitleDiv => Abort
    case Unlinked => Skip
    case Linked(text, href) =>
      if href.None? then Abort
      else
        var title := Text.Strip(text);
        if !MatchesKeywords(title, keywords) then Skip
        else Keep(Article(title, CellText(e.author), CellText(e.date), PttOrigin + href.value, board))
  }

  /**
    One entry of the loop: a missing title cell, or a title link without an href, makes the loop
    raise; a title cell without a link (a deleted post) is skipped; a link is kept exactly when its
    stripped title passes the keyword filter, and then becomes the article with that title, the
    stripped author and date texts ("Unknown" for a missing cell), the link made absolute on the
    board site, and the board's name.
  */
  lemma ExamineSpec(e: Entry, keywords: seq<string>, board: string)
    ensures var v := Examine(e, keywords, board);
      && (v.Abort? <==> e.title.NoTitleDiv? || (e.title.Linked? && e.title.href.None?))
      && (e.title.Unlinked? ==> v.Skip?)
      && (e.title.Linked? && e.title.href.Some? ==> (v.Keep? <==> MatchesKeywords(Text.Strip(e.title.text), keywords)))
      && (v.Keep? ==>
            && e.title.Linked? && e.title.href.Some?
            && v.article.title == Text.Strip(e.title.text)
            && v.article.link == PttOrigin + e.title.href.value
            && v.article.author == (if e.author.Some? then Text.Strip(e.author.value) else Unknown)
            && v.article.date == (if e.date.Some? then Text.Strip(e.date.value) else Unknown)
            && Admissible(v.article, keywords, board))
  {
  }

  /** `acc + r` when `r` is a list of articles; an error stays an error. */
  function Prepend(acc: seq<Article>, r: Result<seq<Article>, ScrapeError>): Result<seq<Article>, ScrapeError>
  {
    match r
    case Ok(rest) => Ok(acc + rest)
    case Err(e) => r
  }

  /**
    The loop from some point on: `found` articles are already collected; it stops after the
    article that brings the count to `postCount`.
  */
  function Scan(entries: seq<Entry>, found: nat, postCount: int, keywords: seq<string>, board: string)
    : Result<seq<Article>, ScrapeError>
  {
    if entries == [] then Ok([])
    else
      match Examine(entries[0], keywords, board)
      case Abort => Err(MalformedEntry)
      case Skip => Scan(entries[1..], found, postCount, keywords, board)
      case Keep(a) =>
        if found + 1 >= postCount then Ok([a])
        else Prepend([a], Scan(entries[1..], found + 1, postCount, keywords, board))
  }

  /** The selection over a parsed listing. */
  function Select(entries: seq<Entry>, postCount: int, keywords: seq<string>, board: string)
    : Result<seq<Article>, ScrapeError>
  {
    Scan(entries[..Budget(|entries|, postCount)], 0, postCount, keywords, board)
  }

  /** `scrape_ptt_articles` given what the board's listing page parses to. */
  function Scrape(page: Option<seq<Entry>>, board: string, postCount: int, keywords: seq<string>)
    : Result<seq<Article>, ScrapeError>
  {
    match page
    case None => Err(PageUnavailable)
    case Some(entries) => Select(entries, postCount, keywords, board)
  }

  // Reference definitions: what the loop keeps when nothing stops it.

  /** No entry makes the loop raise. */
  predicate WellFormed(entries: seq<Entry>, keywords: seq<string>, board: string)
  {
    forall i :: 0 <= i < |entries| ==> !Examine(entries[i], keywords, board).Abort?
  }

  /** The articles of all kept entries, in listing order. */
  function Kept(entries: seq<Entry>, keywords: seq<string>, board: string): seq<Article>
  {
    if entries == [] then []
    else
      var v := Examine(entries[0], keywords, board);
      (if v.Keep? then [v.article] else []) + Kept(entries[1..], keywords, board)
  }

  /** A kept article links into the board site, passes the keyword filter and names the board. */
  predicate Admissible(a: Article, keywords: seq<string>, board: string)
  {
    PttOrigin <= a.link && MatchesKeywords(a.title, keywords) && a.board == board
  }

  lemma {:induction false} KeptAdmissible(entries: seq<Entry>, keywords: seq<string>, board: string)
    ensures forall i :: 0 <= i < |Kept(entries, keywords, board)| ==>
      Admissible(Kept(entries, keywords, board)[i], keywords, board)
  {
    if entries != [] {
      KeptAdmissible(entries[1..], keywords, board);
    }
  }

  lemma {:induction false} KeptSnoc(entries: seq<Entry>, e: Entry, keywords: seq<string>, board: string)
    ensures Kept(entries + [e], keywords, board) ==
      Kept(entries, keywords, board) + (if Examine(e, keywords, board).Keep? then [Examine(e, keywords, board).article] else [])
  {
    var v := Examine(e, keywords, board);
    var tail := if v.Keep? then [v.article] else [];
    if entries == [] {
      assert [e][1..] == [];
      assert Kept([e], keywords, board) == tail + Kept([], keywords, board);
    } else {
      var w := Examine(entries[0], keywords, board);
      var head := if w.Keep? then [w.article] else [];
      assert (entries + [e])[0] == entries[0];
      assert (entries + [e])[1..] == entries[1..] + [e];
      KeptSnoc(entries[1..], e, keywords, board);
      var rest := Kept(entries[1..], keywords, board);
      calc {
        Kept(entries + [e], keywords, board);
        head + Kept(entries[1..] + [e], keywords, board);
        head + (rest + tail);
        (head + rest) + tail;
        Kept(entries, keywords, board) + tail;
      }
    }
  }

  /**
    `arts` is the kept articles of a well-formed prefix of `entries`, cut short only right after
    a kept entry that brought the count to `postCount`.
  */
  ghost predicate KeptPrefix(entries: seq<Entry>, arts: seq<Article>, found: nat, postCount: int, keywords: seq<string>, board: string)
  {
    exists k :: 0 <= k <= |entries| && WellFormed(entries[..k], keywords, board) &&
                arts == Kept(entries[..k], keywords, board) &&
                (k < |entries| ==> 0 < k && Examine(entries[k - 1], keywords, board).Keep? && found + |arts| >= postCount)
  }

  /**
    The loop raises at entry `p`: that entry is malformed, none before it is, and the articles
    kept before it (if any) left the count below `postCount`, so the loop got that far.
  */
  ghost predicate AbortsAt(entries: seq<Entry>, p: nat, found: nat, postCount: int, keywords: seq<string>, board: string)
  {
    && p < |entries| && Examine(entries[p], keywords, board).Abort?
    && WellFormed(entries[..p], keywords, board)
    && (|Kept(entries[..p], keywords, board)| == 0 || found + |Kept(entries[..p], keywords, board)| < postCount)
  }

  /** The shape of a `Scan` result, as stated by `ScanIsKeptPrefix`. */
  ghost predicate ScanShape(r: Result<seq<Article>, ScrapeError>, entries: seq<Entry>, found: nat, postCount: int, keywords: seq<string>, board: string)
  {
    match r
    case Ok(arts) =>
      KeptPrefix(entries, arts, found, postCount, keywords, board) &&
      (found < postCount ==> found + |arts| <= postCount) &&
      (|arts| <= 1 || found + |arts| <= postCount)
    case Err(e) => e == MalformedEntry && exists p: nat :: AbortsAt(entries, p, found, postCount, keywords, board)
  }

  /**
    What `Scan` returns: the kept articles of a well-formed prefix of its entries, in order. It
    stops before the end only right after the article that brings the count to `postCount`; it
    never returns more than `postCount` articles beyond `found`, and at most one when `found` is
    already at the count. It raises exactly at the first malformed entry it reaches.
  */
  lemma {:induction false} ScanIsKeptPrefix(entries: seq<Entry>, found: nat, postCount: int, keywords: seq<string>, board: string)
    ensures ScanShape(Scan(entries, found, postCount, keywords, board), entries, found, postCount, keywords, board)
    decreases |entries|
  {
    if entries == [] {
      assert entries[..0] == [];
      assert KeptPrefix(entries, [], found, postCount, keywords, board);
    } else {
      var v := Examine(entries[0], keywords, board);
      if v.Skip? {
        ScanIsKeptPrefix(entries[1..], found, postCount, keywords, board);
        SkipStep(entries, found, postCount, keywords, board);
      } else if v.Keep? {
        if found + 1 >= postCount {
          KeepLast(entries, found, postCount, keywords, board);
        } else {
          ScanIsKeptPrefix(entries[1..], found + 1, postCount, keywords, board);
          KeepStep(entries, found, postCount, keywords, board);
        }
      } else {
        assert entries[..0] == [];
        assert AbortsAt(entries, 0, found, postCount, keywords, board);
      }
    }
  }

  /** A skipped first entry leaves the shape of the rest's scan intact. */
  lemma SkipStep(entries: seq<Entry>, found: nat, postCount: int, keywords: seq<string>, board: string)
    requires entries != [] && Examine(entries[0], keywords, board).Skip?
    requires ScanShape(Scan(entries[1..], found, postCount, keywords, board), entries[1..], found, postCount, keywords, board)
    ensures ScanShape(Scan(entries, found, postCount, keywords, board), entries, found, postCount, keywords, board)
  {
    var rest := entries[1..];
    var r := Scan(rest, found, postCount, keywords, board);
    assert Scan(entries, found, postCount, keywords, board) == r;
    if r.Ok? {
      var arts := r.value;
      var k :| 0 <= k <= |rest| && WellFormed(rest[..k], keywords, board) &&
               arts == Kept(rest[..k], keywords, board) &&
               (k < |rest| ==> 0 < k && Examine(rest[k - 1], keywords, board).Keep? && found + |arts| >= postCount);
      ConsPrefix(entries, k, keywords, board);
      assert k < |rest| ==> entries[k] == rest[k - 1];
      assert KeptPrefix(entries, arts, found, postCount, keywords, board);
    } else {
      var p: nat :| AbortsAt(rest, p, found, postCount, keywords, board);
      ConsPrefix(entries, p, keywords, board);
      assert entries[p + 1] == rest[p];
      assert AbortsAt(entries, p + 1, found, postCount, keywords, board);
    }
  }

  /** A kept first entry that reaches the count ends the scan with that article alone. */
  lemma KeepLast(entries: seq<Entry>, found: nat, postCount: int, keywords: seq<string>, board: string)
    requires entries != [] && Examine(entries[0], keywords, board).Keep? && found + 1 >= postCount
    ensures ScanShape(Scan(entries, found, postCount, keywords, board), entries, found, postCount, keywords, board)
  {
    var a := Examine(entries[0], keywords, board).article;
    assert Scan(entries, found, postCount, keywords, board) == Ok([a]);
    assert entries[1..][..0] == [];
    ConsPrefix(entries, 0, keywords, board);
    assert KeptPrefix(entries, [a], found, postCount, keywords, board);
  }

  /** A kept first entry below the count prepends its article to the rest's scan. */
  lemma KeepStep(entries: seq<Entry>, found: nat, postCount: int, keywords: seq<string>, board: string)
    requires entries != [] && Examine(entries[0], keywords, board).Keep? && found + 1 < postCount
    requires ScanShape(Scan(entries[1..], found + 1, postCount, keywords, board), entries[1..], found + 1, postCount, keywords, board)
    ensures ScanShape(Scan(entries, found, postCount, keywords, board), entries, found, postCount, keywords, board)
  {
    var a := Examine(entries[0], keywords, board).article;
    var rest := entries[1..];
    var r := Scan(rest, found + 1, postCount, keywords, board);
    assert Scan(entries, found, postCount, keywords, board) == Prepend([a], r);
    if r.Ok? {
      var arts := r.value;
      var k :| 0 <= k <= |rest| && WellFormed(rest[..k], keywords, board) &&
               arts == Kept(rest[..k], keywords, board) &&
               (k < |rest| ==> 0 < k && Examine(rest[k - 1], keywords, board).Keep? && found + 1 + |arts| >= postCount);
      ConsPrefix(entries, k, keywords, board);
      assert k < |rest| ==> entries[k] == rest[k - 1];
      assert KeptPrefix(entries, [a] + arts, found, postCount, keywords, board);
    } else {
      var p: nat :| AbortsAt(rest, p, found + 1, postCount, keywords, board);
      ConsPrefix(entries, p, keywords, board);
      assert entries[p + 1] == rest[p];
      assert AbortsAt(entries, p + 1, found, postCount, keywords, board);
    }
  }

  /** Putting a first entry that does not raise in front of a well-formed prefix of the rest. */
  lemma ConsPrefix(entries: seq<Entry>, k: nat, keywords: seq<string>, board: string)
    requires k < |entries| && !Examine(entries[0], keywords, board).Abort?
    requires WellFormed(entries[1..][..k], keywords, board)
    ensures WellFormed(entries[..k + 1], keywords, board)
    ensures var v := Examine(entries[0], keywords, board);
      Kept(entries[..k + 1], keywords, board) == (if v.Keep? then [v.article] else []) + Kept(entries[1..][..k], keywords, board)
  {
    PrefixStep(entries, k);
    var prefix := entries[..k + 1];
    forall i | 0 <= i < |prefix|
      ensures !Examine(prefix[i], keywords, board).Abort?
    {
      if i > 0 {
        assert prefix[i] == entries[1..][..k][i - 1];
      }
    }
  }

  /** The prefix of length `k + 1` is the first entry followed by the prefix of length `k` of the rest. */
  lemma PrefixStep(entries: seq<Entry>, k: nat)
    requires entries != [] && k <= |entries| - 1
    ensures entries[..k + 1][0] == entries[0] && entries[..k + 1][1..] == entries[1..][..k]
  {
  }

  /** The over-read budget: the loop looks at no more than `2 * postCount` entries. */
  lemma BudgetBound(n: nat, postCount: int)
    ensures postCount >= 0 ==> Budget(n, postCount) <= 2 * postCount
    ensures Budget(n, postCount) <= n
  {
  }

  /**
    Article selection returns the kept articles of the first `k` entries, none of them
    malformed, for a `k` within the over-read budget; it stops before the budget only right after
    the article that brings it to `postCount`, and it never holds more. Every article links to the
    board site, passes the keyword filter and names the board. It fails exactly at a malformed
    entry within the budget that it reaches before holding `postCount` articles.
  */
  lemma SelectSpec(entries: seq<Entry>, postCount: int, keywords: seq<string>, board: string)
    ensures match Select(entries, postCount, keywords, board)
      case Ok(arts) =>
        (exists k :: 0 <= k <= Budget(|entries|, postCount) &&
                     WellFormed(entries[..k], keywords, board) &&
                     arts == Kept(entries[..k], keywords, board) &&
                     (k < Budget(|entries|, postCount) ==>
                        0 < k && Examine(entries[k - 1], keywords, board).Keep? && |arts| >= postCount)) &&
        (postCount >= 0 ==> |arts| <= postCount) &&
        (|arts| <= 1 || |arts| <= postCount) &&
        (forall i :: 0 <= i < |arts| ==> Admissible(arts[i], keywords, board))
      case Err(e) =>
        e == MalformedEntry &&
        exists p: nat :: p < Budget(|entries|, postCount) && AbortsAt(entries, p, 0, postCount, keywords, board)
  {
    var n := Budget(|entries|, postCount);
    var page := entries[..n];
    ScanIsKeptPrefix(page, 0, postCount, keywords, board);
    var r := Select(entries, postCount, keywords, board);
    assert r == Scan(page, 0, postCount, keywords, board);
    if r.Ok? {
      PageKept(entries, n, r.value, postCount, keywords, board);
    } else {
      PageAborts(entries, n, postCount, keywords, board);
    }
  }

  /** The kept prefix of the first `n` entries, read off the entries themselves. */
  lemma PageKept(entries: seq<Entry>, n: nat, arts: seq<Article>, postCount: int, keywords: seq<string>, board: string)
    requires n <= |entries| && KeptPrefix(entries[..n], arts, 0, postCount, keywords, board)
    ensures exists k :: 0 <= k <= n &&
                        WellFormed(entries[..k], keywords, board) &&
                        arts == Kept(entries[..k], keywords, board) &&
                        (k < n ==> 0 < k && Examine(entries[k - 1], keywords, board).Keep? && |arts| >= postCount)
    ensures forall i :: 0 <= i < |arts| ==> Admissible(arts[i], keywords, board)
  {
    var page := entries[..n];
    var k :| 0 <= k <= |page| && WellFormed(page[..k], keywords, board) &&
             arts == Kept(page[..k], keywords, board) &&
             (k < |page| ==> 0 < k && Examine(page[k - 1], keywords, board).Keep? && |arts| >= postCount);
    assert page[..k] == entries[..k];
    assert k < |page| ==> page[k - 1] == entries[k - 1];
    KeptAdmissible(entries[..k], keywords, board);
  }

  /** Where the scan of the first `n` entries raises, read off the entries themselves. */
  lemma PageAborts(entries: seq<Entry>, n: nat, postCount: int, keywords: seq<string>, board: string)
    requires n <= |entries| && exists p: nat :: AbortsAt(entries[..n], p, 0, postCount, keywords, board)
    ensures exists p: nat :: p < n && AbortsAt(entries, p, 0, postCount, keywords, board)
  {
    var page := entries[..n];
    var p: nat :| AbortsAt(page, p, 0, postCount, keywords, board);
    assert page[..p] == entries[..p] && page[p] == entries[p];
    assert AbortsAt(entries, p, 0, postCount, keywords, board);
  }

  /** With no malformed entry within the budget, selection succeeds. */
  lemma SelectSucceedsOnWellFormed(entries: seq<Entry>, postCount: int, keywords: seq<string>, board: string)
    requires WellFormed(entries[..Budget(|entries|, postCount)], keywords, board)
    ensures Select(entries, postCount, keywords, board).Ok?
  {
    SelectSpec(entries, postCount, keywords, board);
    var page := entries[..Budget(|entries|, postCount)];
    forall p: nat | p < |page|
      ensures !AbortsAt(entries, p, 0, postCount, keywords, board)
    {
      assert page[p] == entries[p];
    }
  }

  /** One loop step: the entry at `i` decides how `Scan` goes on from there. */
  lemma ScanStep(entries: seq<Entry>, i: nat, found: nat, postCount: int, keywords: seq<string>, board: string)
    requires i < |entries|
    ensures var v := Examine(entries[i], keywords, board);
      && (v.Abort? ==> Scan(entries[i..], found, postCount, keywords, board) == Err(MalformedEntry))
      && (v.Skip? ==> Scan(entries[i..], found, postCount, keywords, board) == Scan(entries[i + 1..], found, postCount, keywords, board))
      && (v.Keep? && found + 1 >= postCount ==> Scan(entries[i..], found, postCount, keywords, board) == Ok([v.article]))
      && (v.Keep? && found + 1 < postCount ==>
            Scan(entries[i..], found, postCount, keywords, board) ==
            Prepend([v.article], Scan(entries[i + 1..], found + 1, postCount, keywords, board)))
  {
    assert entries[i..][0] == entries[i];
    assert entries[i..][1..] == entries[i + 1..];
  }

  lemma PrependPrepend(acc: seq<Article>, a: Article, r: Result<seq<Article>, ScrapeError>)
    ensures Prepend(acc, Prepend([a], r)) == Prepend(acc + [a], r)
  {
    if r.Ok? {
      assert acc + ([a] + r.value) == (acc + [a]) + r.value;
    }
  }

  /** The loop of `scrape_ptt_articles` over the parsed listing entries. */
  method SelectArticles(entries: seq<Entry>, postCount: int, keywords: seq<string>, board: string)
    returns (r: Result<seq<Article>, ScrapeError>)
    ensures r == Select(entries, postCount, keywords, board)
  {
    var page := entries[..Budget(|entries|, postCount)];
    ghost var spec := Select(entries, postCount, keywords, board);
    var articles: seq<Article> := [];
    var i := 0;
    assert page[0..] == page;
    if spec.Ok? {
      assert [] + spec.value == spec.value;
    }
    while i < |page|
      invariant 0 <= i <= |page|
      invariant spec == Prepend(articles, Scan(page[i..], |articles|, postCount, keywords, board))
    {
      ScanStep(page, i, |articles|, postCount, keywords, board);
      var verdict := Examine(page[i], keywords, board);
      if verdict.Abort? {
        return Err(MalformedEntry);
      }
      if verdict.Keep? {
        PrependPrepend(articles, verdict.article, Scan(page[i + 1..], |articles| + 1, postCount, keywords, board));
        articles := articles + [verdict.article];
        if |articles| >= postCount {
          return Ok(articles);
        }
      }
      i := i + 1;
    }
    assert page[i..] == [];
    assert articles + [] == articles;
    r := Ok(articles);
  }

  /** `scrape_ptt_articles`: a page that could not be fetched or parsed is an error. */
  method ScrapeArticles(page: Option<seq<Entry>>, board: string, postCount: int, keywords: seq<string>)
    returns (r: Result<seq<Article>, ScrapeError>)
    ensures r == Scrape(page, board, postCount, keywords)
  {
    if page.None? {
      return Err(PageUnavailable);
    }
    r := SelectArticles(page.value, postCount, keywords, board);
  }
}
