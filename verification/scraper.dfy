/** The bounded page accumulator (`scrape_all_quotes`). The quotes site is
    given as the sequence of its responses: page p is `site[p - 1]`, and a
    page past the end is an empty page with status 200. The HTTP request and
    the HTML parsing are not modelled; each response already holds the quote
    divs it would parse into. */
module Scraper {
  import opened Records
  import opened Tags

  /** What the parser extracts from one quote div: the text, the author and
      the texts of its tag links. */
  datatype ScrapedQuote = ScrapedQuote(text: string, author: string, tags: seq<string>)

  /** One HTTP response: its status code and the quote divs on the page. */
  datatype Response = Response(status: int, quotes: seq<ScrapedQuote>)

  const StatusOk := 200

  /** The default cap on the number of quotes one scrape collects. */
  const DefaultMaxQuotes := 1000

  /** The row appended for one quote div; its tags cell is the tag texts
      joined with ", ". */
  function ToRecord(q: ScrapedQuote): (r: Record)
    ensures r.quote == q.text && r.author == q.author
    ensures q.tags == [] ==> r.tags == []
    ensures q.tags != [] ==> q.tags[0] <= r.tags
  {
    Record(q.text, q.author, JoinTags(q.tags))
  }

  /** The tags cell of a row reads back as the div's tag texts whenever
      those are well formed. */
  lemma ToRecordTags(q: ScrapedQuote)
    requires forall t :: t in q.tags ==> WellFormedTag(t)
    ensures TagsOf(ToRecord(q).tags) == q.tags
  {
    TagsRoundTrip(q.tags);
  }

  function RowsOf(qs: seq<ScrapedQuote>): seq<Record> {
    seq(|qs|, i requires 0 <= i < |qs| => ToRecord(qs[i]))
  }

  /** The response to a request for page number `page`. */
  function FetchPage(site: seq<Response>, page: int): Response {
    if 1 <= page <= |site| then site[page - 1] else Response(StatusOk, [])
  }

  /** A page the scraper continues past: status 200 and at least one quote. */
  predicate HasQuotes(r: Response) {
    r.status == StatusOk && r.quotes != []
  }

  /** The number of pages, from the first, that have quotes: the index of the
      first page with a non-200 status or no quote. */
  function EndOfData(site: seq<Response>): (k: nat)
    ensures k <= |site|
  {
    if site == [] || !HasQuotes(site[0]) then 0 else 1 + EndOfData(site[1..])
  }

  /** Every page before the end of the data has quotes, and the page at the
      end, if the site has it, does not. */
  lemma {:induction false} EndOfDataStops(site: seq<Response>)
    ensures forall i :: 0 <= i < EndOfData(site) ==> HasQuotes(site[i])
    ensures EndOfData(site) < |site| ==> !HasQuotes(site[EndOfData(site)])
  {
    if site != [] && HasQuotes(site[0]) {
      EndOfDataStops(site[1..]);
    }
  }

  /** The rows of the first k pages, page after page, each in page order. */
  function RowsBefore(site: seq<Response>, k: nat): seq<Record>
    requires k <= |site|
  {
    if k == 0 then [] else RowsBefore(site, k - 1) + RowsOf(site[k - 1].quotes)
  }

  /** Every row the site offers before its first failing or empty page: at
      least one per page with quotes, and none when the first page already
      fails or is empty. */
  function Harvest(site: seq<Response>): (r: seq<Record>)
    ensures |r| >= EndOfData(site)
    ensures r == [] <==> EndOfData(site) == 0
  {
    RowsBeforeCount(site, EndOfData(site));
    RowsBefore(site, EndOfData(site))
  }

  /** Each of the first k pages, all with quotes, adds at least one row. */
  lemma {:induction false} RowsBeforeCount(site: seq<Response>, k: nat)
    requires k <= EndOfData(site)
    ensures |RowsBefore(site, k)| >= k
  {
    if k > 0 {
      EndOfDataStops(site);
      RowsBeforeCount(site, k - 1);
    }
  }

  /** The rows of every run of leading pages with quotes are a prefix of
      the harvest. */
  lemma HarvestCoversPages(site: seq<Response>)
    ensures forall k :: 0 <= k <= EndOfData(site) ==> RowsBefore(site, k) <= Harvest(site)
  {
    forall k | 0 <= k <= EndOfData(site) {
      RowsBeforePrefix(site, k, EndOfData(site));
    }
  }

  function Min(a: int, b: int): int {
    if a <= b then a else b
  }

  /** The rows of fewer pages are a prefix of the rows of more pages. */
  lemma {:induction false} RowsBeforePrefix(site: seq<Response>, i: nat, k: nat)
    requires i <= k <= |site|
    ensures RowsBefore(site, i) <= RowsBefore(site, k)
    decreases k
  {
    if i < k {
      RowsBeforePrefix(site, i, k - 1);
    }
  }

  /** Up to the end of the data, the response to page `page` answers 200
      with quotes exactly when the page lies before the end. */
  lemma PageHasQuotes(site: seq<Response>, page: int)
    requires 1 <= page <= EndOfData(site) + 1
    ensures HasQuotes(FetchPage(site, page)) <==> page <= EndOfData(site)
  {
    EndOfDataStops(site);
  }

  /** The rows of the first j + 1 quote divs: those of the first j, then one
      more; a prefix of the rows of all the divs. */
  lemma RowsOfNext(qs: seq<ScrapedQuote>, j: nat)
    requires j < |qs|
    ensures RowsOf(qs[..j + 1]) == RowsOf(qs[..j]) + [ToRecord(qs[j])]
    ensures RowsOf(qs[..j + 1]) <= RowsOf(qs)
  {
  }

  /** A prefix is the slice of its own length. */
  lemma PrefixOfLength(a: seq<Record>, b: seq<Record>)
    requires a <= b
    ensures a == b[..|a|]
  {
  }

  /** Page `page` is the one whose rows take the running total from below
      `maxQuotes` to at least `maxQuotes`, and it lies before the end of the
      data. */
  predicate CapReachedOnPage(site: seq<Response>, maxQuotes: int, page: int) {
    && 1 <= page <= EndOfData(site)
    && |RowsBefore(site, page - 1)| < maxQuotes <= |RowsBefore(site, page)|
  }

  /** Rows collected below the cap before page `page`, then reaching the cap
      within that page's rows. */
  lemma CapReached(site: seq<Response>, maxQuotes: int, page: int, before: seq<Record>, after: seq<Record>)
    requires 1 <= page <= EndOfData(site)
    requires before == RowsBefore(site, page - 1) && |before| < maxQuotes
    requires after <= RowsBefore(site, page) && |after| == maxQuotes
    ensures CapReachedOnPage(site, maxQuotes, page)
  {
  }

  /** `scrape_all_quotes(max_quotes)`: requests pages 1, 2, 3, ... in turn,
      appends the rows of each page in order, stops at the first page with a
      non-200 status or no quote, and never collects more than `maxQuotes`
      rows. `requested` records the page numbers asked for: none when the
      cap is not positive, up to the page whose rows reach the cap when the
      cap is reached, and up to the first page without quotes otherwise. */
  method ScrapeAllQuotes(site: seq<Response>, maxQuotes: int)
    returns (allQuotes: seq<Record>, ghost requested: seq<int>)
    ensures allQuotes <= Harvest(site)
    ensures |allQuotes| == if maxQuotes <= 0 then 0 else Min(maxQuotes, |Harvest(site)|)
    ensures forall i :: 0 <= i < |requested| ==> requested[i] == i + 1
    ensures |requested| <= EndOfData(site) + 1
    ensures 0 < maxQuotes && |allQuotes| < maxQuotes ==> |requested| == EndOfData(site) + 1
    ensures maxQuotes <= 0 ==> requested == []
    ensures 0 < maxQuotes && |allQuotes| == maxQuotes ==> CapReachedOnPage(site, maxQuotes, |requested|)
  {
    allQuotes := [];
    requested := [];
    var page := 1;

    while |allQuotes| < maxQuotes
      invariant 1 <= page <= EndOfData(site) + 1
      invariant |requested| == page - 1
      invariant forall i :: 0 <= i < |requested| ==> requested[i] == i + 1
      invariant allQuotes <= RowsBefore(site, page - 1)
      invariant |allQuotes| < maxQuotes ==> allQuotes == RowsBefore(site, page - 1)
      invariant 0 < maxQuotes ==> |allQuotes| <= maxQuotes
      invariant maxQuotes <= 0 ==> page == 1
      invariant 0 < maxQuotes && |allQuotes| == maxQuotes ==> CapReachedOnPage(site, maxQuotes, page - 1)
      decreases EndOfData(site) + 1 - page
    {
      var res := FetchPage(site, page);
      requested := requested + [page];
      PageHasQuotes(site, page);

      if res.status != StatusOk {
        break;
      }

      if res.quotes == [] {
        break;
      }

      ghost var before := allQuotes;

      for j := 0 to |res.quotes|
        invariant allQuotes == before + RowsOf(res.quotes[..j])
        invariant |allQuotes| < maxQuotes
      {
        RowsOfNext(res.quotes, j);
        allQuotes := allQuotes + [ToRecord(res.quotes[j])];

        if |allQuotes| >= maxQuotes {
          assert allQuotes <= RowsBefore(site, page);
          CapReached(site, maxQuotes, page, before, allQuotes);
          break;
        }
      }
      assert res.quotes[..|res.quotes|] == res.quotes;

      page := page + 1;
    }

    RowsBeforePrefix(site, page - 1, EndOfData(site));
  }
}
