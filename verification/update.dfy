/** One update cycle, `update_quotes_if_new`: load the stored corpus, scrape
    the site, merge, and rewrite the quotes file only when something is new.
    The file is the object below; its CSV encoding is not modelled. */
module Updater {
  import opened Records
  import opened Scraper
  import opened Merge

  /** What one scrape with the default cap collects: the first 1000 rows the
      site offers, or all of them when there are fewer. */
  function DefaultScrape(site: seq<Response>): (r: seq<Record>)
    ensures r <= Harvest(site) && |r| == Min(DefaultMaxQuotes, |Harvest(site)|)
  {
    Harvest(site)[..Min(DefaultMaxQuotes, |Harvest(site)|)]
  }

  /** The quotes file. `rows` is None while the file does not exist;
      `writes` counts how often it has been written. */
  class QuotesFile {
    var rows: Option<seq<Record>>
    ghost var writes: nat

    constructor (initial: Option<seq<Record>>)
      ensures rows == initial && writes == 0
    {
      rows := initial;
      writes := 0;
    }

    /** `load_quotes_from_csv`: the stored rows, or an empty corpus when the
        file does not exist. */
    function Load(): (r: seq<Record>)
      reads this
      ensures rows.None? ==> r == []
      ensures rows.Some? ==> r == rows.value
    {
      match rows
      case None => []
      case Some(stored) => stored
    }

    /** `update_quotes_if_new`: the file is rewritten with the merged corpus
        when the scrape found a new quote text and is left untouched
        otherwise, so that it then holds `AfterUpdate` of what it held. */
    method UpdateQuotesIfNew(site: seq<Response>)
      modifies this
      ensures var merged := MergeQuotes(old(Load()), DefaultScrape(site));
              if merged.None? then rows == old(rows) && writes == old(writes)
              else rows == Some(merged.value) && writes == old(writes) + 1
      ensures Load() == AfterUpdate(old(Load()), DefaultScrape(site))
    {
      var existing := Load();
      ghost var requested;
      var newScraped;
      newScraped, requested := ScrapeAllQuotes(site, DefaultMaxQuotes);
      PrefixOfLength(newScraped, Harvest(site));

      var merged := MergeQuotes(existing, newScraped);
      if merged.Some? {
        rows := Some(merged.value);
        writes := writes + 1;
      }
    }
  }
}
