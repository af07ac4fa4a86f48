/** The query view computed by the `index` route: the three filters, the
    page slice with its page count, and the sorted list of tag facets of the
    filtered rows. Substring tests are literal and fold ASCII case only. */
module Query {
  import opened Text
  import opened Records
  import opened Tags

  const QuotesPerPage := 10

  /** The search filter keeps a row when any of its three cells contains the
      query, ignoring case. Every row matches the empty query, and a query
      must fit inside a single cell. */
  function MatchesSearch(r: Record, query: string): (b: bool)
    ensures query == [] ==> b
    ensures b ==> |query| <= |r.quote| || |query| <= |r.author| || |query| <= |r.tags|
  {
    ContainsIgnoreCaseBounds(r.quote, query);
    ContainsIgnoreCaseBounds(r.author, query);
    ContainsIgnoreCaseBounds(r.tags, query);
    ContainsIgnoreCase(r.quote, query) ||
    ContainsIgnoreCase(r.author, query) ||
    ContainsIgnoreCase(r.tags, query)
  }

  /** The tag filter keeps a row when its tags cell contains the tag,
      ignoring case; a row without tags matches no non-empty tag. */
  function MatchesTag(r: Record, tag: string): (b: bool)
    ensures tag == [] ==> b
    ensures b ==> |tag| <= |r.tags|
    ensures r.tags == [] ==> (b <==> tag == [])
  {
    ContainsIgnoreCaseBounds(r.tags, tag);
    ContainsIgnoreCase(r.tags, tag)
  }

  /** A row passes every filter that is not empty. */
  predicate Selected(r: Record, search: string, author: string, tag: string) {
    && (search == [] || MatchesSearch(r, search))
    && (author == [] || r.author == author)
    && (tag == [] || MatchesTag(r, tag))
  }

  /** The rows passing all filters at once, in corpus order. */
  function Selection(rows: seq<Record>, search: string, author: string, tag: string): (r: seq<Record>)
    ensures IsSubsequence(r, rows)
    ensures forall x :: x in r <==> x in rows && Selected(x, search, author, tag)
    ensures forall x :: multiset(r)[x] == if Selected(x, search, author, tag) then multiset(rows)[x] else 0
  {
    Where(rows, (x: Record) => Selected(x, search, author, tag))
  }

  /** `df[mask]` for the search mask; skipped when the query is empty. */
  function SearchFilter(rows: seq<Record>, search: string): (r: seq<Record>)
    ensures IsSubsequence(r, rows)
    ensures forall x :: multiset(r)[x] == if search == [] || MatchesSearch(x, search) then multiset(rows)[x] else 0
  {
    if search == [] then
      IsSubsequenceReflexive(rows);
      rows
    else Where(rows, (x: Record) => MatchesSearch(x, search))
  }

  /** `df[df["author"] == author_filter]`; skipped when the author is empty. */
  function AuthorFilter(rows: seq<Record>, author: string): (r: seq<Record>)
    ensures IsSubsequence(r, rows)
    ensures forall x :: multiset(r)[x] == if author == [] || x.author == author then multiset(rows)[x] else 0
  {
    if author == [] then
      IsSubsequenceReflexive(rows);
      rows
    else Where(rows, (x: Record) => x.author == author)
  }

  /** `df[df["tags"].str.contains(tag_filter, case=False)]`; skipped when the
      tag is empty. */
  function TagFilter(rows: seq<Record>, tag: string): (r: seq<Record>)
    ensures IsSubsequence(r, rows)
    ensures forall x :: multiset(r)[x] == if tag == [] || MatchesTag(x, tag) then multiset(rows)[x] else 0
  {
    if tag == [] then
      IsSubsequenceReflexive(rows);
      rows
    else Where(rows, (x: Record) => MatchesTag(x, tag))
  }

  /** The search filter ignores case: two queries that agree after ASCII
      lower-casing select the same rows, in the same order. */
  lemma SearchFilterIgnoresCase(rows: seq<Record>, q1: string, q2: string)
    requires LowerStr(q1) == LowerStr(q2)
    ensures SearchFilter(rows, q1) == SearchFilter(rows, q2)
  {
    forall x: Record ensures MatchesSearch(x, q1) == MatchesSearch(x, q2) {
      ContainsIgnoresCase(x.quote, q1, q2);
      ContainsIgnoresCase(x.author, q1, q2);
      ContainsIgnoresCase(x.tags, q1, q2);
    }
    SameSelection(rows, SearchFilter(rows, q1), SearchFilter(rows, q2));
  }

  /** The tag filter ignores case: two tags that agree after ASCII
      lower-casing select the same rows, in the same order. */
  lemma TagFilterIgnoresCase(rows: seq<Record>, t1: string, t2: string)
    requires LowerStr(t1) == LowerStr(t2)
    ensures TagFilter(rows, t1) == TagFilter(rows, t2)
  {
    forall x: Record ensures MatchesTag(x, t1) == MatchesTag(x, t2) {
      ContainsIgnoresCase(x.tags, t1, t2);
    }
    SameSelection(rows, TagFilter(rows, t1), TagFilter(rows, t2));
  }

  /** Search, then author, then tag, each skipped when empty: an
      order-preserving selection of the rows passing every non-empty filter. */
  function FilterQuotes(rows: seq<Record>, search: string, author: string, tag: string): (r: seq<Record>)
    ensures IsSubsequence(r, rows)
    ensures forall x :: multiset(r)[x] == if Selected(x, search, author, tag) then multiset(rows)[x] else 0
  {
    var bySearch := SearchFilter(rows, search);
    var byAuthor := AuthorFilter(bySearch, author);
    var byTag := TagFilter(byAuthor, tag);
    IsSubsequenceTransitive(byAuthor, bySearch, rows);
    IsSubsequenceTransitive(byTag, byAuthor, rows);
    byTag
  }

  /** The filter chain equals the single selection by the conjunction of the
      filters. */
  lemma FilterIsConjunction(rows: seq<Record>, search: string, author: string, tag: string)
    ensures FilterQuotes(rows, search, author, tag) == Selection(rows, search, author, tag)
  {
    SameSelection(rows, FilterQuotes(rows, search, author, tag), Selection(rows, search, author, tag));
  }

  /** `max(1, ceil(count / 10))`. */
  function TotalPages(count: nat): (t: nat)
    ensures t >= 1
    ensures count == 0 ==> t == 1
    ensures count > 0 ==> (t - 1) * QuotesPerPage < count <= t * QuotesPerPage
  {
    if count == 0 then 1 else (count + QuotesPerPage - 1) / QuotesPerPage
  }

  /** A Python slice bound resolved against a length `n`: a negative bound
      counts from the end, and the result is clamped into 0..n. */
  function SliceBound(i: int, n: nat): (k: nat)
    ensures k <= n
    ensures 0 <= i <= n ==> k == i
    ensures i < 0 && 0 <= i + n ==> k == i + n
    ensures (i > n ==> k == n) && (i + n < 0 ==> k == 0)
  {
    if i < 0 then (if i + n < 0 then 0 else i + n)
    else if i > n then n else i
  }

  /** `rows[lo:hi]` (and `df.iloc[lo:hi]`) with Python's resolution of the
      bounds: empty when the resolved start is not below the resolved end. */
  function PySlice(rows: seq<Record>, lo: int, hi: int): (r: seq<Record>)
    ensures lo <= hi ==> |r| <= hi - lo
    ensures SliceBound(lo, |rows|) < SliceBound(hi, |rows|) ==> r == rows[SliceBound(lo, |rows|)..SliceBound(hi, |rows|)]
    ensures SliceBound(lo, |rows|) >= SliceBound(hi, |rows|) ==> r == []
    ensures forall x :: x in r ==> x in rows
  {
    var a, b := SliceBound(lo, |rows|), SliceBound(hi, |rows|);
    if a < b then rows[a..b] else []
  }

  /** `df.iloc[(page - 1) * 10 : page * 10]`. For a page of at least 1 this
      is the page-th run of 10 rows; page 0 is empty, and a negative page
      counts its window from the end of the rows. */
  function PageSlice(rows: seq<Record>, page: int): (r: seq<Record>)
    ensures |r| <= QuotesPerPage
    ensures forall x :: x in r ==> x in rows
    ensures page >= 1 ==> (r == [] <==> rows == [] || page > TotalPages(|rows|))
    ensures page >= 1 && r != [] ==> (page - 1) * QuotesPerPage + |r| <= |rows|
    ensures page >= 1 ==> forall k :: 0 <= k < |r| ==>
              (page - 1) * QuotesPerPage + k < |rows| && r[k] == rows[(page - 1) * QuotesPerPage + k]
    ensures page == 0 ==> r == []
    ensures page < 0 && (1 - page) * QuotesPerPage <= |rows| ==>
              r == rows[|rows| + (page - 1) * QuotesPerPage .. |rows| + page * QuotesPerPage]
  {
    PySlice(rows, (page - 1) * QuotesPerPage, page * QuotesPerPage)
  }

  /** Every row lies on exactly the page its position says, and that page
      is within the page count. */
  lemma PageSliceCovers(rows: seq<Record>, i: nat)
    requires i < |rows|
    ensures i / QuotesPerPage + 1 <= TotalPages(|rows|)
    ensures i % QuotesPerPage < |PageSlice(rows, i / QuotesPerPage + 1)|
    ensures PageSlice(rows, i / QuotesPerPage + 1)[i % QuotesPerPage] == rows[i]
  {
    var page := i / QuotesPerPage + 1;
    assert (page - 1) * QuotesPerPage + i % QuotesPerPage == i;
  }

  /** Twenty-five rows make three pages of 10, 10 and 5 rows; the fourth page
      is empty while the page count stays 3. Page 0 is empty and page -1 is
      the window of rows 5 to 14. */
  lemma TwentyFiveRows(rows: seq<Record>)
    requires |rows| == 25
    ensures TotalPages(|rows|) == 3
    ensures |PageSlice(rows, 1)| == 10 && |PageSlice(rows, 2)| == 10
    ensures |PageSlice(rows, 3)| == 5 && PageSlice(rows, 4) == []
    ensures PageSlice(rows, 0) == [] && PageSlice(rows, -1) == rows[5..15]
  {
  }

  /** `tag` inserted into a strictly ascending list, unless already there. */
  function InsertTag(tags: seq<string>, tag: string): (r: seq<string>)
    requires StrictlyAscending(tags)
    ensures StrictlyAscending(r)
    ensures forall x :: x in r <==> x in tags || x == tag
  {
    if tags == [] then [tag]
    else if tag == tags[0] then tags
    else if Less(tag, tags[0]) then
      InsertBelow(tag, tags);
      [tag] + tags
    else
      LessTotal(tag, tags[0]);
      var rest := InsertTag(tags[1..], tag);
      assert forall x :: x in rest ==> Less(tags[0], x);
      AscendingCons(tags[0], rest);
      [tags[0]] + rest
  }

  lemma AscendingCons(x: string, tags: seq<string>)
    requires StrictlyAscending(tags)
    requires forall y :: y in tags ==> Less(x, y)
    ensures StrictlyAscending([x] + tags)
  {
    forall i, j | 0 <= i < j < |[x] + tags| ensures Less(([x] + tags)[i], ([x] + tags)[j]) {
      if i == 0 {
        assert ([x] + tags)[j] == tags[j - 1];
        assert tags[j - 1] in tags;
      }
    }
  }

  lemma InsertBelow(tag: string, tags: seq<string>)
    requires StrictlyAscending(tags) && tags != [] && Less(tag, tags[0])
    ensures StrictlyAscending([tag] + tags)
  {
    forall y | y in tags ensures Less(tag, y) {
      var k :| 0 <= k < |tags| && tags[k] == y;
      if k > 0 {
        LessTransitive(tag, tags[0], y);
      }
    }
    AscendingCons(tag, tags);
  }

  /** Each of `more` inserted in turn. */
  function InsertTags(tags: seq<string>, more: seq<string>): (r: seq<string>)
    requires StrictlyAscending(tags)
    ensures StrictlyAscending(r)
    ensures forall x :: x in r <==> x in tags || x in more
    decreases |more|
  {
    if more == [] then tags
    else
      assert forall x :: x in more <==> x == more[0] || x in more[1..];
      InsertTags(InsertTag(tags, more[0]), more[1..])
  }

  /** The tag occurs in the tags cell of some row. */
  predicate TagOfSome(rows: seq<Record>, tag: string) {
    rows != [] && (TagOfSome(rows[..|rows| - 1], tag) || tag in TagsOf(rows[|rows| - 1].tags))
  }

  /** The facet list: every tag of every row, split, stripped, non-empty,
      free of commas, without repeats, sorted ascending. */
  function AllTags(rows: seq<Record>): (r: seq<string>)
    ensures StrictlyAscending(r)
    ensures forall t :: t in r ==> WellFormedTag(t)
  {
    if rows == [] then []
    else InsertTags(AllTags(rows[..|rows| - 1]), TagsOf(rows[|rows| - 1].tags))
  }

  /** The facet list holds exactly the tags of the rows. */
  lemma {:induction false} AllTagsMembers(rows: seq<Record>)
    ensures forall t :: t in AllTags(rows) <==> TagOfSome(rows, t)
  {
    if rows != [] {
      AllTagsMembers(rows[..|rows| - 1]);
    }
  }

  /** `sorted({...})`: the facet list is the one strictly ascending list of
      the rows' tags. */
  lemma AllTagsIsSortedSet(rows: seq<Record>, sorted: seq<string>)
    requires StrictlyAscending(sorted)
    requires forall t :: t in sorted <==> TagOfSome(rows, t)
    ensures AllTags(rows) == sorted
  {
    AllTagsMembers(rows);
    AscendingUnique(AllTags(rows), sorted);
  }

  /** What the page template receives. */
  datatype IndexView = IndexView(
    quotes: seq<Record>,
    searchQuery: string,
    authorFilter: string,
    tagFilter: string,
    allTags: seq<string>,
    currentPage: int,
    totalPages: nat)

  /** The body of `index` once the page number is parsed; the three
      arguments are stripped before use. */
  function Index(corpus: seq<Record>, searchArg: string, authorArg: string, tagArg: string, page: int): (v: IndexView)
    ensures v.searchQuery == Strip(searchArg) && v.authorFilter == Strip(authorArg) && v.tagFilter == Strip(tagArg)
    ensures v.currentPage == page && v.totalPages >= 1
    ensures |v.quotes| <= QuotesPerPage
    ensures forall x :: x in v.quotes ==> x in corpus && Selected(x, v.searchQuery, v.authorFilter, v.tagFilter)
    ensures v.quotes == PageSlice(Selection(corpus, v.searchQuery, v.authorFilter, v.tagFilter), page)
    ensures v.totalPages == TotalPages(|Selection(corpus, v.searchQuery, v.authorFilter, v.tagFilter)|)
    ensures StrictlyAscending(v.allTags)
    ensures forall t :: t in v.allTags ==> t != [] && Trimmed(t)
    ensures forall t :: t in v.allTags <==> TagOfSome(Selection(corpus, v.searchQuery, v.authorFilter, v.tagFilter), t)
  {
    var search, author, tag := Strip(searchArg), Strip(authorArg), Strip(tagArg);
    var filtered := FilterQuotes(corpus, search, author, tag);
    FilterIsConjunction(corpus, search, author, tag);
    AllTagsMembers(filtered);
    IndexView(PageSlice(filtered, page), search, author, tag, AllTags(filtered), page, TotalPages(|filtered|))
  }
}
