/** The incremental de-duplicating merge of `update_quotes_if_new`: the
    scraped rows whose quote text is not yet in the corpus, appended to the
    corpus, then `drop_duplicates(subset=["quote"])`, which keeps the first
    row of each quote text. The merge is `None` when no write happens. */
module Merge {
  import opened Records

  /** `[q for q in scraped if q["quote"] not in existing_quotes_texts]`. */
  function NewQuotes(existing: seq<Record>, scraped: seq<Record>): (r: seq<Record>)
    ensures IsSubsequence(r, scraped)
    ensures forall x :: x in r <==> x in scraped && x.quote !in Keys(existing)
    ensures forall x :: multiset(r)[x] == if x.quote in Keys(existing) then 0 else multiset(scraped)[x]
    ensures Keys(r) == Keys(scraped) - Keys(existing)
  {
    var known := Keys(existing);
    Where(scraped, (q: Record) => q.quote !in known)
  }

  /** Every row whose quote text does not occur before it in `s` is in `r`. */
  predicate KeepsFirsts(s: seq<Record>, r: seq<Record>) {
    forall i :: 0 <= i < |s| && s[i].quote !in Keys(s[..i]) ==> s[i] in r
  }

  /** `drop_duplicates(subset=["quote"])` with the default keep="first": of
      the rows sharing a quote text only the first stays, order kept. */
  function DropDuplicates(s: seq<Record>): (r: seq<Record>)
    ensures NoDupKeys(r)
    ensures Keys(r) == Keys(s)
    ensures IsSubsequence(r, s)
    ensures KeepsFirsts(s, r)
  {
    if s == [] then []
    else
      var init, last := s[..|s| - 1], s[|s| - 1];
      var d := DropDuplicates(init);
      if last.quote in Keys(init) then
        RepeatedLast(s, d);
        d
      else
        FreshLast(s, d);
        d + [last]
  }

  /** A last row whose key occurs earlier adds nothing. */
  lemma RepeatedLast(s: seq<Record>, d: seq<Record>)
    requires s != [] && s[|s| - 1].quote in Keys(s[..|s| - 1])
    requires Keys(d) == Keys(s[..|s| - 1]) && IsSubsequence(d, s[..|s| - 1])
    requires KeepsFirsts(s[..|s| - 1], d)
    ensures Keys(d) == Keys(s) && IsSubsequence(d, s) && KeepsFirsts(s, d)
  {
    LastKey(s);
    RepeatedKeepsFirsts(s, d);
  }

  /** The keys of a non-empty corpus: those before the last row, and its own. */
  lemma LastKey(s: seq<Record>)
    requires s != []
    ensures Keys(s) == Keys(s[..|s| - 1]) + {s[|s| - 1].quote}
  {
    assert s == s[..|s| - 1] + [s[|s| - 1]];
  }

  lemma RepeatedKeepsFirsts(s: seq<Record>, d: seq<Record>)
    requires s != [] && s[|s| - 1].quote in Keys(s[..|s| - 1])
    requires KeepsFirsts(s[..|s| - 1], d)
    ensures KeepsFirsts(s, d)
  {
    var init := s[..|s| - 1];
    forall i | 0 <= i < |s| && s[i].quote !in Keys(s[..i]) ensures s[i] in d {
      if i < |init| {
        assert s[..i] == init[..i] && s[i] == init[i];
      }
    }
  }

  /** A last row with a new key is appended. */
  lemma FreshLast(s: seq<Record>, d: seq<Record>)
    requires s != [] && s[|s| - 1].quote !in Keys(s[..|s| - 1])
    requires NoDupKeys(d) && Keys(d) == Keys(s[..|s| - 1]) && IsSubsequence(d, s[..|s| - 1])
    requires KeepsFirsts(s[..|s| - 1], d)
    ensures var r := d + [s[|s| - 1]];
            NoDupKeys(r) && Keys(r) == Keys(s) && IsSubsequence(r, s) && KeepsFirsts(s, r)
  {
    var r := d + [s[|s| - 1]];
    assert r[..|r| - 1] == d && r[|r| - 1] == s[|s| - 1];
    AppendKeys(s, d);
    AppendNoDup(d, s[|s| - 1]);
    AppendKeepsFirsts(s, d);
  }

  lemma AppendKeys(s: seq<Record>, d: seq<Record>)
    requires s != [] && Keys(d) == Keys(s[..|s| - 1])
    ensures Keys(d + [s[|s| - 1]]) == Keys(s)
  {
    LastKey(s);
    LastKey(d + [s[|s| - 1]]);
    assert (d + [s[|s| - 1]])[..|d|] == d;
  }

  lemma AppendNoDup(d: seq<Record>, last: Record)
    requires NoDupKeys(d) && last.quote !in Keys(d)
    ensures NoDupKeys(d + [last])
  {
    var r := d + [last];
    forall i, j | 0 <= i < j < |r| ensures r[i].quote != r[j].quote {
      if j == |d| {
        assert r[i] == d[i] && d[i] in d;
      }
    }
  }

  lemma AppendKeepsFirsts(s: seq<Record>, d: seq<Record>)
    requires s != [] && KeepsFirsts(s[..|s| - 1], d)
    ensures KeepsFirsts(s, d + [s[|s| - 1]])
  {
    var init := s[..|s| - 1];
    forall i | 0 <= i < |s| && s[i].quote !in Keys(s[..i]) ensures s[i] in d + [s[|s| - 1]] {
      if i < |init| {
        assert s[..i] == init[..i] && s[i] == init[i];
      }
    }
  }

  /** A corpus without duplicate quote texts is left as it is. */
  lemma {:induction false} DropDuplicatesNoDup(s: seq<Record>)
    requires NoDupKeys(s)
    ensures DropDuplicates(s) == s
  {
    if s != [] {
      var init, last := s[..|s| - 1], s[|s| - 1];
      assert s == init + [last];
      assert forall r :: r in init ==> r.quote != last.quote;
      DropDuplicatesNoDup(init);
    }
  }

  /** Rows appended behind a corpus never disturb what the corpus keeps. */
  lemma {:induction false} DropDuplicatesPrefix(a: seq<Record>, b: seq<Record>)
    ensures DropDuplicates(a) <= DropDuplicates(a + b)
  {
    if b == [] {
      assert a + b == a;
    } else {
      var init := b[..|b| - 1];
      assert (a + b)[..|a + b| - 1] == a + init;
      DropDuplicatesPrefix(a, init);
    }
  }

  /** The merge of `update_quotes_if_new`: `None` when no scraped quote text
      is new (nothing is written), otherwise the corpus with the new rows
      appended and duplicates dropped. */
  function MergeQuotes(existing: seq<Record>, scraped: seq<Record>): (r: Option<seq<Record>>)
    ensures r.None? <==> Keys(scraped) <= Keys(existing)
    ensures r.Some? ==> NoDupKeys(r.value)
    ensures r.Some? ==> Keys(r.value) == Keys(existing) + Keys(scraped)
  {
    var newQuotes := NewQuotes(existing, scraped);
    KeysAppend(existing, newQuotes);
    if newQuotes == [] then None else Some(DropDuplicates(existing + newQuotes))
  }

  /** Merging into a duplicate-free corpus keeps that corpus as an unchanged
      proper prefix and adds one row per new quote text. */
  lemma MergeExtendsCorpus(existing: seq<Record>, scraped: seq<Record>)
    requires NoDupKeys(existing)
    requires !(Keys(scraped) <= Keys(existing))
    ensures existing < MergeQuotes(existing, scraped).value
    ensures |MergeQuotes(existing, scraped).value| == |existing| + |Keys(scraped) - Keys(existing)|
  {
    MergeKeepsCorpus(existing, scraped);
    MergeCount(existing, scraped);
  }

  lemma MergeKeepsCorpus(existing: seq<Record>, scraped: seq<Record>)
    requires NoDupKeys(existing)
    requires !(Keys(scraped) <= Keys(existing))
    ensures existing <= MergeQuotes(existing, scraped).value
  {
    var newQuotes := NewQuotes(existing, scraped);
    DropDuplicatesPrefix(existing, newQuotes);
    DropDuplicatesNoDup(existing);
  }

  lemma MergeCount(existing: seq<Record>, scraped: seq<Record>)
    requires NoDupKeys(existing)
    requires !(Keys(scraped) <= Keys(existing))
    ensures |MergeQuotes(existing, scraped).value| == |existing| + |Keys(scraped) - Keys(existing)|
    ensures |Keys(scraped) - Keys(existing)| > 0
  {
    SomeKeyIsNew(Keys(scraped), Keys(existing));
    CountFromKeys(existing, scraped, MergeQuotes(existing, scraped).value);
  }

  lemma SomeKeyIsNew(scrapedKeys: set<string>, known: set<string>)
    requires !(scrapedKeys <= known)
    ensures |scrapedKeys - known| > 0
  {
    var k :| k in scrapedKeys && k !in known;
    assert k in scrapedKeys - known;
  }

  /** A duplicate-free corpus whose keys are those of `existing` plus those
      of `scraped` has one row per key. */
  lemma CountFromKeys(existing: seq<Record>, scraped: seq<Record>, merged: seq<Record>)
    requires NoDupKeys(existing) && NoDupKeys(merged)
    requires Keys(merged) == Keys(existing) + Keys(scraped)
    ensures |merged| == |existing| + |Keys(scraped) - Keys(existing)|
  {
    NoDupKeysCount(existing);
    NoDupKeysCount(merged);
    assert Keys(merged) == Keys(existing) + (Keys(scraped) - Keys(existing));
  }

  /** The corpus stored after one update cycle. */
  function AfterUpdate(existing: seq<Record>, scraped: seq<Record>): (r: seq<Record>)
    ensures Keys(r) == Keys(existing) + Keys(scraped)
    ensures Keys(scraped) <= Keys(existing) ==> r == existing
  {
    match MergeQuotes(existing, scraped)
    case None => existing
    case Some(merged) => merged
  }

  /** An update cycle keeps a duplicate-free corpus duplicate-free and keeps
      it as a prefix of what is stored afterwards. */
  lemma UpdateKeepsCorpus(existing: seq<Record>, scraped: seq<Record>)
    requires NoDupKeys(existing)
    ensures NoDupKeys(AfterUpdate(existing, scraped))
    ensures existing <= AfterUpdate(existing, scraped)
    ensures Keys(AfterUpdate(existing, scraped)) == Keys(existing) + Keys(scraped)
  {
    if MergeQuotes(existing, scraped).Some? {
      MergeKeepsCorpus(existing, scraped);
    }
  }

  /** A second cycle against an unchanged source finds nothing new and so
      writes nothing: the update is idempotent. */
  lemma SecondUpdateWritesNothing(existing: seq<Record>, scraped: seq<Record>)
    ensures MergeQuotes(AfterUpdate(existing, scraped), scraped).None?
    ensures AfterUpdate(AfterUpdate(existing, scraped), scraped) == AfterUpdate(existing, scraped)
  {
  }
}
