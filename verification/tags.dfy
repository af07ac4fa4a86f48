/** The tags cell of a record. The scraper stores a quote's tag texts as one
    string joined with ", "; the index page recovers the individual tags by
    splitting that string on ',' and stripping each piece. */
module Tags {
  import opened Text

  /** `", ".join(tags)`: the tags cell written for one scraped quote. It
      starts with the first tag, is that tag alone for one tag, and is empty
      for none. */
  function JoinTags(tags: seq<string>): (cell: string)
    ensures tags == [] ==> cell == []
    ensures |tags| == 1 ==> cell == tags[0]
    ensures tags != [] ==> tags[0] <= cell
  {
    Join(tags, ", ")
  }

  /** Each piece stripped, pieces that strip to "" dropped, order kept. */
  function Clean(pieces: seq<string>): (r: seq<string>)
    ensures forall t :: t in r ==> t != [] && Trimmed(t)
    ensures |r| <= |pieces|
  {
    if pieces == [] then []
    else
      var t := Strip(pieces[0]);
      var head: seq<string> := if t == [] then [] else [t];
      var rest := Clean(pieces[1..]);
      assert forall u :: u in head ==> u == t;
      head + rest
  }

  /** Every cleaned tag is the strip of one of the pieces. */
  lemma {:induction false} CleanFromPieces(pieces: seq<string>)
    ensures forall t :: t in Clean(pieces) ==> exists i :: 0 <= i < |pieces| && t == Strip(pieces[i])
  {
    if pieces != [] {
      var tail := pieces[1..];
      var head: seq<string> := if Strip(pieces[0]) == [] then [] else [Strip(pieces[0])];
      assert Clean(pieces) == head + Clean(tail);
      CleanFromPieces(tail);
      forall u | u in head + Clean(tail) ensures exists i :: 0 <= i < |pieces| && u == Strip(pieces[i]) {
        if u in head {
          assert u == Strip(pieces[0]);
        } else {
          ShiftedPiece(pieces, u);
        }
      }
    }
  }

  lemma ShiftedPiece(pieces: seq<string>, u: string)
    requires pieces != []
    requires exists k :: 0 <= k < |pieces[1..]| && u == Strip(pieces[1..][k])
    ensures exists i :: 0 <= i < |pieces| && u == Strip(pieces[i])
  {
    var k :| 0 <= k < |pieces[1..]| && u == Strip(pieces[1..][k]);
    assert pieces[1..][k] == pieces[k + 1];
  }

  /** Every piece that does not strip to "" gives a tag. */
  lemma {:induction false} CleanKeepsPieces(pieces: seq<string>)
    ensures forall i :: 0 <= i < |pieces| && Strip(pieces[i]) != [] ==> Strip(pieces[i]) in Clean(pieces)
  {
    if pieces != [] {
      var t, tail := Strip(pieces[0]), pieces[1..];
      var head: seq<string> := if t == [] then [] else [t];
      assert Clean(pieces) == head + Clean(tail);
      CleanKeepsPieces(tail);
      forall i | 1 <= i < |pieces| && Strip(pieces[i]) != [] ensures Strip(pieces[i]) in head + Clean(tail) {
        assert tail[i - 1] == pieces[i];
      }
    }
  }

  /** The tags read back from a tags cell: split on ',', stripped, empty
      pieces dropped. */
  function TagsOf(cell: string): (r: seq<string>)
    ensures forall t :: t in r ==> WellFormedTag(t)
  {
    CleanNoSeparator(Split(cell, ','), ',');
    Clean(Split(cell, ','))
  }

  /** Pieces free of a character clean to tags free of it. */
  lemma {:induction false} CleanNoSeparator(pieces: seq<string>, sep: char)
    requires forall p :: p in pieces ==> sep !in p
    ensures forall t :: t in Clean(pieces) ==> sep !in t
  {
    if pieces != [] {
      var tail := pieces[1..];
      var head: seq<string> := if Strip(pieces[0]) == [] then [] else [Strip(pieces[0])];
      assert Clean(pieces) == head + Clean(tail);
      assert forall p :: p in tail ==> p in pieces;
      CleanNoSeparator(tail, sep);
      StripChars(pieces[0]);
      assert pieces[0] in pieces;
    }
  }

  /** What the scraper's tag texts look like: non-empty, free of commas and
      already stripped. */
  predicate WellFormedTag(t: string) {
    t != [] && ',' !in t && Trimmed(t)
  }

  lemma CleanCons(x: string, rest: seq<string>)
    ensures Clean([x] + rest) == (if Strip(x) == [] then [] else [Strip(x)]) + Clean(rest)
  {
    assert ([x] + rest)[0] == x && ([x] + rest)[1..] == rest;
  }

  /** A piece that strips to a tag, followed by pieces that clean to more tags. */
  lemma CleanConsTag(x: string, rest: seq<string>, t: string, ts: seq<string>)
    requires Strip(x) == t && t != []
    requires Clean(rest) == ts
    ensures Clean([x] + rest) == [t] + ts
  {
    CleanCons(x, rest);
  }

  /** Splitting "<head>, <rest>" on ',' gives head, then the pieces of " <rest>". */
  lemma SplitAtComma(head: string, rest: string)
    requires ',' !in head
    ensures Split(head + ", " + rest, ',') == [head] + Split(" " + rest, ',')
  {
    var tail := [','] + (" " + rest);
    assert head + ", " + rest == head + tail;
    SplitPrefix(head, tail, ',');
    SplitLeadingSeparator(" " + rest, ',');
    var pieces := Split(" " + rest, ',');
    assert ([[]] + pieces)[0] == [] && ([[]] + pieces)[1..] == pieces;
    assert head + [] == head;
  }

  lemma JoinTagsCons(pad: string, tags: seq<string>)
    requires |tags| >= 2
    ensures pad + JoinTags(tags) == pad + tags[0] + ", " + JoinTags(tags[1..])
    ensures [tags[0]] + tags[1..] == tags
  {
  }

  /** A well-formed tag behind whitespace contains no comma and strips to itself. */
  lemma PaddedTag(pad: string, t: string)
    requires forall c :: c in pad ==> IsSpace(c)
    requires WellFormedTag(t)
    ensures ',' !in pad + t && Strip(pad + t) == t
  {
    assert forall c :: c in pad ==> c != ',';
    StripSpacePrefix(pad, t);
    StripTrimmed(t);
  }

  lemma SplitWithoutSeparator(s: string, sep: char)
    requires sep !in s
    ensures Split(s, sep) == [s]
  {
    SplitPrefix(s, [], sep);
    assert s + [] == s;
  }

  /** The last tag of the cell, behind whitespace. */
  lemma CleanSplitLast(pad: string, t: string)
    requires forall c :: c in pad ==> IsSpace(c)
    requires WellFormedTag(t)
    ensures Clean(Split(pad + JoinTags([t]), ',')) == [t]
  {
    PaddedTag(pad, t);
    assert pad + JoinTags([t]) == pad + t;
    SplitWithoutSeparator(pad + t, ',');
    CleanCons(pad + t, []);
  }

  /** One tag followed by ", " and the rest of the cell. */
  lemma CleanSplitStep(pad: string, t: string, rest: string, ts: seq<string>)
    requires forall c :: c in pad ==> IsSpace(c)
    requires WellFormedTag(t)
    requires Clean(Split(" " + rest, ',')) == ts
    ensures Clean(Split(pad + t + ", " + rest, ',')) == [t] + ts
  {
    PaddedTag(pad, t);
    SplitAtComma(pad + t, rest);
    CleanConsTag(pad + t, Split(" " + rest, ','), t, ts);
  }

  lemma {:induction false} CleanSplitPadded(pad: string, tags: seq<string>)
    requires forall c :: c in pad ==> IsSpace(c)
    requires |tags| >= 1 && forall t :: t in tags ==> WellFormedTag(t)
    ensures Clean(Split(pad + JoinTags(tags), ',')) == tags
    decreases |tags|
  {
    assert WellFormedTag(tags[0]);
    if |tags| == 1 {
      assert tags == [tags[0]];
      CleanSplitLast(pad, tags[0]);
    } else {
      assert forall t :: t in tags[1..] ==> t in tags;
      CleanSplitPadded(" ", tags[1..]);
      CleanSplitStep(pad, tags[0], JoinTags(tags[1..]), tags[1..]);
      JoinTagsCons(pad, tags);
    }
  }

  /** Round trip of the tags cell: for tag texts as the scraper extracts
      them, splitting the joined cell recovers exactly those tags, in order. */
  lemma TagsRoundTrip(tags: seq<string>)
    requires forall t :: t in tags ==> WellFormedTag(t)
    ensures TagsOf(JoinTags(tags)) == tags
  {
    if tags == [] {
      EmptyCell();
    } else {
      var cell := JoinTags(tags);
      var pad: string := [];
      assert pad + cell == cell;
      CleanSplitPadded(pad, tags);
    }
  }

  /** Reading the tags of a cell and writing them back gives a cell with the
      same tags: the read is a normal form. */
  lemma TagsNormalForm(cell: string)
    ensures TagsOf(JoinTags(TagsOf(cell))) == TagsOf(cell)
  {
    TagsRoundTrip(TagsOf(cell));
  }

  /** An empty cell holds no tag. */
  lemma EmptyCell()
    ensures TagsOf([]) == []
  {
    var empty: string := [];
    var pieces := Split(empty, ',');
    assert pieces == [empty];
    assert |Strip(pieces[0])| == 0;
    assert pieces[1..] == [];
  }
}
