/** The row type of the quote corpus and the sequence operations shared by the
    merge and the query view: order-preserving filtering (a boolean-mask
    selection on a DataFrame, or a list comprehension with a condition) and
    the set of dedup keys. */
module Records {

  datatype Option<T> = None | Some(value: T)

  /** One row of the corpus. `quote` is the text and the dedup key; `tags` is
      the single tags cell, the tag texts joined by ", ". */
  datatype Record = Record(quote: string, author: string, tags: string)

  /** `a` can be obtained from `b` by deleting elements, keeping the order. */
  predicate IsSubsequence<T(==)>(a: seq<T>, b: seq<T>)
    decreases |b|
  {
    a == [] ||
    (b != [] &&
     ((a[|a| - 1] == b[|b| - 1] && IsSubsequence(a[..|a| - 1], b[..|b| - 1])) ||
      IsSubsequence(a, b[..|b| - 1])))
  }

  lemma {:induction false} IsSubsequenceReflexive<T>(s: seq<T>)
    ensures IsSubsequence(s, s)
  {
    if s != [] {
      IsSubsequenceReflexive(s[..|s| - 1]);
    }
  }

  /** The rows of `s` that satisfy `p`, in their order in `s`. */
  function Where(s: seq<Record>, p: Record -> bool): (r: seq<Record>)
    ensures IsSubsequence(r, s)
    ensures forall x :: multiset(r)[x] == if p(x) then multiset(s)[x] else 0
    ensures forall x :: x in r <==> x in s && p(x)
    ensures |r| <= |s|
  {
    if s == [] then []
    else
      var init, last := s[..|s| - 1], s[|s| - 1];
      assert s == init + [last];
      var w := Where(init, p);
      if p(last) then
        assert (w + [last])[..|w|] == w;
        w + [last]
      else w
  }

  lemma {:induction false} IsSubsequenceTransitive(a: seq<Record>, b: seq<Record>, c: seq<Record>)
    requires IsSubsequence(a, b) && IsSubsequence(b, c)
    ensures IsSubsequence(a, c)
    decreases |c|
  {
    if a != [] {
      var b', c' := b[..|b| - 1], c[..|c| - 1];
      if IsSubsequence(b, c') {
        IsSubsequenceTransitive(a, b, c');
      } else {
        var a' := a[..|a| - 1];
        if a[|a| - 1] == b[|b| - 1] && IsSubsequence(a', b') {
          IsSubsequenceTransitive(a', b', c');
        } else {
          IsSubsequenceTransitive(a, b', c');
        }
      }
    }
  }

  /** A subsequence holds no element more often than the sequence. */
  lemma {:induction false} SubsequenceMultiset(a: seq<Record>, b: seq<Record>)
    requires IsSubsequence(a, b)
    ensures multiset(a) <= multiset(b)
    decreases |b|
  {
    if a != [] {
      var a', b' := a[..|a| - 1], b[..|b| - 1];
      assert b == b' + [b[|b| - 1]];
      if a[|a| - 1] == b[|b| - 1] && IsSubsequence(a', b') {
        SubsequenceMultiset(a', b');
        assert a == a' + [a[|a| - 1]];
      } else {
        SubsequenceMultiset(a, b');
      }
    }
  }

  /** Keeps, of each element, either every occurrence in `s` or none. */
  ghost predicate AllOrNone(r: seq<Record>, s: seq<Record>) {
    forall x :: multiset(r)[x] == 0 || multiset(r)[x] == multiset(s)[x]
  }

  /** A subsequence that keeps all or none of the occurrences of each element
      is fixed by the elements it keeps: two selections from one sequence
      that keep the same elements are equal. */
  lemma {:induction false} SameSelection(s: seq<Record>, r1: seq<Record>, r2: seq<Record>)
    requires IsSubsequence(r1, s) && AllOrNone(r1, s)
    requires IsSubsequence(r2, s) && AllOrNone(r2, s)
    requires multiset(r1) == multiset(r2)
    ensures r1 == r2
    decreases |s|
  {
    if s == [] {
      assert r1 == [] && r2 == [];
    } else {
      var init, last := s[..|s| - 1], s[|s| - 1];
      assert s == init + [last];
      if multiset(r1)[last] > 0 {
        var r1' := DropLast(init, last, r1);
        var r2' := DropLast(init, last, r2);
        SameSelection(init, r1', r2');
      } else {
        KeepsNoLast(init, last, r1);
        KeepsNoLast(init, last, r2);
        SameSelection(init, r1, r2);
      }
    }
  }

  /** A selection keeping every occurrence of the last element ends with it. */
  lemma DropLast(init: seq<Record>, last: Record, r: seq<Record>) returns (r': seq<Record>)
    requires IsSubsequence(r, init + [last]) && AllOrNone(r, init + [last])
    requires multiset(r)[last] > 0
    ensures r == r' + [last] && multiset(r') == multiset(r) - multiset{last}
    ensures IsSubsequence(r', init) && AllOrNone(r', init)
  {
    var s := init + [last];
    assert s[..|s| - 1] == init;
    if IsSubsequence(r, init) {
      SubsequenceMultiset(r, init);
      assert false;
    }
    r' := r[..|r| - 1];
    assert r == r' + [last];
    assert multiset(s) == multiset(init) + multiset{last};
    assert multiset(r) == multiset(r') + multiset{last};
    assert multiset(r)[last] == multiset(s)[last];
    forall x ensures multiset(r')[x] == 0 || multiset(r')[x] == multiset(init)[x] {
      if x != last {
        assert multiset(r')[x] == multiset(r)[x] && multiset(init)[x] == multiset(s)[x];
      }
    }
  }

  /** A selection keeping no occurrence of the last element is a selection
      from the rest. */
  lemma KeepsNoLast(init: seq<Record>, last: Record, r: seq<Record>)
    requires IsSubsequence(r, init + [last]) && AllOrNone(r, init + [last])
    requires multiset(r)[last] == 0
    ensures IsSubsequence(r, init) && AllOrNone(r, init)
  {
    var s := init + [last];
    assert s[..|s| - 1] == init;
    if r != [] {
      assert r[|r| - 1] in r;
    }
  }

  /** The dedup keys (quote texts) occurring in a corpus. */
  function Keys(s: seq<Record>): set<string> {
    set r | r in s :: r.quote
  }

  lemma KeysAppend(a: seq<Record>, b: seq<Record>)
    ensures Keys(a + b) == Keys(a) + Keys(b)
    ensures Keys(b) == {} <==> b == []
  {
    if b != [] {
      assert b[0] in b && b[0].quote in Keys(b);
    }
  }

  /** No two rows share a quote text. */
  predicate NoDupKeys(s: seq<Record>) {
    forall i, j :: 0 <= i < j < |s| ==> s[i].quote != s[j].quote
  }

  /** A duplicate-free corpus has exactly one row per key. */
  lemma {:induction false} NoDupKeysCount(s: seq<Record>)
    requires NoDupKeys(s)
    ensures |Keys(s)| == |s|
  {
    if s != [] {
      var init, last := s[..|s| - 1], s[|s| - 1];
      assert s == init + [last];
      assert Keys(s) == Keys(init) + {last.quote};
      assert forall r :: r in init ==> r.quote != last.quote;
      NoDupKeysCount(init);
    }
  }
}
