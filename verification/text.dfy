/** String operations with the meaning Python gives them in the quote app:
    whitespace stripping, ASCII lower-casing, literal substring search,
    splitting on a character, joining with a separator and the code-point
    order that `sorted` uses on strings. */
module Text {

  /** Python's `str.isspace` restricted to ASCII: space, \t \n \v \f \r and
      the four separators 0x1c-0x1f. */
  predicate IsSpace(c: char) {
    c == ' ' || (9 <= c as int <= 13) || (28 <= c as int <= 31)
  }

  /** Leading whitespace removed (`str.lstrip()`). */
  function TrimLeft(s: string): (r: string)
    ensures |r| <= |s| && r == s[|s| - |r|..]
    ensures forall i :: 0 <= i < |s| - |r| ==> IsSpace(s[i])
    ensures r == [] || !IsSpace(r[0])
  {
    if s != [] && IsSpace(s[0]) then TrimLeft(s[1..]) else s
  }

  /** Trailing whitespace removed (`str.rstrip()`). */
  function TrimRight(s: string): (r: string)
    ensures r <= s
    ensures forall i :: |r| <= i < |s| ==> IsSpace(s[i])
    ensures r == [] || !IsSpace(r[|r| - 1])
  {
    if s != [] && IsSpace(s[|s| - 1]) then TrimRight(s[..|s| - 1]) else s
  }

  /** Neither starts nor ends with whitespace. */
  predicate Trimmed(s: string) {
    s == [] || (!IsSpace(s[0]) && !IsSpace(s[|s| - 1]))
  }

  /** `r` is the slice of `s` starting at `i`, with only whitespace before
      and after it. */
  predicate SliceBetweenSpaces(s: string, r: string, i: int) {
    && 0 <= i <= |s| - |r|
    && r == s[i..i + |r|]
    && (forall k :: 0 <= k < i ==> IsSpace(s[k]))
    && (forall k :: i + |r| <= k < |s| ==> IsSpace(s[k]))
  }

  /** `str.strip()`: the longest slice of `s` without whitespace at either end. */
  function Strip(s: string): (r: string)
    ensures Trimmed(r)
    ensures |r| <= |s|
  {
    TrimRight(TrimLeft(s))
  }

  /** What `Strip` keeps is a slice of `s`, and everything it cuts off at
      either end is whitespace. */
  lemma StripIsSlice(s: string)
    ensures exists i :: SliceBetweenSpaces(s, Strip(s), i)
  {
    SliceOfSuffixPrefix(s, TrimLeft(s), Strip(s));
  }

  /** A prefix of a suffix of `s`, with only whitespace cut off at both
      ends, lies between spaces. */
  lemma SliceOfSuffixPrefix(s: string, left: string, r: string)
    requires |left| <= |s| && left == s[|s| - |left|..]
    requires forall k :: 0 <= k < |s| - |left| ==> IsSpace(s[k])
    requires r <= left
    requires forall j :: |r| <= j < |left| ==> IsSpace(left[j])
    ensures SliceBetweenSpaces(s, r, |s| - |left|)
  {
    var i := |s| - |left|;
    assert r == left[..|r|];
    forall k | i + |r| <= k < |s| ensures IsSpace(s[k]) {
      assert s[k] == left[k - i];
    }
  }

  /** The strip of a string holds only characters of the string. */
  lemma StripChars(s: string)
    ensures forall c :: c in Strip(s) ==> c in s
  {
    StripIsSlice(s);
    var i :| SliceBetweenSpaces(s, Strip(s), i);
    SliceChars(s, Strip(s), i);
  }

  lemma SliceChars(s: string, r: string, i: int)
    requires SliceBetweenSpaces(s, r, i)
    ensures forall c :: c in r ==> c in s
  {
    forall c | c in r ensures c in s {
      var k :| 0 <= k < |r| && r[k] == c;
      assert s[i + k] == c;
    }
  }

  /** A trimmed string is its own strip. */
  lemma StripTrimmed(s: string)
    requires Trimmed(s)
    ensures Strip(s) == s
  {
  }

  /** Whitespace in front of a string does not change its strip. */
  lemma StripSpacePrefix(pad: string, s: string)
    requires forall c :: c in pad ==> IsSpace(c)
    ensures Strip(pad + s) == Strip(s)
  {
    TrimLeftSpacePrefix(pad, s);
  }

  lemma {:induction false} TrimLeftSpacePrefix(pad: string, s: string)
    requires forall c :: c in pad ==> IsSpace(c)
    ensures TrimLeft(pad + s) == TrimLeft(s)
  {
    if pad != [] {
      assert pad[0] in pad;
      assert (pad + s)[1..] == pad[1..] + s;
      assert TrimLeft(pad + s) == TrimLeft(pad[1..] + s);
      TrimLeftSpacePrefix(pad[1..], s);
    } else {
      assert pad + s == s;
    }
  }

  /** ASCII lower-casing of one character. */
  function Lower(c: char): char {
    if 'A' <= c <= 'Z' then (c as int + 32) as char else c
  }

  /** ASCII lower-casing of a string, character by character. */
  function LowerStr(s: string): (r: string)
    ensures |r| == |s|
    ensures forall i :: 0 <= i < |r| ==> !('A' <= r[i] <= 'Z')
    ensures forall i :: 0 <= i < |s| && !('A' <= s[i] <= 'Z') ==> r[i] == s[i]
    ensures forall i :: 0 <= i < |s| && 'A' <= s[i] <= 'Z' ==> r[i] as int == s[i] as int + 32
  {
    seq(|s|, i requires 0 <= i < |s| => Lower(s[i]))
  }

  /** The needle occurs in the haystack starting at index i. */
  predicate OccursAt(haystack: string, needle: string, i: int) {
    0 <= i && i + |needle| <= |haystack| && haystack[i..i + |needle|] == needle
  }

  /** `needle in haystack`: the needle occurs as a contiguous slice. */
  predicate Contains(haystack: string, needle: string) {
    exists i :: 0 <= i <= |haystack| && OccursAt(haystack, needle, i)
  }

  /** Case-insensitive literal substring test. */
  predicate ContainsIgnoreCase(haystack: string, needle: string) {
    Contains(LowerStr(haystack), LowerStr(needle))
  }

  /** The empty needle occurs in every string, and a needle longer than the
      haystack occurs in none. */
  lemma ContainsIgnoreCaseBounds(haystack: string, needle: string)
    ensures needle == [] ==> ContainsIgnoreCase(haystack, needle)
    ensures ContainsIgnoreCase(haystack, needle) ==> |needle| <= |haystack|
  {
    if needle == [] {
      assert OccursAt(LowerStr(haystack), LowerStr(needle), 0);
    }
  }

  /** Two needles that differ only in ASCII case match the same strings. */
  lemma ContainsIgnoresCase(haystack: string, n1: string, n2: string)
    requires LowerStr(n1) == LowerStr(n2)
    ensures ContainsIgnoreCase(haystack, n1) == ContainsIgnoreCase(haystack, n2)
  {
  }

  /** `s.split(sep)`: the pieces between occurrences of `sep`; there is always
      at least one piece, and "" splits into [""]. */
  function Split(s: string, sep: char): (parts: seq<string>)
    ensures |parts| >= 1
    ensures forall p :: p in parts ==> sep !in p
  {
    if s == [] then [[]]
    else
      var rest := Split(s[1..], sep);
      if s[0] == sep then [[]] + rest else [[s[0]] + rest[0]] + rest[1..]
  }

  /** A leading separator splits off an empty first piece. */
  lemma SplitLeadingSeparator(s: string, sep: char)
    ensures Split([sep] + s, sep) == [[]] + Split(s, sep)
  {
    assert ([sep] + s)[1..] == s;
  }

  /** `sep.join(parts)`. */
  function Join(parts: seq<string>, sep: string): string {
    if |parts| == 0 then []
    else if |parts| == 1 then parts[0]
    else parts[0] + sep + Join(parts[1..], sep)
  }

  /** Prepending a separator-free string only extends the first piece. */
  lemma {:induction false} SplitPrefix(a: string, t: string, sep: char)
    requires sep !in a
    ensures Split(a + t, sep) == [a + Split(t, sep)[0]] + Split(t, sep)[1..]
  {
    if a == [] {
      var parts := Split(t, sep);
      assert a + t == t && a + parts[0] == parts[0];
      assert [parts[0]] + parts[1..] == parts;
    } else {
      assert (a + t)[1..] == a[1..] + t;
      SplitPrefix(a[1..], t, sep);
      assert [a[0]] + (a[1..] + Split(t, sep)[0]) == a + Split(t, sep)[0];
    }
  }

  /** Joining the pieces of a split with the separator gives back the string. */
  lemma {:induction false} JoinSplit(s: string, sep: char)
    ensures Join(Split(s, sep), [sep]) == s
  {
    if s != [] {
      var rest := Split(s[1..], sep);
      JoinSplit(s[1..], sep);
      if s[0] == sep {
        assert ([[]] + rest)[1..] == rest;
      } else {
        var parts := [[s[0]] + rest[0]] + rest[1..];
        if |rest| == 1 {
          assert parts == [[s[0]] + rest[0]];
        } else {
          assert parts[1..] == rest[1..];
          assert Join(rest, [sep]) == rest[0] + [sep] + Join(rest[1..], [sep]);
        }
      }
    }
  }

  /** Python's `<` on str: lexicographic order on code points, where a proper
      prefix comes first. */
  predicate Less(a: string, b: string) {
    if a == [] then b != []
    else if b == [] then false
    else if a[0] != b[0] then a[0] < b[0]
    else Less(a[1..], b[1..])
  }

  lemma {:induction false} LessIrreflexive(a: string)
    ensures !Less(a, a)
  {
    if a != [] {
      LessIrreflexive(a[1..]);
    }
  }

  lemma {:induction false} LessTransitive(a: string, b: string, c: string)
    requires Less(a, b) && Less(b, c)
    ensures Less(a, c)
  {
    if a != [] && a[0] == b[0] && b[0] == c[0] {
      LessTransitive(a[1..], b[1..], c[1..]);
    }
  }

  lemma {:induction false} LessTotal(a: string, b: string)
    requires a != b
    ensures Less(a, b) || Less(b, a)
  {
    if a != [] && b != [] && a[0] == b[0] {
      assert a == [a[0]] + a[1..] && b == [b[0]] + b[1..];
      LessTotal(a[1..], b[1..]);
    }
  }

  /** Each element strictly below every later one: sorted and duplicate-free. */
  predicate StrictlyAscending(xs: seq<string>) {
    forall i, j :: 0 <= i < j < |xs| ==> Less(xs[i], xs[j])
  }

  /** Two strictly ascending lists with the same elements are equal, so a
      strictly ascending list is determined by its set of elements. */
  lemma {:induction false} AscendingUnique(a: seq<string>, b: seq<string>)
    requires StrictlyAscending(a) && StrictlyAscending(b)
    requires forall x :: x in a <==> x in b
    ensures a == b
  {
    if a != [] {
      assert a[0] in a;
    }
    if b != [] {
      assert b[0] in b;
    }
    if a != [] && b != [] {
      if a[0] != b[0] {
        assert a[0] in a && b[0] in b;
        var i :| 0 <= i < |b| && b[i] == a[0];
        var j :| 0 <= j < |a| && a[j] == b[0];
        assert Less(b[0], a[0]) && Less(a[0], b[0]);
        LessTransitive(a[0], b[0], a[0]);
        LessIrreflexive(a[0]);
      }
      forall x ensures x in a[1..] <==> x in b[1..] {
        if x in a[1..] {
          var k :| 1 <= k < |a| && a[k] == x;
          LessIrreflexive(x);
          assert x in b && x != b[0];
        }
        if x in b[1..] {
          var k :| 1 <= k < |b| && b[k] == x;
          LessIrreflexive(x);
          assert x in a && x != a[0];
        }
      }
      AscendingUnique(a[1..], b[1..]);
      assert a == [a[0]] + a[1..] && b == [b[0]] + b[1..];
    }
  }
}
