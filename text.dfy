/**
 * The handful of Go `strings` operations that main.go relies on, over strings
 * modelled as sequences of runes.
 */
module Text {
  import opened Wrappers

  /** Go's unicode.IsSpace: the runes TrimSpace, Fields and fmt's scanner treat as white space. */
  predicate IsSpace(c: char)
  {
    ('\t' <= c <= '\r') || c == ' ' || c == '\U{0085}' || c == '\U{00A0}' || c == '\U{1680}'
    || ('\U{2000}' <= c <= '\U{200A}') || c == '\U{2028}' || c == '\U{2029}' || c == '\U{202F}'
    || c == '\U{205F}' || c == '\U{3000}'
  }

  predicate NotSpace(c: char)
  {
    !IsSpace(c)
  }

  /** The cut set "\"'" that main passes to strings.Trim. */
  predicate IsQuote(c: char)
  {
    c == '"' || c == '\''
  }

  /** Length of the longest prefix of `s` whose runes all satisfy `drop`. */
  function LeadingCount(s: string, drop: char -> bool): (n: nat)
    ensures n <= |s|
    ensures forall k :: 0 <= k < n ==> drop(s[k])
    ensures n < |s| ==> !drop(s[n])
  {
    if s == [] || !drop(s[0]) then 0 else 1 + LeadingCount(s[1..], drop)
  }

  /** The longest dropped prefix has length `m` when `m` runes are dropped and the next one is kept. */
  lemma LeadingCountExact(s: string, drop: char -> bool, m: nat)
    requires m <= |s| && (forall k :: 0 <= k < m ==> drop(s[k])) && (m < |s| ==> !drop(s[m]))
    ensures LeadingCount(s, drop) == m
  {
  }

  /** Length of the longest suffix of `s` whose runes all satisfy `drop`. */
  function TrailingCount(s: string, drop: char -> bool): (n: nat)
    ensures n <= |s|
    ensures forall k :: |s| - n <= k < |s| ==> drop(s[k])
    ensures n < |s| ==> !drop(s[|s| - 1 - n])
  {
    if s == [] || !drop(s[|s| - 1]) then 0 else 1 + TrailingCount(s[..|s| - 1], drop)
  }

  /** strings.TrimFunc: `s` without its leading and trailing runes that satisfy `drop`. */
  function TrimBy(s: string, drop: char -> bool): (r: string)
    ensures |r| <= |s|
    ensures r == [] <==> forall k :: 0 <= k < |s| ==> drop(s[k])
    ensures r != [] ==> !drop(r[0]) && !drop(r[|r| - 1])
    ensures LeadingCount(s, drop) + |r| <= |s|
    ensures r == s[LeadingCount(s, drop)..LeadingCount(s, drop) + |r|]
    ensures forall k :: LeadingCount(s, drop) + |r| <= k < |s| ==> drop(s[k])
  {
    var lo := LeadingCount(s, drop);
    if lo == |s| then
      []
    else
      var hi := |s| - TrailingCount(s, drop);
      s[lo..hi]
  }

  /** No white space at either end. */
  predicate Trimmed(s: string)
  {
    s != [] ==> !IsSpace(s[0]) && !IsSpace(s[|s| - 1])
  }

  /** strings.TrimSpace. */
  function TrimSpace(s: string): (r: string)
    ensures Trimmed(r)
  {
    TrimBy(s, IsSpace)
  }

  /** strings.Trim(s, "\"'"). */
  function TrimQuotes(s: string): (r: string)
    ensures r != [] ==> !IsQuote(r[0]) && !IsQuote(r[|r| - 1])
  {
    TrimBy(s, IsQuote)
  }

  lemma {:induction false} TrimByIdempotent(s: string, drop: char -> bool)
    ensures TrimBy(TrimBy(s, drop), drop) == TrimBy(s, drop)
  {
    var r := TrimBy(s, drop);
    if r != [] {
      assert LeadingCount(r, drop) == 0;
      assert TrailingCount(r, drop) == 0;
      assert r[0..|r|] == r;
    }
  }

  /** A string that already starts and ends with a kept rune is its own trim. */
  lemma TrimOfTrimmed(s: string, drop: char -> bool)
    requires s != [] && !drop(s[0]) && !drop(s[|s| - 1])
    ensures TrimBy(s, drop) == s
  {
    assert LeadingCount(s, drop) == 0;
    assert TrailingCount(s, drop) == 0;
    assert s[0..|s|] == s;
  }

  /** strings.TrimSpace leaves a string without white space at its ends as it is. */
  lemma TrimSpaceOfTrimmed(s: string)
    requires Trimmed(s)
    ensures TrimSpace(s) == s
  {
    if s != [] {
      TrimOfTrimmed(s, IsSpace);
    }
  }

  /** `pat` occurs in `s` starting at index `k`. */
  predicate OccursAt(s: string, pat: string, k: nat)
  {
    k + |pat| <= |s| && s[k..k + |pat|] == pat
  }

  function IndexFrom(s: string, pat: string, from: nat): (r: Option<nat>)
    requires from <= |s|
    ensures r.Some? ==> from <= r.value && OccursAt(s, pat, r.value)
                        && forall k :: from <= k < r.value ==> !OccursAt(s, pat, k)
    ensures r.None? ==> forall k :: from <= k <= |s| ==> !OccursAt(s, pat, k)
    decreases |s| - from
  {
    if OccursAt(s, pat, from) then Some(from)
    else if from + |pat| >= |s| then None
    else IndexFrom(s, pat, from + 1)
  }

  /** `k` is the first position at which `pat` occurs in `s`. */
  predicate FirstOccurrence(s: string, pat: string, k: nat)
  {
    OccursAt(s, pat, k) && forall j :: 0 <= j < k ==> !OccursAt(s, pat, j)
  }

  /** `pat` occurs nowhere in `s`. */
  predicate NoOccurrence(s: string, pat: string)
  {
    forall k :: 0 <= k <= |s| ==> !OccursAt(s, pat, k)
  }

  /** strings.Index: the first position at which `pat` occurs in `s`, if any. */
  function IndexOf(s: string, pat: string): (r: Option<nat>)
    ensures r.Some? ==> OccursAt(s, pat, r.value) && forall k :: 0 <= k < r.value ==> !OccursAt(s, pat, k)
    ensures r.None? ==> forall k :: 0 <= k <= |s| ==> !OccursAt(s, pat, k)
  {
    IndexFrom(s, pat, 0)
  }

  /** strings.Index finds exactly the first occurrence, and nothing when there is none. */
  lemma IndexOfFirst(s: string, pat: string)
    ensures forall k: nat :: FirstOccurrence(s, pat, k) ==> IndexOf(s, pat) == Some(k)
    ensures NoOccurrence(s, pat) <==> IndexOf(s, pat).None?
  {
  }

  /** A pattern whose last rune is missing before `k + |pat| - 1` cannot start before `k`. */
  lemma NoEarlierOccurrence(s: string, pat: string, k: nat)
    requires pat != [] && k + |pat| - 1 <= |s| && pat[|pat| - 1] !in s[..k + |pat| - 1]
    ensures forall j :: 0 <= j < k ==> !OccursAt(s, pat, j)
  {
    forall m | |pat| - 1 <= m < k + |pat| - 1 ensures s[m] != pat[|pat| - 1] {
      assert s[..k + |pat| - 1][m] == s[m];
    }
    forall j | 0 <= j < k ensures !OccursAt(s, pat, j) {
      assert j + |pat| <= |s| ==> s[j..j + |pat|][|pat| - 1] == s[j + |pat| - 1];
    }
  }

  /** strings.Contains. */
  predicate Contains(s: string, pat: string)
  {
    IndexOf(s, pat).Some?
  }

  lemma ContainsRune(s: string, c: char)
    ensures Contains(s, [c]) <==> c in s
  {
    if c in s {
      var k :| 0 <= k < |s| && s[k] == c;
      assert s[k..k + 1] == [c];
      assert OccursAt(s, [c], k);
    }
    if Contains(s, [c]) {
      var k := IndexOf(s, [c]).value;
      assert s[k..k + 1] == [c];
      assert s[k] == c;
    }
  }

  /** strings.HasPrefix. */
  predicate HasPrefix(s: string, p: string)
  {
    |p| <= |s| && s[..|p|] == p
  }

  /** The first element of strings.Fields(s), or "" when `s` is all white space. */
  function FirstField(s: string): (r: string)
    ensures r == [] <==> forall k :: 0 <= k < |s| ==> IsSpace(s[k])
    ensures forall k :: 0 <= k < |r| ==> !IsSpace(r[k])
    ensures LeadingCount(s, IsSpace) + |r| <= |s|
    ensures r == s[LeadingCount(s, IsSpace)..LeadingCount(s, IsSpace) + |r|]
    ensures LeadingCount(s, IsSpace) + |r| < |s| ==> IsSpace(s[LeadingCount(s, IsSpace) + |r|])
  {
    var lo := LeadingCount(s, IsSpace);
    var t := s[lo..];
    var n := LeadingCount(t, NotSpace);
    assert n > 0 <== lo < |s|;
    t[..n]
  }

  /** strings.Split(s, string(sep)): always at least one part. */
  function Split(s: string, sep: char): (parts: seq<string>)
    ensures |parts| >= 1
    ensures forall i :: 0 <= i < |parts| ==> sep !in parts[i]
  {
    if s == [] then [[]]
    else
      var rest := Split(s[1..], sep);
      if s[0] == sep then [[]] + rest
      else [[s[0]] + rest[0]] + rest[1..]
  }

  /** strings.Join. */
  function Join(parts: seq<string>, sep: string): string
  {
    if |parts| == 0 then []
    else if |parts| == 1 then parts[0]
    else parts[0] + sep + Join(parts[1..], sep)
  }

  /** Joining the parts of a split with the separator gives back the original text. */
  lemma {:induction false} JoinSplit(s: string, sep: char)
    ensures Join(Split(s, sep), [sep]) == s
  {
    if s != [] {
      var rest := Split(s[1..], sep);
      JoinSplit(s[1..], sep);
      if s[0] == sep {
        assert Split(s, sep) == [[]] + rest;
        assert ([[]] + rest)[1..] == rest;
      } else {
        var parts := [[s[0]] + rest[0]] + rest[1..];
        assert Split(s, sep) == parts;
        if |rest| == 1 {
          assert rest == [rest[0]];
        } else {
          assert parts[1..] == rest[1..];
          assert Join(rest, [sep]) == rest[0] + [sep] + Join(rest[1..], [sep]);
        }
      }
    }
  }

  /** Splitting a join of separator-free parts gives back the parts. */
  lemma {:induction false} SplitJoin(parts: seq<string>, sep: char)
    requires |parts| >= 1
    requires forall i :: 0 <= i < |parts| ==> sep !in parts[i]
    ensures Split(Join(parts, [sep]), sep) == parts
  {
    if |parts| == 1 {
      SplitSeparatorFree(parts[0], sep);
    } else {
      SplitJoin(parts[1..], sep);
      SplitPrefix(parts[0], sep, Join(parts[1..], [sep]));
      assert parts == [parts[0]] + parts[1..];
    }
  }

  lemma {:induction false} SplitSeparatorFree(s: string, sep: char)
    requires sep !in s
    ensures Split(s, sep) == [s]
  {
    if s != [] {
      SplitSeparatorFree(s[1..], sep);
      assert [s[0]] + s[1..] == s;
    }
  }

  lemma {:induction false} SplitPrefix(a: string, sep: char, b: string)
    requires sep !in a
    ensures Split(a + [sep] + b, sep) == [a] + Split(b, sep)
  {
    if a == [] {
      assert a + [sep] + b == [sep] + b;
      assert ([sep] + b)[1..] == b;
    } else {
      var s := a + [sep] + b;
      assert s[0] == a[0];
      assert s[1..] == a[1..] + [sep] + b;
      SplitPrefix(a[1..], sep, b);
      assert [a[0]] + a[1..] == a;
    }
  }
}
