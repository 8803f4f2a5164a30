/**
  Header reconciliation of a worksheet: the column names a sheet already has,
  the names a report wants, and the header row written back (`mergeHeader`).
 */
module Headers {

  /** No column name occurs twice. */
  predicate Distinct(s: seq<string>) {
    forall i, j :: 0 <= i < j < |s| ==> s[i] != s[j]
  }

  /** The set of names a header row holds. */
  function Names(s: seq<string>): set<string> {
    set h | h in s
  }

  /** The wanted names that the current header lacks, in the order they are
      wanted: `newHeaders.filter(header => !currentHeaders.includes(header))`. */
  function Diff(newHeaders: seq<string>, current: seq<string>): (diff: seq<string>)
    ensures forall h :: h in diff <==> h in newHeaders && h !in current
    ensures |diff| <= |newHeaders|
    ensures diff == [] <==> forall h :: h in newHeaders ==> h in current
  {
    if newHeaders == [] then []
    else if newHeaders[0] in current then Diff(newHeaders[1..], current)
    else [newHeaders[0]] + Diff(newHeaders[1..], current)
  }

  /** The header row written back: the current header followed by the missing names. */
  function Merge(current: seq<string>, newHeaders: seq<string>): (merged: seq<string>)
    ensures |merged| == |current| + |Diff(newHeaders, current)|
    ensures merged[..|current|] == current
    ensures forall h :: h in newHeaders ==> h in merged
    ensures forall h :: h in merged ==> h in current || h in newHeaders
  {
    current + Diff(newHeaders, current)
  }

  /** Filtering distributes over concatenation: the missing names keep their order. */
  lemma {:induction false} DiffConcat(a: seq<string>, b: seq<string>, current: seq<string>)
    ensures Diff(a + b, current) == Diff(a, current) + Diff(b, current)
  {
    if a == [] {
      assert a + b == b;
    } else {
      assert (a + b)[0] == a[0];
      assert (a + b)[1..] == a[1..] + b;
      DiffConcat(a[1..], b, current);
    }
  }

  /** A single wanted name is kept exactly when it is missing. With DiffConcat this
      determines Diff completely. */
  lemma DiffSingle(h: string, current: seq<string>)
    ensures Diff([h], current) == if h in current then [] else [h]
  {
    assert [h][1..] == [];
  }

  /** Names that the wanted list does not mention play no part in the filter. */
  lemma {:induction false} DiffIgnoresUnwanted(newHeaders: seq<string>, current: seq<string>, extra: seq<string>)
    requires forall h :: h in extra ==> h !in newHeaders
    ensures Diff(newHeaders, current + extra) == Diff(newHeaders, current)
  {
    if newHeaders != [] {
      assert newHeaders[0] in current + extra <==> newHeaders[0] in current;
      DiffIgnoresUnwanted(newHeaders[1..], current, extra);
    }
  }

  /** A duplicate-free wanted list gives a duplicate-free diff. */
  lemma {:induction false} DiffDistinct(newHeaders: seq<string>, current: seq<string>)
    requires Distinct(newHeaders)
    ensures Distinct(Diff(newHeaders, current))
  {
    if newHeaders != [] {
      var rest := newHeaders[1..];
      assert Distinct(rest) by {
        forall i, j | 0 <= i < j < |rest| ensures rest[i] != rest[j] {
          assert rest[i] == newHeaders[i + 1] && rest[j] == newHeaders[j + 1];
        }
      }
      DiffDistinct(rest, current);
      assert newHeaders[0] !in rest by {
        forall i | 0 <= i < |rest| ensures rest[i] != newHeaders[0] {
          assert rest[i] == newHeaders[i + 1];
        }
      }
    }
  }

  /** Merging the same names a second time adds nothing and leaves the header as it is. */
  lemma MergeIdempotent(current: seq<string>, newHeaders: seq<string>)
    ensures Diff(newHeaders, Merge(current, newHeaders)) == []
    ensures Merge(Merge(current, newHeaders), newHeaders) == Merge(current, newHeaders)
  {
    var merged := Merge(current, newHeaders);
    assert merged + [] == merged;
  }

  /** A duplicate-free header stays duplicate-free when duplicate-free names are merged in. */
  lemma MergeDistinct(current: seq<string>, newHeaders: seq<string>)
    requires Distinct(current) && Distinct(newHeaders)
    ensures Distinct(Merge(current, newHeaders))
  {
    var diff := Diff(newHeaders, current);
    DiffDistinct(newHeaders, current);
    var merged := current + diff;
    forall i, j | 0 <= i < j < |merged| ensures merged[i] != merged[j] {
      if j >= |current| {
        assert merged[j] == diff[j - |current|];
        if i >= |current| {
          assert merged[i] == diff[i - |current|];
        } else {
          assert merged[i] in current;
        }
      }
    }
  }

  /** A duplicate-free sequence has as many names as elements. */
  lemma {:induction false} DistinctCard(s: seq<string>)
    requires Distinct(s)
    ensures |Names(s)| == |s|
  {
    if s != [] {
      var rest := s[1..];
      assert Distinct(rest) by {
        forall i, j | 0 <= i < j < |rest| ensures rest[i] != rest[j] {
          assert rest[i] == s[i + 1] && rest[j] == s[j + 1];
        }
      }
      DistinctCard(rest);
      assert s[0] !in rest by {
        forall i | 0 <= i < |rest| ensures rest[i] != s[0] {
          assert rest[i] == s[i + 1];
        }
      }
      assert Names(s) == {s[0]} + Names(rest) by {
        assert s == [s[0]] + rest;
      }
    }
  }

  /** With duplicate-free inputs the merged header holds exactly the union of the two
      name sets, once each. */
  lemma MergeIsUnion(current: seq<string>, newHeaders: seq<string>)
    requires Distinct(current) && Distinct(newHeaders)
    ensures Names(Merge(current, newHeaders)) == Names(current) + Names(newHeaders)
    ensures |Merge(current, newHeaders)| == |Names(current) + Names(newHeaders)|
  {
    MergeDistinct(current, newHeaders);
    DistinctCard(Merge(current, newHeaders));
  }

  /** Two reports with disjoint field lists merged one after the other into an empty
      header: the header is the first list followed by the second, and its length is
      the size of the union of the two field sets. */
  lemma MergeDisjointRows(first: seq<string>, second: seq<string>)
    requires Distinct(first) && Distinct(second)
    requires forall h :: h in first ==> h !in second
    ensures Merge(Merge([], first), second) == first + second
    ensures |Merge(Merge([], first), second)| == |Names(first) + Names(second)|
  {
    assert Diff(first, []) == first by {
      DiffNothingPresent(first);
    }
    assert Merge([], first) == first;
    DiffIgnoresUnwanted(second, [], first);
    assert [] + first == first;
    assert Diff(second, []) == second by {
      DiffNothingPresent(second);
    }
    MergeDistinct(first, second);
    DistinctCard(first + second);
    assert Names(first + second) == Names(first) + Names(second);
  }

  /** Nothing is filtered out of a list merged into an empty header. */
  lemma {:induction false} DiffNothingPresent(newHeaders: seq<string>)
    ensures Diff(newHeaders, []) == newHeaders
  {
    if newHeaders != [] {
      DiffNothingPresent(newHeaders[1..]);
      assert newHeaders == [newHeaders[0]] + newHeaders[1..];
    }
  }

  /** Merging a name first and then the names after it gives the same header as
      merging them all at once, provided the later names do not repeat it. */
  lemma MergeFirstThenRest(current: seq<string>, h: string, rest: seq<string>)
    requires h !in rest
    ensures Merge(if h in current then current else current + [h], rest) == Merge(current, [h] + rest)
  {
    DiffConcat([h], rest, current);
    DiffSingle(h, current);
    if h !in current {
      DiffIgnoresUnwanted(rest, current, [h]);
      assert (current + [h]) + Diff(rest, current) == current + ([h] + Diff(rest, current));
    }
  }

  /** Any leading run of the current header stays where it is. A corollary of Merge's
      prefix clause, stated for a prefix shorter than the current header. */
  lemma MergeKeepsPrefix(current: seq<string>, newHeaders: seq<string>, n: nat)
    requires n <= |current|
    ensures |Merge(current, newHeaders)| >= n
    ensures Merge(current, newHeaders)[..n] == current[..n]
  {
  }
}
