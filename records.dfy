/**
  A plain JavaScript object as the report code uses it: an ordered list of
  (key, value) pairs, keys in the order they were first created. Assigning an
  existing key overwrites its value where it stands; assigning a new key
  appends it. Object spread (`{...a, ...b}`) assigns b's pairs onto a copy of a,
  in b's key order.
 */
module Records {
  import opened Headers

  /** The scalar values a report field can hold. Numbers are JavaScript floats in
      the source; an integer stands in for them. */
  datatype Scalar = Undefined | Null | Bool(b: bool) | Num(n: int) | Str(s: string)

  datatype Option<+T> = None | Some(value: T)

  /** An ordered object; the keys in their own order are what `Object.keys` returns. */
  type Entries<V> = seq<(string, V)>

  type Record = Entries<Scalar>

  function Keys<V>(r: Entries<V>): (ks: seq<string>)
    ensures |ks| == |r|
  {
    if r == [] then [] else [r[0].0] + Keys(r[1..])
  }

  /** The key of each position. */
  lemma {:induction false} KeyAt<V>(r: Entries<V>, i: nat)
    requires i < |r|
    ensures Keys(r)[i] == r[i].0
  {
    if i > 0 {
      KeyAt(r[1..], i - 1);
    }
  }

  /** An object never holds the same key twice. */
  predicate UniqueKeys<V>(r: Entries<V>) {
    Distinct(Keys(r))
  }

  /** Property read `r[k]`: the value stored under k, if k is present. */
  function Lookup<V>(r: Entries<V>, k: string): (v: Option<V>)
    ensures v.Some? <==> k in Keys(r)
  {
    if r == [] then None
    else if r[0].0 == k then Some(r[0].1)
    else Lookup(r[1..], k)
  }

  /** Property assignment `r[k] = v`. */
  function Put(r: Record, k: string, v: Scalar): (r': Record)
    ensures Keys(r') == if k in Keys(r) then Keys(r) else Keys(r) + [k]
    ensures k !in Keys(r) ==> r' == r + [(k, v)]
    ensures Lookup(r', k) == Some(v)
    ensures forall k' :: k' != k ==> Lookup(r', k') == Lookup(r, k')
  {
    if r == [] then [(k, v)]
    else if r[0].0 == k then [(k, v)] + r[1..]
    else [r[0]] + Put(r[1..], k, v)
  }

  /** Object spread `{...r, ...s}`: every pair of s assigned onto r, in order. */
  function Spread(r: Record, s: Record): (r': Record)
    requires UniqueKeys(s)
    ensures Keys(r') == Merge(Keys(r), Keys(s))
    ensures forall k :: Lookup(r', k) == if k in Keys(s) then Lookup(s, k) else Lookup(r, k)
    decreases |s|
  {
    if s == [] then r
    else
      UniqueTail(s);
      var r' := Spread(Put(r, s[0].0, s[0].1), s[1..]);
      SpreadStepKeys(r, s);
      SpreadStepLookup(r, s, r');
      r'
  }

  /** The key order after assigning the first pair of s, then spreading the rest. */
  lemma SpreadStepKeys(r: Record, s: Record)
    requires UniqueKeys(s) && s != []
    ensures Merge(Keys(Put(r, s[0].0, s[0].1)), Keys(s[1..])) == Merge(Keys(r), Keys(s))
  {
    UniqueTail(s);
    assert Keys(s) == [s[0].0] + Keys(s[1..]);
    MergeFirstThenRest(Keys(r), s[0].0, Keys(s[1..]));
  }

  /** The values after assigning the first pair of s, then spreading the rest. */
  lemma SpreadStepLookup(r: Record, s: Record, r': Record)
    requires UniqueKeys(s) && s != [] && UniqueKeys(s[1..])
    requires forall k :: Lookup(r', k) == if k in Keys(s[1..]) then Lookup(s[1..], k) else Lookup(Put(r, s[0].0, s[0].1), k)
    ensures forall k :: Lookup(r', k) == if k in Keys(s) then Lookup(s, k) else Lookup(r, k)
  {
    UniqueTail(s);
    assert Keys(s) == [s[0].0] + Keys(s[1..]);
    forall k ensures Lookup(r', k) == if k in Keys(s) then Lookup(s, k) else Lookup(r, k) {
      if k == s[0].0 {
        assert Lookup(s, k) == Some(s[0].1);
      } else {
        assert Lookup(s, k) == Lookup(s[1..], k);
      }
    }
  }

  /** Dropping the first pair of an object leaves an object without that key. */
  lemma UniqueTail<V>(s: Entries<V>)
    requires UniqueKeys(s) && s != []
    ensures UniqueKeys(s[1..])
    ensures s[0].0 !in Keys(s[1..])
  {
    var ks, rest := Keys(s), Keys(s[1..]);
    assert ks == [s[0].0] + rest;
    forall i, j | 0 <= i < j < |rest| ensures rest[i] != rest[j] {
      assert rest[i] == ks[i + 1] && rest[j] == ks[j + 1];
    }
    forall i | 0 <= i < |rest| ensures rest[i] != s[0].0 {
      assert rest[i] == ks[i + 1] && ks[0] == s[0].0;
    }
  }

  /** Assigning a key that only the last pair holds overwrites that pair where it
      stands. Two consecutive assignments to a new property leave exactly this. */
  lemma {:induction false} PutOverwritesLast(r: Record, k: string, v1: Scalar, v2: Scalar)
    requires k !in Keys(r)
    ensures Put(r + [(k, v1)], k, v2) == r + [(k, v2)]
  {
    if r == [] {
      assert [] + [(k, v1)] == [(k, v1)];
    } else {
      var tail := r[1..];
      assert k !in Keys(tail) && r[0].0 != k by { assert Keys(r) == [r[0].0] + Keys(tail); }
      PutOverwritesLast(tail, k, v1, v2);
      PutPastOtherKey(r[0], tail + [(k, v1)], k, v2);
      assert r + [(k, v1)] == [r[0]] + (tail + [(k, v1)]);
      assert r + [(k, v2)] == [r[0]] + (tail + [(k, v2)]);
    }
  }

  /** Assigning a key other than the first pair's leaves the first pair in front. */
  lemma PutPastOtherKey(first: (string, Scalar), rest: Record, k: string, v: Scalar)
    requires first.0 != k
    ensures Put([first] + rest, k, v) == [first] + Put(rest, k, v)
  {
    assert ([first] + rest)[1..] == rest;
  }

  /** The keys of two pair lists laid end to end. */
  lemma {:induction false} KeysConcat<V>(a: Entries<V>, b: Entries<V>)
    ensures Keys(a + b) == Keys(a) + Keys(b)
  {
    if a != [] {
      assert (a + b)[1..] == a[1..] + b;
      KeysConcat(a[1..], b);
    } else {
      assert a + b == b;
    }
  }

  /** A read from two pair lists laid end to end finds the first list's pair first. */
  lemma {:induction false} LookupConcat<V>(a: Entries<V>, b: Entries<V>, k: string)
    ensures Lookup(a + b, k) == if k in Keys(a) then Lookup(a, k) else Lookup(b, k)
  {
    if a != [] {
      assert (a + b)[0] == a[0];
      assert (a + b)[1..] == a[1..] + b;
      assert Keys(a) == [a[0].0] + Keys(a[1..]);
      LookupConcat(a[1..], b, k);
    } else {
      assert a + b == b;
    }
  }

  /** A prefix of an object is an object. */
  lemma UniquePrefix<V>(s: Entries<V>, i: nat)
    requires UniqueKeys(s) && i <= |s|
    ensures UniqueKeys(s[..i])
    ensures forall j :: i <= j < |s| ==> s[j].0 !in Keys(s[..i])
  {
    KeysConcat(s[..i], s[i..]);
    assert s[..i] + s[i..] == s;
    var ks := Keys(s);
    assert Keys(s[..i]) == ks[..i];
    forall j | i <= j < |s| ensures s[j].0 !in Keys(s[..i]) {
      KeyAt(s, j);
    }
  }

  /** Appending a fresh key keeps the keys unique. */
  lemma UniqueSnoc<V>(s: Entries<V>, t: Entries<V>)
    requires UniqueKeys(s) && |t| <= 1
    requires forall j :: 0 <= j < |t| ==> t[j].0 !in Keys(s)
    ensures UniqueKeys(s + t)
  {
    KeysConcat(s, t);
    var ks := Keys(s + t);
    forall i, j | 0 <= i < j < |ks| ensures ks[i] != ks[j] {
      if j >= |s| {
        assert ks[j] == t[0].0;
        assert ks[i] == Keys(s)[i];
      } else {
        assert ks[i] == Keys(s)[i] && ks[j] == Keys(s)[j];
      }
    }
  }

  /** In an object, reading a key gives the value of the one pair that holds it. */
  lemma {:induction false} LookupAt<V>(r: Entries<V>, i: nat)
    requires UniqueKeys(r) && i < |r|
    ensures Lookup(r, r[i].0) == Some(r[i].1)
  {
    if i > 0 {
      UniqueTail(r);
      KeyAt(r, i);
      KeyAt(r, 0);
      assert r[1..][i - 1] == r[i];
      LookupAt(r[1..], i - 1);
    }
  }
}
