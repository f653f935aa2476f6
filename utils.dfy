/** The ordered-record helpers of utils.ts. A JavaScript object is modelled as the list of
    its entries in iteration order, so that the order `Object.entries`, `Object.keys` and
    `Object.fromEntries` produce and consume is explicit. */
module Utils {
  import opened Wrappers

  /** A plain object as its entries, in iteration order. */
  type Record<T> = seq<(string, T)>

  ghost function Keys<T>(r: Record<T>): set<string>
  {
    set e | e in r :: e.0
  }

  /** What every JavaScript object satisfies: no key occurs twice. */
  ghost predicate UniqueKeys<T>(r: Record<T>)
  {
    forall i, j :: 0 <= i < j < |r| ==> r[i].0 != r[j].0
  }

  // ---------------------------------------------------------------------------
  // sortObject (utils.ts:1-8)
  // ---------------------------------------------------------------------------

  /** Longest key first. */
  ghost predicate SortedByKeyLength<T>(r: Record<T>)
  {
    forall i, j :: 0 <= i < j < |r| ==> |r[i].0| >= |r[j].0|
  }

  /** The entries of `r` whose key has exactly `n` characters, in their order in `r`. */
  ghost function WithKeyLength<T>(r: Record<T>, n: nat): Record<T>
  {
    if r == [] then []
    else (if |r[0].0| == n then [r[0]] else []) + WithKeyLength(r[1..], n)
  }

  lemma SortedCons<T>(a: (string, T), t: Record<T>)
    requires SortedByKeyLength(t)
    requires forall x | x in t :: |x.0| <= |a.0|
    ensures SortedByKeyLength([a] + t)
  {
    forall i, j | 0 <= i < j < |[a] + t| ensures |([a] + t)[i].0| >= |([a] + t)[j].0| {
      assert ([a] + t)[j] == t[j - 1] && t[j - 1] in t;
      if i > 0 {
        assert ([a] + t)[i] == t[i - 1];
      }
    }
  }

  /** One step of a stable sort under the comparator `(a, b) => b.length - a.length`:
      `e` goes in front of the first entry whose key is not longer than its own. */
  function InsertByKeyLength<T>(e: (string, T), r: Record<T>): Record<T>
    decreases |r|
  {
    if r == [] || |r[0].0| <= |e.0| then [e] + r
    else [r[0]] + InsertByKeyLength(e, r[1..])
  }

  lemma {:induction false} InsertByKeyLengthPermutes<T>(e: (string, T), r: Record<T>)
    ensures multiset(InsertByKeyLength(e, r)) == multiset(r) + multiset{e}
    decreases |r|
  {
    if r != [] && |r[0].0| > |e.0| {
      InsertByKeyLengthPermutes(e, r[1..]);
      assert r == [r[0]] + r[1..];
      assert multiset(r) == multiset{r[0]} + multiset(r[1..]);
    }
  }

  lemma SortedTail<T>(r: Record<T>)
    requires r != [] && SortedByKeyLength(r)
    ensures SortedByKeyLength(r[1..])
  {
    forall i, j | 0 <= i < j < |r[1..]| ensures |r[1..][i].0| >= |r[1..][j].0| {
      assert r[1..][i] == r[i + 1] && r[1..][j] == r[j + 1];
    }
  }

  /** Inserting into a record sorted longest key first keeps it sorted. */
  lemma {:induction false} InsertByKeyLengthSorted<T>(e: (string, T), r: Record<T>)
    requires SortedByKeyLength(r)
    ensures SortedByKeyLength(InsertByKeyLength(e, r))
    decreases |r|
  {
    if r == [] || |r[0].0| <= |e.0| {
      assert forall x | x in r :: |x.0| <= |e.0| by {
        forall x | x in r ensures |x.0| <= |e.0| {
          var j :| 0 <= j < |r| && r[j] == x;
          assert |r[0].0| >= |r[j].0|;
        }
      }
      SortedCons(e, r);
    } else {
      SortedTail(r);
      InsertByKeyLengthSorted(e, r[1..]);
      var t := InsertByKeyLength(e, r[1..]);
      InsertByKeyLengthPermutes(e, r[1..]);
      assert forall x | x in t :: |x.0| <= |r[0].0| by {
        forall x | x in t ensures |x.0| <= |r[0].0| {
          assert x in multiset(t);
          if x != e {
            assert x in multiset(r[1..]);
            var j :| 0 <= j < |r[1..]| && r[1..][j] == x;
            assert r[j + 1] == x;
          }
        }
      }
      SortedCons(r[0], t);
    }
  }

  /** `sortObject`: the entries, stably sorted so that longer keys come first.
      Equal-length keys keep their relative order: `Array.prototype.sort` is stable. */
  function SortObject<T>(r: Record<T>): (s: Record<T>)
    ensures SortedByKeyLength(s)
    ensures multiset(s) == multiset(r)
  {
    if r == [] then []
    else
      assert r == [r[0]] + r[1..];
      var t := SortObject(r[1..]);
      InsertByKeyLengthSorted(r[0], t);
      InsertByKeyLengthPermutes(r[0], t);
      InsertByKeyLength(r[0], t)
  }

  lemma WithKeyLengthCons<T>(a: (string, T), t: Record<T>, n: nat)
    ensures WithKeyLength([a] + t, n) == (if |a.0| == n then [a] else []) + WithKeyLength(t, n)
  {
    assert ([a] + t)[1..] == t;
  }

  lemma {:induction false} InsertByKeyLengthStable<T>(e: (string, T), r: Record<T>, n: nat)
    ensures WithKeyLength(InsertByKeyLength(e, r), n)
         == (if |e.0| == n then [e] else []) + WithKeyLength(r, n)
    decreases |r|
  {
    if r == [] || |r[0].0| <= |e.0| {
      WithKeyLengthCons(e, r, n);
    } else {
      var t := InsertByKeyLength(e, r[1..]);
      var w := WithKeyLength(r[1..], n);
      assert InsertByKeyLength(e, r) == [r[0]] + t;
      assert r == [r[0]] + r[1..];
      WithKeyLengthCons(r[0], r[1..], n);
      InsertByKeyLengthStable(e, r[1..], n);
      WithKeyLengthCons(r[0], t, n);
      if |e.0| == n {
        assert WithKeyLength(r, n) == w;
        assert WithKeyLength([r[0]] + t, n) == WithKeyLength(t, n);
      } else {
        assert WithKeyLength(t, n) == w;
      }
    }
  }

  /** Stability: for every key length, the entries with keys of that length keep their order. */
  lemma {:induction false} SortObjectStable<T>(r: Record<T>, n: nat)
    ensures WithKeyLength(SortObject(r), n) == WithKeyLength(r, n)
  {
    if r != [] {
      SortObjectStable(r[1..], n);
      InsertByKeyLengthStable(r[0], SortObject(r[1..]), n);
    }
  }

  lemma SameMultisetSameElements<T>(a: seq<T>, b: seq<T>)
    requires multiset(a) == multiset(b)
    ensures forall x :: x in a <==> x in b
  {
    forall x ensures x in a <==> x in b {
      assert x in a <==> x in multiset(a);
      assert x in b <==> x in multiset(b);
    }
  }

  /** `sortObject` keeps every key with its own value, and adds or loses none. */
  lemma SortObjectEntries<T>(r: Record<T>)
    ensures forall e :: e in SortObject(r) <==> e in r
    ensures Keys(SortObject(r)) == Keys(r)
  {
    var s := SortObject(r);
    SameMultisetSameElements(s, r);
    forall k | k in Keys(r) ensures k in Keys(s) {
      var e :| e in r && e.0 == k;
      assert e in s;
    }
    forall k | k in Keys(s) ensures k in Keys(r) {
      var e :| e in s && e.0 == k;
      assert e in r;
    }
  }

  lemma {:induction false} SortObjectUniqueKeys<T>(r: Record<T>)
    requires UniqueKeys(r)
    ensures UniqueKeys(SortObject(r))
  {
    if r != [] {
      assert UniqueKeys(r[1..]) by {
        forall i, j | 0 <= i < j < |r[1..]| ensures r[1..][i].0 != r[1..][j].0 {
          assert r[1..][i] == r[i + 1] && r[1..][j] == r[j + 1];
        }
      }
      SortObjectUniqueKeys(r[1..]);
      var t := SortObject(r[1..]);
      SortObjectEntries(r[1..]);
      assert r[0].0 !in Keys(t) by {
        forall x | x in r[1..] ensures x.0 != r[0].0 {
          var j :| 0 <= j < |r[1..]| && r[1..][j] == x;
          assert r[j + 1] == x;
        }
      }
      InsertKeepsUniqueKeys(r[0], t);
    }
  }

  lemma {:induction false} InsertKeepsUniqueKeys<T>(e: (string, T), r: Record<T>)
    requires UniqueKeys(r) && e.0 !in Keys(r)
    ensures UniqueKeys(InsertByKeyLength(e, r))
    decreases |r|
  {
    if r == [] || |r[0].0| <= |e.0| {
      var s := [e] + r;
      forall i, j | 0 <= i < j < |s| ensures s[i].0 != s[j].0 {
        assert s[j] == r[j - 1] && r[j - 1] in r;
        if i > 0 {
          assert s[i] == r[i - 1];
        }
      }
    } else {
      var t := InsertByKeyLength(e, r[1..]);
      assert e.0 !in Keys(r[1..]) by {
        forall x | x in r[1..] ensures x.0 != e.0 {
          assert x in r;
        }
      }
      assert UniqueKeys(r[1..]) by {
        forall i, j | 0 <= i < j < |r[1..]| ensures r[1..][i].0 != r[1..][j].0 {
          assert r[1..][i] == r[i + 1] && r[1..][j] == r[j + 1];
        }
      }
      InsertKeepsUniqueKeys(e, r[1..]);
      InsertByKeyLengthPermutes(e, r[1..]);
      var s := [r[0]] + t;
      forall i, j | 0 <= i < j < |s| ensures s[i].0 != s[j].0 {
        if i == 0 {
          assert s[j] == t[j - 1] && t[j - 1] in multiset(t);
          if t[j - 1] != e {
            assert t[j - 1] in multiset(r[1..]);
            var k :| 0 <= k < |r[1..]| && r[1..][k] == t[j - 1];
            assert r[k + 1] == t[j - 1];
          } else {
            assert r[0] in r;
          }
        } else {
          assert s[i] == t[i - 1] && s[j] == t[j - 1];
        }
      }
    }
  }

  /** A record that is already sorted is left as it is. */
  lemma {:induction false} SortObjectOfSorted<T>(r: Record<T>)
    requires SortedByKeyLength(r)
    ensures SortObject(r) == r
  {
    if r != [] {
      assert SortedByKeyLength(r[1..]) by {
        forall i, j | 0 <= i < j < |r[1..]| ensures |r[1..][i].0| >= |r[1..][j].0| {
          assert r[1..][i] == r[i + 1] && r[1..][j] == r[j + 1];
        }
      }
      SortObjectOfSorted(r[1..]);
      assert r[1..] == [] || |r[1..][0].0| <= |r[0].0|;
      assert [r[0]] + r[1..] == r;
    }
  }

  /** Sorting twice is sorting once. */
  lemma SortObjectIdempotent<T>(r: Record<T>)
    ensures SortObject(SortObject(r)) == SortObject(r)
  {
    SortObjectOfSorted(SortObject(r));
  }

  // ---------------------------------------------------------------------------
  // mapObject (utils.ts:10-19)
  // ---------------------------------------------------------------------------

  /** The `flatMap` step of `mapObject`: the pairs `fn(value, key)` returns, in entry order;
      entries for which it returns `undefined` contribute nothing. */
  function Collect<T, U>(r: Record<T>, fn: (T, string) -> Option<(string, U)>): seq<(string, U)>
  {
    if r == [] then []
    else (match fn(r[0].1, r[0].0) case Some(p) => [p] case None => []) + Collect(r[1..], fn)
  }

  /** One step of `Object.fromEntries`: a key already present keeps its position and takes
      the new value; a new key goes last. */
  function Put<U>(r: Record<U>, k: string, v: U): Record<U>
  {
    if r == [] then [(k, v)]
    else if r[0].0 == k then [(k, v)] + r[1..]
    else [r[0]] + Put(r[1..], k, v)
  }

  lemma {:induction false} PutAt<U>(r: Record<U>, k: string, v: U, i: nat)
    requires i < |r| && r[i].0 == k
    requires forall j :: 0 <= j < i ==> r[j].0 != k
    ensures Put(r, k, v) == r[i := (k, v)]
  {
    if i > 0 {
      PutAt(r[1..], k, v, i - 1);
    }
  }

  lemma {:induction false} PutNew<U>(r: Record<U>, k: string, v: U)
    requires k !in Keys(r)
    ensures Put(r, k, v) == r + [(k, v)]
  {
    if r != [] {
      assert r[0] in r;
      assert Keys(r[1..]) <= Keys(r) by {
        forall e | e in r[1..] ensures e in r { }
      }
      PutNew(r[1..], k, v);
      assert r == [r[0]] + r[1..];
    }
  }

  /** What one `Object.fromEntries` step does to an object (whose keys are distinct). */
  lemma PutFacts<U>(r: Record<U>, k: string, v: U)
    requires UniqueKeys(r)
    ensures UniqueKeys(Put(r, k, v))
    ensures Keys(Put(r, k, v)) == Keys(r) + {k}
    ensures (k, v) in Put(r, k, v)
    ensures forall e | e in r && e.0 != k :: e in Put(r, k, v)
    ensures forall e | e in Put(r, k, v) :: e == (k, v) || (e in r && e.0 != k)
    ensures k in Keys(r) ==> |Put(r, k, v)| == |r| && forall i | 0 <= i < |r| :: Put(r, k, v)[i].0 == r[i].0
    ensures k !in Keys(r) ==> Put(r, k, v) == r + [(k, v)]
  {
    var s := Put(r, k, v);
    if k in Keys(r) {
      var i := FirstIndex(r, k);
      PutAt(r, k, v, i);
      assert s[i] == (k, v);
      forall e | e in r && e.0 != k ensures e in s {
        var j :| 0 <= j < |r| && r[j] == e;
        assert s[j] == e;
      }
      forall e | e in s ensures e == (k, v) || (e in r && e.0 != k) {
        var j :| 0 <= j < |s| && s[j] == e;
        if j != i {
          assert r[j] == e;
        }
      }
      assert Keys(s) == Keys(r) + {k} by {
        forall k' | k' in Keys(r) ensures k' in Keys(s) {
          var j :| 0 <= j < |r| && r[j].0 == k';
          assert s[j].0 == k';
        }
      }
    } else {
      PutNew(r, k, v);
      forall e | e in s ensures e == (k, v) || (e in r && e.0 != k) {
        var j :| 0 <= j < |s| && s[j] == e;
        if j < |r| {
          assert r[j] == e;
        }
      }
    }
  }

  /** `Object.fromEntries`: the entries put one after another into an empty object. */
  function FromEntries<U>(s: seq<(string, U)>): (r: Record<U>)
    ensures UniqueKeys(r)
    ensures Keys(r) == Keys(s)
  {
    if s == [] then []
    else
      var p := s[..|s| - 1];
      assert s == p + [s[|s| - 1]];
      var q := FromEntries(p);
      PutFacts(q, s[|s| - 1].0, s[|s| - 1].1);
      Put(q, s[|s| - 1].0, s[|s| - 1].1)
  }

  /** The position of the first entry with key `k`. */
  ghost function FirstIndex<U>(s: seq<(string, U)>, k: string): (i: nat)
    requires k in Keys(s)
    ensures i < |s| && s[i].0 == k
    ensures forall j :: 0 <= j < i ==> s[j].0 != k
  {
    if s[0].0 == k then 0
    else
      assert s == [s[0]] + s[1..];
      1 + FirstIndex(s[1..], k)
  }

  lemma FirstIndexOfPrefix<U>(p: seq<(string, U)>, x: (string, U), k: string)
    requires k in Keys(p)
    ensures k in Keys(p + [x]) && FirstIndex(p + [x], k) == FirstIndex(p, k)
  {
    var i := FirstIndex(p, k);
    var j := FirstIndex(p + [x], k);
    assert (p + [x])[i] == p[i];
    forall m | 0 <= m < i ensures (p + [x])[m].0 != k {
      assert (p + [x])[m] == p[m];
    }
  }

  /** `Object.fromEntries`, later entries win: `(k, v)` survives exactly when it is an entry
      that no later entry with the same key overrides. */
  lemma FromEntriesLastWins<U>(s: seq<(string, U)>, k: string, v: U)
    ensures (k, v) in FromEntries(s)
        <==> exists i :: 0 <= i < |s| && s[i] == (k, v) && forall j :: i < j < |s| ==> s[j].0 != k
  {
    if (k, v) in FromEntries(s) {
      FromEntriesSurvivorIsLast(s, k, v);
    }
    if i :| 0 <= i < |s| && s[i] == (k, v) && forall j :: i < j < |s| ==> s[j].0 != k {
      FromEntriesLastSurvives(s, k, v, i);
    }
  }

  lemma {:induction false} FromEntriesSurvivorIsLast<U>(s: seq<(string, U)>, k: string, v: U)
    requires (k, v) in FromEntries(s)
    ensures exists i :: 0 <= i < |s| && s[i] == (k, v) && forall j :: i < j < |s| ==> s[j].0 != k
  {
    var p := s[..|s| - 1];
    var x := s[|s| - 1];
    assert s == p + [x];
    var q := FromEntries(p);
    PutFacts(q, x.0, x.1);
    assert FromEntries(s) == Put(q, x.0, x.1);
    if (k, v) == x {
      assert s[|s| - 1] == (k, v);
    } else {
      assert (k, v) in q && x.0 != k;
      FromEntriesSurvivorIsLast(p, k, v);
      var i :| 0 <= i < |p| && p[i] == (k, v) && forall j :: i < j < |p| ==> p[j].0 != k;
      assert s[i] == (k, v);
      forall j | i < j < |s| ensures s[j].0 != k {
        if j < |p| { assert s[j] == p[j]; }
      }
    }
  }

  lemma {:induction false} FromEntriesLastSurvives<U>(s: seq<(string, U)>, k: string, v: U, i: nat)
    requires i < |s| && s[i] == (k, v)
    requires forall j :: i < j < |s| ==> s[j].0 != k
    ensures (k, v) in FromEntries(s)
  {
    var p := s[..|s| - 1];
    var x := s[|s| - 1];
    assert s == p + [x];
    var q := FromEntries(p);
    PutFacts(q, x.0, x.1);
    assert FromEntries(s) == Put(q, x.0, x.1);
    if i < |s| - 1 {
      assert p[i] == (k, v);
      forall j | i < j < |p| ensures p[j].0 != k {
        assert s[j] == p[j];
      }
      FromEntriesLastSurvives(p, k, v, i);
      assert s[|s| - 1].0 != k;
    }
  }

  /** `Object.fromEntries`, key order: keys appear in the order of their first occurrence. */
  lemma {:induction false} FromEntriesFirstPositions<U>(s: seq<(string, U)>, i: nat, j: nat)
    requires i < j < |FromEntries(s)|
    ensures FromEntries(s)[i].0 in Keys(s) && FromEntries(s)[j].0 in Keys(s)
    ensures FirstIndex(s, FromEntries(s)[i].0) < FirstIndex(s, FromEntries(s)[j].0)
  {
    var r := FromEntries(s);
    var p := s[..|s| - 1];
    var x := s[|s| - 1];
    assert s == p + [x];
    var q := FromEntries(p);
    PutFacts(q, x.0, x.1);
    assert r == Put(q, x.0, x.1);
    assert r[i] in r && r[j] in r;
    if x.0 in Keys(q) {
      FromEntriesFirstPositions(p, i, j);
      assert q[i] in q && q[j] in q;
      FirstIndexOfPrefix(p, x, q[i].0);
      FirstIndexOfPrefix(p, x, q[j].0);
    } else {
      assert r == q + [x];
      assert r[i] == q[i] && q[i] in q;
      FirstIndexOfPrefix(p, x, q[i].0);
      if j < |q| {
        FromEntriesFirstPositions(p, i, j);
        assert r[j] == q[j] && q[j] in q;
        FirstIndexOfPrefix(p, x, q[j].0);
      } else {
        assert r[j] == x;
        assert FirstIndex(s, x.0) == |s| - 1 by {
          forall m | 0 <= m < |s| - 1 ensures s[m].0 != x.0 {
            assert s[m] == p[m] && p[m] in p;
          }
        }
      }
    }
  }

  /** Entries whose keys are already distinct pass through `Object.fromEntries` unchanged. */
  lemma {:induction false} FromEntriesOfUnique<U>(s: seq<(string, U)>)
    requires UniqueKeys(s)
    ensures FromEntries(s) == s
  {
    if s != [] {
      var p := s[..|s| - 1];
      var x := s[|s| - 1];
      assert s == p + [x];
      assert UniqueKeys(p) by {
        forall i, j | 0 <= i < j < |p| ensures p[i].0 != p[j].0 {
          assert p[i] == s[i] && p[j] == s[j];
        }
      }
      FromEntriesOfUnique(p);
      assert x.0 !in Keys(p) by {
        forall y | y in p ensures y.0 != x.0 {
          var j :| 0 <= j < |p| && p[j] == y;
          assert s[j] == y;
        }
      }
      PutNew(p, x.0, x.1);
    }
  }

  /** `mapObject`: `fn` applied to every entry, the `undefined` results dropped, the
      surviving pairs collected by `Object.fromEntries`. */
  function MapObject<T, U>(r: Record<T>, fn: (T, string) -> Option<(string, U)>): (m: Record<U>)
    ensures UniqueKeys(m)
  {
    FromEntries(Collect(r, fn))
  }

  lemma {:induction false} CollectAppend<T, U>(a: Record<T>, b: Record<T>, fn: (T, string) -> Option<(string, U)>)
    ensures Collect(a + b, fn) == Collect(a, fn) + Collect(b, fn)
  {
    if a == [] {
      assert a + b == b;
    } else {
      assert (a + b)[0] == a[0];
      assert (a + b)[1..] == a[1..] + b;
      CollectAppend(a[1..], b, fn);
      var h: seq<(string, U)> := match fn(a[0].1, a[0].0) case Some(p) => [p] case None => [];
      assert Collect(a + b, fn) == h + Collect(a[1..] + b, fn);
      assert Collect(a, fn) == h + Collect(a[1..], fn);
    }
  }

  /** An entry for which `fn` returns `undefined` leaves no trace in the `mapObject` result. */
  lemma MapObjectDropsEntry<T, U>(before: Record<T>, x: (string, T), after: Record<T>, fn: (T, string) -> Option<(string, U)>)
    requires fn(x.1, x.0).None?
    ensures MapObject(before + [x] + after, fn) == MapObject(before + after, fn)
  {
    assert Collect([x], fn) == [] by {
      assert [x][1..] == [];
    }
    CollectAppend(before + [x], after, fn);
    CollectAppend(before, [x], fn);
    CollectAppend(before, after, fn);
    assert Collect(before + [x] + after, fn) == Collect(before + after, fn);
  }

  /** `mapObject` keeps the pairs `fn` returns in entry order, as long as they do not clash. */
  lemma MapObjectOfDistinct<T, U>(r: Record<T>, fn: (T, string) -> Option<(string, U)>)
    requires UniqueKeys(Collect(r, fn))
    ensures MapObject(r, fn) == Collect(r, fn)
  {
    FromEntriesOfUnique(Collect(r, fn));
  }

  /** Whether `fn` turns the entry `e` into a pair with key `k`. */
  ghost predicate Produces<T, U>(fn: (T, string) -> Option<(string, U)>, e: (string, T), k: string)
  {
    fn(e.1, e.0).Some? && fn(e.1, e.0).value.0 == k
  }

  lemma MapObjectSnoc<T, U>(r: Record<T>, x: (string, T), fn: (T, string) -> Option<(string, U)>)
    ensures MapObject(r + [x], fn)
         == match fn(x.1, x.0)
            case None => MapObject(r, fn)
            case Some(p) => Put(MapObject(r, fn), p.0, p.1)
  {
    CollectAppend(r, [x], fn);
    assert [x][1..] == [];
    var c := Collect(r, fn);
    match fn(x.1, x.0)
    case None =>
      assert Collect(r + [x], fn) == c;
    case Some(p) =>
      var cs := c + [p];
      assert cs[..|cs| - 1] == c;
  }

  /** `mapObject` in full: `(k, v)` is in the result exactly when some entry maps to it and no
      later entry maps to the same key (the later value wins). */
  lemma {:induction false} MapObjectMember<T, U>(r: Record<T>, fn: (T, string) -> Option<(string, U)>, k: string, v: U)
    ensures (k, v) in MapObject(r, fn)
        <==> exists i :: 0 <= i < |r| && fn(r[i].1, r[i].0) == Some((k, v)) &&
                        forall j :: i < j < |r| ==> !Produces(fn, r[j], k)
  {
    if r != [] {
      var p := r[..|r| - 1];
      var x := r[|r| - 1];
      assert r == p + [x];
      MapObjectMember(p, fn, k, v);
      MapObjectSnoc(p, x, fn);
      var q := MapObject(p, fn);
      if fn(x.1, x.0).Some? {
        PutFacts(q, fn(x.1, x.0).value.0, fn(x.1, x.0).value.1);
      }
      if (k, v) in MapObject(r, fn) {
        if fn(x.1, x.0) == Some((k, v)) {
          assert r[|r| - 1] == x;
        } else {
          assert (k, v) in q && !Produces(fn, x, k);
          var i :| 0 <= i < |p| && fn(p[i].1, p[i].0) == Some((k, v)) &&
                   forall j :: i < j < |p| ==> !Produces(fn, p[j], k);
          assert r[i] == p[i];
          forall j | i < j < |r| ensures !Produces(fn, r[j], k) {
            if j < |p| { assert r[j] == p[j]; }
          }
        }
      }
      if i :| 0 <= i < |r| && fn(r[i].1, r[i].0) == Some((k, v)) &&
              forall j :: i < j < |r| ==> !Produces(fn, r[j], k) {
        if i < |p| {
          assert p[i] == r[i];
          forall j | i < j < |p| ensures !Produces(fn, p[j], k) {
            assert r[j] == p[j];
          }
          assert !Produces(fn, r[|r| - 1], k);
          assert (k, v) in q;
        }
      }
    }
  }

  /** The keys of a `mapObject` result are exactly the keys `fn` produces. */
  lemma {:induction false} MapObjectKeys<T, U>(r: Record<T>, fn: (T, string) -> Option<(string, U)>, k: string)
    ensures k in Keys(MapObject(r, fn)) <==> exists i :: 0 <= i < |r| && Produces(fn, r[i], k)
  {
    if r != [] {
      var p := r[..|r| - 1];
      var x := r[|r| - 1];
      assert r == p + [x];
      MapObjectKeys(p, fn, k);
      MapObjectSnoc(p, x, fn);
      var q := MapObject(p, fn);
      if fn(x.1, x.0).Some? {
        PutFacts(q, fn(x.1, x.0).value.0, fn(x.1, x.0).value.1);
      }
      if k in Keys(MapObject(r, fn)) {
        if !Produces(fn, x, k) {
          assert k in Keys(q);
          var i :| 0 <= i < |p| && Produces(fn, p[i], k);
          assert r[i] == p[i];
        } else {
          assert r[|r| - 1] == x;
        }
      }
      if i :| 0 <= i < |r| && Produces(fn, r[i], k) {
        if i < |p| {
          assert r[i] == p[i];
          assert k in Keys(q);
        } else {
          assert x == r[i];
        }
      }
    }
  }

  // ---------------------------------------------------------------------------
  // err, panic, isNotNull, isEndsSlash (utils.ts:29-40)
  // ---------------------------------------------------------------------------

  /** `err`: always throws. */
  function Err<E>(e: E): (o: Outcome<E>)
    ensures o.IsFailure() && o.error == e
  {
    Fail(e)
  }

  /** `panic`: returns normally exactly when `pred(x)` holds, and otherwise throws `e`. */
  function Panic<T, E>(x: T, pred: T -> bool, e: E): (o: Outcome<E>)
    ensures o.Pass? <==> pred(x)
    ensures o.Fail? ==> o.error == e
  {
    if pred(x) then Pass else Err(e)
  }

  /** `isNotNull`: false for `null` and `undefined`, both of which the model writes `None`. */
  predicate IsNotNull<T>(x: Option<T>)
  {
    x.Some?
  }

  /** `isEndsSlash`: the last character is `/` (`"".at(-1)` is `undefined`). */
  predicate IsEndsSlash(s: string)
  {
    |s| > 0 && s[|s| - 1] == '/'
  }

  lemma EndsSlashIff(s: string)
    ensures IsEndsSlash(s) <==> exists t :: s == t + "/"
  {
    if IsEndsSlash(s) {
      assert s == s[..|s| - 1] + "/";
    }
    if t :| s == t + "/" {
      assert s[|s| - 1] == '/';
    }
  }
}
