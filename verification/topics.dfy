/**
 * The reference-counted topic registry `Topics`: a store from topic key to
 * an optional human-readable name, and a counter of how many times each key
 * was set minus how many times it was deleted. A name is "truthy" when it is
 * present and not the empty string.
 */
module TopicRegistry {
  import opened Wrappers
  import opened Wire

  type Name = Option<string>

  /** `store` maps keys to names; `counter` holds the counts, 0 for a key it does not hold. */
  datatype Topics = Topics(store: map<Bytes, Name>, counter: map<Bytes, int>)

  /** JavaScript truthiness of a name: present and not empty. */
  predicate Truthy(v: Name) {
    v.Some? && v.value != ""
  }

  /** `count(key)`: the counter's value, 0 for a key never counted. */
  function Count(t: Topics, key: Bytes): int {
    if key in t.counter then t.counter[key] else 0
  }

  /** `has(key)`, `get(key)` and `size` read the store alone. */
  predicate Has(t: Topics, key: Bytes) {
    key in t.store
  }

  function Get(t: Topics, key: Bytes): Option<Name> {
    if key in t.store then Some(t.store[key]) else None
  }

  function Size(t: Topics): nat {
    |t.store|
  }

  /**
   * What every operation keeps: a key missing from the store has a count of
   * at most 0 (only deleting a key that was never set produces a count for a
   * key outside the store, and that count is negative).
   */
  predicate Valid(t: Topics) {
    forall k :: k in t.counter && k !in t.store ==> t.counter[k] <= 0
  }

  // ---------------------------------------------------------------- operations

  /** The constructor: the given pairs stored in order (a later pair for the same key wins) and every key counted once. */
  function New(init: seq<(Bytes, string)>): (t: Topics)
    decreases |init|
  {
    if init == [] then Topics(map[], map[])
    else
      var t := New(init[..|init| - 1]);
      var last := init[|init| - 1];
      Topics(t.store[last.0 := Some(last.1)], t.counter[last.0 := 1])
  }

  /** The constructor stores exactly the given keys, each with count 1, so it starts valid. */
  lemma {:induction false} NewKeys(init: seq<(Bytes, string)>)
    ensures var t := New(init);
      t.store.Keys == t.counter.Keys && Valid(t) &&
      (forall k :: k in t.store <==> exists i :: 0 <= i < |init| && init[i].0 == k) &&
      (forall k :: Count(t, k) == if Has(t, k) then 1 else 0)
    decreases |init|
  {
    if init != [] {
      var front := init[..|init| - 1];
      NewKeys(front);
      var t := New(init);
      var last := init[|init| - 1];
      var t0 := New(front);
      assert t == Topics(t0.store[last.0 := Some(last.1)], t0.counter[last.0 := 1]);
      assert t.store.Keys == t0.store.Keys + {last.0};
      assert t.counter.Keys == t0.counter.Keys + {last.0};
      forall k ensures Count(t, k) == if Has(t, k) then 1 else 0 {
        if k != last.0 {
          assert Count(t0, k) == if Has(t0, k) then 1 else 0;
          assert Count(t, k) == Count(t0, k) && Has(t, k) == Has(t0, k);
        }
      }
      forall k | k in t.store ensures exists i :: 0 <= i < |init| && init[i].0 == k {
        if k != last.0 {
          var i :| 0 <= i < |front| && front[i].0 == k;
          assert init[i] == front[i];
        }
      }
      forall k | (exists i :: 0 <= i < |init| && init[i].0 == k) ensures k in t.store {
        var i :| 0 <= i < |init| && init[i].0 == k;
        if i < |front| {
          assert front[i] == init[i];
        }
      }
    }
  }

  /** A key keeps the name of its last pair. */
  lemma {:induction false} NewNames(init: seq<(Bytes, string)>, i: nat)
    requires i < |init| && forall j :: i < j < |init| ==> init[j].0 != init[i].0
    ensures Get(New(init), init[i].0) == Some(Some(init[i].1))
    decreases |init|
  {
    if i < |init| - 1 {
      var front := init[..|init| - 1];
      assert front[i] == init[i];
      assert forall j :: i < j < |front| ==> front[j] == init[j];
      NewNames(front, i);
    }
  }

  /** `clear()`: both maps emptied. */
  function Clear(t: Topics): (r: Topics)
    ensures Valid(r) && Size(r) == 0
    ensures forall k :: !Has(r, k) && Count(r, k) == 0
  {
    Topics(map[], map[])
  }

  /**
   * `set(key, value)`: the count goes up by one; the name is stored when the
   * key has none yet, and replaces a stored name only when the stored one is
   * not truthy and the new one is.
   */
  function Set(t: Topics, key: Bytes, value: Name): (r: Topics)
  {
    var count := Count(t, key);
    var store :=
      if Truthy(value) && !(key in t.store && Truthy(t.store[key])) then t.store[key := value]
      else if key !in t.store then t.store[key := value]
      else t.store;
    Topics(store, t.counter[key := count + 1])
  }

  /**
   * `delete(key)`: at count 1 the key leaves the store and the counter (the
   * counter only if it was in the store); at any other count, including for
   * a key never set, the count drops by one and the name stays. Returns
   * whether the key was, or still is, stored.
   */
  function Delete(t: Topics, key: Bytes): (r: (Topics, bool))
  {
    var count := Count(t, key);
    if count == 1 then
      if key in t.store then (Topics(t.store - {key}, t.counter - {key}), true)
      else (t, false)
    else (Topics(t.store, t.counter[key := count - 1]), key in t.store)
  }

  /** `named`: the entries whose name is truthy. */
  function Named(t: Topics): (r: map<Bytes, string>)
    ensures forall k :: k in r <==> k in t.store && Truthy(t.store[k])
    ensures forall k :: k in r ==> Some(r[k]) == t.store[k]
  {
    map k | k in t.store && Truthy(t.store[k]) :: t.store[k].value
  }

  // ---------------------------------------------------------------- set and delete

  /** `set` counts exactly one more for its key and touches no other key. */
  lemma SetCounts(t: Topics, key: Bytes, value: Name)
    ensures var r := Set(t, key, value);
      Count(r, key) == Count(t, key) + 1 && Has(r, key) &&
      (forall k :: k != key ==> Count(r, k) == Count(t, k) && Get(r, k) == Get(t, k))
  {
  }

  /** A truthy name is never overwritten; a missing or untruthy one gives way to a truthy one; a new key takes whatever it is given. */
  lemma SetNames(t: Topics, key: Bytes, value: Name)
    ensures var r := Set(t, key, value);
      (key in t.store && Truthy(t.store[key]) ==> r.store[key] == t.store[key]) &&
      (key in t.store && !Truthy(t.store[key]) ==> r.store[key] == if Truthy(value) then value else t.store[key]) &&
      (key !in t.store ==> r.store[key] == value)
  {
  }

  /** `delete` at count 1 removes the key from both maps; at any other count it only decrements. Other keys keep their entries and counts. */
  lemma DeleteEffect(t: Topics, key: Bytes)
    requires Valid(t)
    ensures var r := Delete(t, key);
      (Count(t, key) == 1 ==> !Has(r.0, key) && key !in r.0.counter && r.1) &&
      (Count(t, key) != 1 ==> Count(r.0, key) == Count(t, key) - 1 && Get(r.0, key) == Get(t, key) && r.1 == Has(t, key)) &&
      (forall k :: k != key ==> Count(r.0, k) == Count(t, k) && Get(r.0, k) == Get(t, k))
  {
  }

  /** A key never set is driven to count −1 by `delete`, and a later `set` then leaves it stored with count 0. */
  lemma DeleteUnknownKey(t: Topics, key: Bytes, value: Name)
    requires !Has(t, key) && Count(t, key) == 0
    ensures Count(Delete(t, key).0, key) == -1 && !Delete(t, key).1
    ensures var r := Set(Delete(t, key).0, key, value); Has(r, key) && Count(r, key) == 0
  {
  }

  /** Every operation keeps the registry valid. */
  lemma OperationsValid(t: Topics, key: Bytes, value: Name)
    requires Valid(t)
    ensures Valid(Set(t, key, value)) && Valid(Delete(t, key).0)
  {
  }

  /** `set` once per value, in order. */
  function SetAll(t: Topics, key: Bytes, values: seq<Name>): (r: Topics)
    decreases |values|
  {
    if values == [] then t else SetAll(Set(t, key, values[0]), key, values[1..])
  }

  /** `delete` `times` times. */
  function DeleteTimes(t: Topics, key: Bytes, times: nat): (r: Topics)
    decreases times
  {
    if times == 0 then t else DeleteTimes(Delete(t, key).0, key, times - 1)
  }

  lemma {:induction false} SetAllCount(t: Topics, key: Bytes, values: seq<Name>)
    requires |values| > 0 || Has(t, key)
    ensures var r := SetAll(t, key, values); Has(r, key) && Count(r, key) == Count(t, key) + |values|
    decreases |values|
  {
    if values != [] {
      SetCounts(t, key, values[0]);
      SetAllCount(Set(t, key, values[0]), key, values[1..]);
    }
  }

  lemma {:induction false} DeleteTimesCount(t: Topics, key: Bytes, times: nat)
    requires Has(t, key) && Count(t, key) > times
    ensures var r := DeleteTimes(t, key, times); Has(r, key) && Count(r, key) == Count(t, key) - times
    decreases times
  {
    if times > 0 {
      DeleteTimesCount(Delete(t, key).0, key, times - 1);
    }
  }

  /**
   * For a key with no entry and no count, `n` sets make it present, it stays
   * present through `n - 1` deletes, and the `n`-th delete removes it from
   * both the store and the counter.
   */
  lemma {:induction false} SetsThenDeletes(t: Topics, key: Bytes, values: seq<Name>)
    requires !Has(t, key) && Count(t, key) == 0 && |values| > 0
    ensures var s := SetAll(t, key, values);
      (forall j :: 0 <= j < |values| ==> Has(DeleteTimes(s, key, j), key)) &&
      !Has(DeleteTimes(s, key, |values|), key) && key !in DeleteTimes(s, key, |values|).counter
  {
    var s := SetAll(t, key, values);
    SetAllCount(t, key, values);
    forall j | 0 <= j < |values| ensures Has(DeleteTimes(s, key, j), key) {
      DeleteTimesCount(s, key, j);
    }
    var n := |values|;
    DeleteTimesCount(s, key, n - 1);
    var before := DeleteTimes(s, key, n - 1);
    DeleteLast(s, key, n - 1);
    assert Count(before, key) == 1;
  }

  lemma {:induction false} DeleteLast(t: Topics, key: Bytes, times: nat)
    ensures DeleteTimes(t, key, times + 1) == Delete(DeleteTimes(t, key, times), key).0
    decreases times
  {
    if times > 0 {
      DeleteLast(Delete(t, key).0, key, times - 1);
    }
  }

  // ---------------------------------------------------------------- trending

  type Entry = (Bytes, Name)

  /** The entries `trending` ranks, in the store's iteration order `order`: all of them, or the truthy-named ones. */
  function Candidates(t: Topics, order: seq<Bytes>, named: bool): (r: seq<Entry>)
    requires forall i :: 0 <= i < |order| ==> order[i] in t.store
    ensures forall i :: 0 <= i < |r| ==> r[i].0 in order && r[i].0 in t.store && r[i].1 == t.store[r[i].0] && (named ==> Truthy(r[i].1))
    decreases |order|
  {
    if order == [] then []
    else
      var rest := Candidates(t, order[1..], named);
      if named && !Truthy(t.store[order[0]]) then rest else [(order[0], t.store[order[0]])] + rest
  }

  /** No key twice in a list of entries. */
  predicate DistinctKeys(s: seq<Entry>) {
    forall i, j :: 0 <= i < j < |s| ==> s[i].0 != s[j].0
  }

  predicate Distinct(order: seq<Bytes>) {
    forall i, j :: 0 <= i < j < |order| ==> order[i] != order[j]
  }

  /** Every stored key of the enumeration is a candidate, exactly when it is truthy-named or `named` is off. */
  lemma {:induction false} CandidatesComplete(t: Topics, order: seq<Bytes>, named: bool, k: Bytes)
    requires forall i :: 0 <= i < |order| ==> order[i] in t.store
    requires k in order && (!named || Truthy(t.store[k]))
    ensures (k, t.store[k]) in Candidates(t, order, named)
    decreases |order|
  {
    if order[0] != k {
      assert k in order[1..];
      CandidatesComplete(t, order[1..], named, k);
    }
  }

  /** Candidates never repeat a key when the enumeration does not. */
  lemma {:induction false} CandidatesDistinct(t: Topics, order: seq<Bytes>, named: bool)
    requires forall i :: 0 <= i < |order| ==> order[i] in t.store
    requires Distinct(order)
    ensures DistinctKeys(Candidates(t, order, named))
    decreases |order|
  {
    if order != [] {
      assert Distinct(order[1..]) by {
        forall i, j | 0 <= i < j < |order[1..]| ensures order[1..][i] != order[1..][j] {
          assert order[1..][i] == order[i + 1] && order[1..][j] == order[j + 1];
        }
      }
      CandidatesDistinct(t, order[1..], named);
      var rest := Candidates(t, order[1..], named);
      if !(named && !Truthy(t.store[order[0]])) {
        var r := [(order[0], t.store[order[0]])] + rest;
        assert order[0] !in order[1..] by {
          forall i | 0 <= i < |order[1..]| ensures order[1..][i] != order[0] {
            assert order[1..][i] == order[i + 1];
          }
        }
        forall i, j | 0 <= i < j < |r| ensures r[i].0 != r[j].0 {
          if i == 0 {
            assert r[j] == rest[j - 1] && rest[j - 1].0 in order[1..];
          } else {
            assert r[i] == rest[i - 1] && r[j] == rest[j - 1];
          }
        }
      }
    }
  }

  /** Non-increasing count order. */
  predicate Ranked(t: Topics, s: seq<Entry>) {
    forall i, j :: 0 <= i < j < |s| ==> Count(t, s[i].0) >= Count(t, s[j].0)
  }

  /** Stable insertion: `e` goes before the first entry whose count does not exceed its own. */
  function Insert(t: Topics, e: Entry, s: seq<Entry>): (r: seq<Entry>)
    ensures multiset(r) == multiset(s) + multiset{e}
    decreases |s|
  {
    if s == [] || Count(t, e.0) >= Count(t, s[0].0) then [e] + s
    else
      assert s == [s[0]] + s[1..];
      [s[0]] + Insert(t, e, s[1..])
  }

  /** The stable sort by descending count, as the comparator `count(b) - count(a)` orders: a permutation of its input. */
  function Sort(t: Topics, s: seq<Entry>): (r: seq<Entry>)
    ensures multiset(r) == multiset(s)
    decreases |s|
  {
    if s == [] then []
    else
      assert s == [s[0]] + s[1..];
      Insert(t, s[0], Sort(t, s[1..]))
  }

  /** A list is ranked exactly when its tail is and its head's count bounds the tail's. */
  lemma RankedCons(t: Topics, x: Entry, s: seq<Entry>)
    ensures Ranked(t, [x] + s) <==> Ranked(t, s) && forall i :: 0 <= i < |s| ==> Count(t, x.0) >= Count(t, s[i].0)
  {
    var r := [x] + s;
    assert forall i :: 0 <= i < |s| ==> r[i + 1] == s[i];
    if Ranked(t, r) {
      forall i, j | 0 <= i < j < |s| ensures Count(t, s[i].0) >= Count(t, s[j].0) {
        assert r[i + 1] == s[i] && r[j + 1] == s[j];
      }
      forall i | 0 <= i < |s| ensures Count(t, x.0) >= Count(t, s[i].0) {
        assert r[0] == x && r[i + 1] == s[i];
      }
    }
    if Ranked(t, s) && forall i :: 0 <= i < |s| ==> Count(t, x.0) >= Count(t, s[i].0) {
      forall i, j | 0 <= i < j < |r| ensures Count(t, r[i].0) >= Count(t, r[j].0) {
        if i == 0 {
          assert r[j] == s[j - 1];
        } else {
          assert r[i] == s[i - 1] && r[j] == s[j - 1];
        }
      }
    }
  }

  lemma {:induction false} InsertRanked(t: Topics, e: Entry, s: seq<Entry>)
    requires Ranked(t, s)
    ensures Ranked(t, Insert(t, e, s))
    decreases |s|
  {
    if s == [] {
    } else if Count(t, e.0) >= Count(t, s[0].0) {
      RankedCons(t, e, s);
    } else {
      RankedCons(t, s[0], s[1..]);
      assert s == [s[0]] + s[1..];
      InsertRanked(t, e, s[1..]);
      var rest := Insert(t, e, s[1..]);
      forall i | 0 <= i < |rest| ensures Count(t, s[0].0) >= Count(t, rest[i].0) {
        assert rest[i] in multiset(rest);
        if rest[i] != e {
          assert rest[i] in multiset(s[1..]);
          assert rest[i] in s[1..];
        }
      }
      RankedCons(t, s[0], rest);
    }
  }

  lemma {:induction false} SortRanked(t: Topics, s: seq<Entry>)
    ensures Ranked(t, Sort(t, s))
    decreases |s|
  {
    if s != [] {
      SortRanked(t, s[1..]);
      InsertRanked(t, s[0], Sort(t, s[1..]));
    }
  }

  /** The entries of `s` whose count is `c`, in their order in `s`. */
  function WithCount(t: Topics, s: seq<Entry>, c: int): seq<Entry>
    decreases |s|
  {
    if s == [] then [] else (if Count(t, s[0].0) == c then [s[0]] else []) + WithCount(t, s[1..], c)
  }

  lemma {:induction false} WithCountAppend(t: Topics, a: seq<Entry>, b: seq<Entry>, c: int)
    ensures WithCount(t, a + b, c) == WithCount(t, a, c) + WithCount(t, b, c)
    decreases |a|
  {
    if a == [] {
      assert a + b == b;
    } else {
      assert (a + b)[0] == a[0] && (a + b)[1..] == a[1..] + b;
      WithCountAppend(t, a[1..], b, c);
    }
  }

  /** Inserting `e` puts it before every entry of its own count and keeps their order. */
  lemma {:induction false} InsertStable(t: Topics, e: Entry, s: seq<Entry>, c: int)
    ensures WithCount(t, Insert(t, e, s), c) == WithCount(t, [e], c) + WithCount(t, s, c)
    decreases |s|
  {
    if s == [] || Count(t, e.0) >= Count(t, s[0].0) {
      WithCountAppend(t, [e], s, c);
    } else {
      InsertStable(t, e, s[1..], c);
      WithCountAppend(t, [s[0]], Insert(t, e, s[1..]), c);
      assert s == [s[0]] + s[1..];
      WithCountAppend(t, [s[0]], s[1..], c);
    }
  }

  /** The sort is stable, as `Array.prototype.sort` is: entries of equal count keep their input order. */
  lemma {:induction false} SortStable(t: Topics, s: seq<Entry>, c: int)
    ensures WithCount(t, Sort(t, s), c) == WithCount(t, s, c)
    decreases |s|
  {
    if s != [] {
      SortStable(t, s[1..], c);
      InsertStable(t, s[0], Sort(t, s[1..]), c);
      assert s == [s[0]] + s[1..];
      WithCountAppend(t, [s[0]], s[1..], c);
    }
  }

  /** Where `slice(0, limit)` stops, negative limits counting from the end. */
  function SliceEnd(len: nat, limit: int): (e: nat)
    ensures e <= len
    ensures limit >= 0 ==> e == if limit < len then limit else len
    ensures limit < 0 ==> e == if len + limit > 0 then len + limit else 0
  {
    if limit >= 0 then (if limit < len then limit else len)
    else if len + limit > 0 then len + limit else 0
  }

  /** `trending(named, limit)`: the candidates ranked by count, cut at `limit` (20 unless given). */
  function Trending(t: Topics, order: seq<Bytes>, named: Option<bool>, limit: Option<int>): (r: seq<Entry>)
    requires forall i :: 0 <= i < |order| ==> order[i] in t.store
  {
    var ranked := Sort(t, Candidates(t, order, named.GetOr(true)));
    ranked[..SliceEnd(|ranked|, limit.GetOr(20))]
  }

  /** Inserting an entry whose key is new keeps the keys distinct. */
  lemma {:induction false} InsertDistinct(t: Topics, e: Entry, s: seq<Entry>)
    requires DistinctKeys(s) && forall i :: 0 <= i < |s| ==> s[i].0 != e.0
    ensures DistinctKeys(Insert(t, e, s))
    decreases |s|
  {
    if s != [] && Count(t, e.0) < Count(t, s[0].0) {
      assert DistinctKeys(s[1..]) by {
        forall x, y | 0 <= x < y < |s[1..]| ensures s[1..][x].0 != s[1..][y].0 {
          assert s[1..][x] == s[x + 1] && s[1..][y] == s[y + 1];
        }
      }
      InsertDistinct(t, e, s[1..]);
      var rest := Insert(t, e, s[1..]);
      var r := [s[0]] + rest;
      forall i | 0 <= i < |rest| ensures rest[i].0 != s[0].0 {
        assert rest[i] in multiset(rest);
        if rest[i] != e {
          assert rest[i] in multiset(s[1..]);
          var y :| 0 <= y < |s[1..]| && s[1..][y] == rest[i];
          assert s[y + 1] == rest[i];
        }
      }
      forall x, y | 0 <= x < y < |r| ensures r[x].0 != r[y].0 {
        if x == 0 {
          assert r[y] == rest[y - 1];
        } else {
          assert r[x] == rest[x - 1] && r[y] == rest[y - 1];
        }
      }
    } else {
      var r := [e] + s;
      forall x, y | 0 <= x < y < |r| ensures r[x].0 != r[y].0 {
        if x == 0 {
          assert r[y] == s[y - 1];
        } else {
          assert r[x] == s[x - 1] && r[y] == s[y - 1];
        }
      }
    }
  }

  /** Sorting keeps the keys distinct. */
  lemma {:induction false} SortDistinct(t: Topics, s: seq<Entry>)
    requires DistinctKeys(s)
    ensures DistinctKeys(Sort(t, s))
    decreases |s|
  {
    if s != [] {
      assert DistinctKeys(s[1..]) by {
        forall x, y | 0 <= x < y < |s[1..]| ensures s[1..][x].0 != s[1..][y].0 {
          assert s[1..][x] == s[x + 1] && s[1..][y] == s[y + 1];
        }
      }
      SortDistinct(t, s[1..]);
      var rest := Sort(t, s[1..]);
      forall i | 0 <= i < |rest| ensures rest[i].0 != s[0].0 {
        assert rest[i] in multiset(s[1..]);
        var y :| 0 <= y < |s[1..]| && s[1..][y] == rest[i];
        assert s[y + 1] == rest[i];
      }
      InsertDistinct(t, s[0], rest);
    }
  }

  /** The ranked candidates without repetitions, in non-increasing count order, holding every candidate. */
  lemma RankedCandidates(t: Topics, order: seq<Bytes>, named: bool)
    requires forall i :: 0 <= i < |order| ==> order[i] in t.store
    requires Distinct(order)
    ensures var c := Candidates(t, order, named); var ranked := Sort(t, c);
      |ranked| == |c| && Ranked(t, ranked) && DistinctKeys(ranked) &&
      (forall e :: e in c <==> e in ranked)
  {
    var c := Candidates(t, order, named);
    var ranked := Sort(t, c);
    assert |multiset(ranked)| == |multiset(c)|;
    SortRanked(t, c);
    CandidatesDistinct(t, order, named);
    SortDistinct(t, c);
    forall e ensures e in c <==> e in ranked {
      assert e in c <==> e in multiset(c);
      assert e in ranked <==> e in multiset(ranked);
    }
  }

  /** Cutting a ranked list keeps the entries that rank highest. */
  lemma PrefixIsTop(t: Topics, ranked: seq<Entry>, end: nat)
    requires Ranked(t, ranked) && end <= |ranked|
    ensures forall e, i :: e in ranked && e !in ranked[..end] && 0 <= i < end ==> Count(t, e.0) <= Count(t, ranked[i].0)
  {
    forall e, i | e in ranked && e !in ranked[..end] && 0 <= i < end ensures Count(t, e.0) <= Count(t, ranked[i].0) {
      var j :| 0 <= j < |ranked| && ranked[j] == e;
    }
  }

  /** A prefix of a ranked list without repeated keys is one too. */
  lemma PrefixRanked(t: Topics, ranked: seq<Entry>, end: nat)
    requires Ranked(t, ranked) && DistinctKeys(ranked) && end <= |ranked|
    ensures Ranked(t, ranked[..end]) && DistinctKeys(ranked[..end])
  {
    assert forall i :: 0 <= i < end ==> ranked[..end][i] == ranked[i];
  }

  /**
   * For an enumeration `order` of the store without repetitions, `trending`
   * returns at most `limit` entries, in non-increasing count order, without a
   * key twice, each a stored entry (a truthy-named one when `named`).
   */
  lemma TrendingRanked(t: Topics, order: seq<Bytes>, named: Option<bool>, limit: Option<int>)
    requires forall i :: 0 <= i < |order| ==> order[i] in t.store
    requires Distinct(order)
    ensures var r := Trending(t, order, named, limit);
      |r| == SliceEnd(|Candidates(t, order, named.GetOr(true))|, limit.GetOr(20)) &&
      (limit.GetOr(20) >= 0 ==> |r| <= limit.GetOr(20)) &&
      Ranked(t, r) && DistinctKeys(r) &&
      (forall i :: 0 <= i < |r| ==> r[i].0 in t.store && r[i].1 == t.store[r[i].0] && (named.GetOr(true) ==> Truthy(r[i].1)))
  {
    var c := Candidates(t, order, named.GetOr(true));
    var ranked := Sort(t, c);
    var end := SliceEnd(|ranked|, limit.GetOr(20));
    RankedCandidates(t, order, named.GetOr(true));
    PrefixRanked(t, ranked, end);
    var r := ranked[..end];
    forall i | 0 <= i < |r| ensures r[i] in c {
      assert r[i] == ranked[i];
    }
  }

  /**
   * Ties are cut in enumeration order: among the candidates of any one
   * count, `trending` returns the earliest ones, in their enumeration order.
   */
  lemma TrendingStable(t: Topics, order: seq<Bytes>, named: Option<bool>, limit: Option<int>, c: int)
    requires forall i :: 0 <= i < |order| ==> order[i] in t.store
    ensures var kept := WithCount(t, Trending(t, order, named, limit), c);
      var tied := WithCount(t, Candidates(t, order, named.GetOr(true)), c);
      |kept| <= |tied| && kept == tied[..|kept|]
  {
    var cands := Candidates(t, order, named.GetOr(true));
    var ranked := Sort(t, cands);
    var end := SliceEnd(|ranked|, limit.GetOr(20));
    assert ranked == ranked[..end] + ranked[end..];
    WithCountAppend(t, ranked[..end], ranked[end..], c);
    SortStable(t, cands, c);
  }

  /**
   * `trending` keeps every stored entry of the enumeration that qualifies
   * unless `limit` cuts it, and no qualifying entry left out has a higher
   * count than one that was kept.
   */
  lemma TrendingTop(t: Topics, order: seq<Bytes>, named: Option<bool>, limit: Option<int>)
    requires forall i :: 0 <= i < |order| ==> order[i] in t.store
    requires forall k :: k in t.store ==> k in order
    requires Distinct(order)
    ensures var r := Trending(t, order, named, limit);
      var c := Candidates(t, order, named.GetOr(true));
      (forall k :: k in t.store && (named.GetOr(true) ==> Truthy(t.store[k])) ==> (k, t.store[k]) in c) &&
      (forall e, i :: e in c && e !in r && 0 <= i < |r| ==> Count(t, e.0) <= Count(t, r[i].0))
  {
    var c := Candidates(t, order, named.GetOr(true));
    var ranked := Sort(t, c);
    var end := SliceEnd(|ranked|, limit.GetOr(20));
    RankedCandidates(t, order, named.GetOr(true));
    PrefixIsTop(t, ranked, end);
    forall k | k in t.store && (named.GetOr(true) ==> Truthy(t.store[k])) ensures (k, t.store[k]) in c {
      CandidatesComplete(t, order, named.GetOr(true), k);
    }
  }
}
