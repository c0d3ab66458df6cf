/**
 * The relay's duplicate filter: a bounded set of message keys that forgets
 * the least recently added key once it is full (the `LruSet` the relay node
 * creates with capacity `lruSize`, 255 by default), and the string key each
 * relayed message is recorded under.
 */
module Dedup {
  import opened Wire

  // ------------------------------------------------------------ bounded set

  /** A recorded message key. */
  type Key = string

  /** Keys oldest first; `capacity` is fixed when the set is created. */
  datatype Lru = Lru(capacity: nat, keys: seq<Key>)

  const DEFAULT_CAPACITY: nat := 255

  /** No key twice and never more keys than the capacity. */
  predicate Valid(l: Lru) {
    |l.keys| <= l.capacity && Distinct(l.keys)
  }

  predicate Distinct(s: seq<Key>) {
    forall i, j :: 0 <= i < j < |s| ==> s[i] != s[j]
  }

  /** Where `k` first occurs in `s`. */
  function IndexOf(s: seq<Key>, k: Key): (i: nat)
    requires k in s
    ensures i < |s| && s[i] == k && k !in s[..i]
  {
    if s[0] == k then 0 else 1 + IndexOf(s[1..], k)
  }

  /** A fresh, empty set. */
  function Empty(capacity: nat): (r: Lru)
    ensures Valid(r) && r.capacity == capacity
    ensures forall k :: !Has(r, k)
  {
    Lru(capacity, [])
  }

  /** Membership; asking does not refresh a key. */
  predicate Has(l: Lru, k: Key) {
    k in l.keys
  }

  /** `s` without the occurrences of `k`, order kept. */
  function Remove(s: seq<Key>, k: Key): (r: seq<Key>)
    ensures forall x :: x in r <==> x in s && x != k
    ensures |r| <= |s|
    ensures k in s ==> |r| < |s|
  {
    if s == [] then []
    else if s[0] == k then Remove(s[1..], k)
    else [s[0]] + Remove(s[1..], k)
  }

  /**
   * `add`: a key already present becomes the most recent one; a new key is
   * appended, first evicting the oldest key when the set is full; a set of
   * capacity 0 stores nothing.
   */
  function Add(l: Lru, k: Key): (r: Lru)
    ensures r.capacity == l.capacity
  {
    if k in l.keys then Lru(l.capacity, Remove(l.keys, k) + [k])
    else if l.capacity == 0 then l
    else if |l.keys| >= l.capacity then Lru(l.capacity, l.keys[1..] + [k])
    else Lru(l.capacity, l.keys + [k])
  }

  lemma {:induction false} RemoveDistinct(s: seq<Key>, k: Key)
    requires Distinct(s)
    ensures Distinct(Remove(s, k))
    decreases |s|
  {
    if s != [] {
      assert forall i, j :: 0 <= i < j < |s[1..]| ==> s[1..][i] != s[1..][j] by {
        forall i, j | 0 <= i < j < |s[1..]| ensures s[1..][i] != s[1..][j] {
          assert s[1..][i] == s[i + 1] && s[1..][j] == s[j + 1];
        }
      }
      RemoveDistinct(s[1..], k);
      if s[0] != k {
        var t := Remove(s[1..], k);
        assert s[0] !in t;
        var r := [s[0]] + t;
        forall i, j | 0 <= i < j < |r| ensures r[i] != r[j] {
          if i == 0 {
            assert r[j] == t[j - 1] && t[j - 1] in t;
          } else {
            assert r[i] == t[i - 1] && r[j] == t[j - 1];
          }
        }
      }
    }
  }

  /** `add` keeps the set well formed, and the set then holds exactly the old keys plus `k`, less at most the oldest. */
  lemma AddValid(l: Lru, k: Key)
    requires Valid(l)
    ensures Valid(Add(l, k))
    ensures l.capacity > 0 ==> Has(Add(l, k), k)
    ensures forall x :: Has(Add(l, k), x) ==> Has(l, x) || x == k
    ensures forall i :: 0 < i < |l.keys| ==> Has(Add(l, k), l.keys[i])
    ensures Has(l, k) || |l.keys| < l.capacity ==> forall x :: Has(l, x) ==> Has(Add(l, k), x)
  {
    var r := Add(l, k);
    if k in l.keys {
      RemoveDistinct(l.keys, k);
      var t := Remove(l.keys, k);
      forall i, j | 0 <= i < j < |r.keys| ensures r.keys[i] != r.keys[j] {
        if j == |t| {
          assert r.keys[i] == t[i];
        } else {
          assert r.keys[i] == t[i] && r.keys[j] == t[j];
        }
      }
      assert forall x :: x in l.keys ==> x in r.keys by {
        forall x | x in l.keys ensures x in r.keys {
          if x != k {
            assert x in t;
          } else {
            assert r.keys[|t|] == k;
          }
        }
      }
    } else if l.capacity == 0 {
    } else if |l.keys| >= l.capacity {
      var t := l.keys[1..];
      forall i, j | 0 <= i < j < |r.keys| ensures r.keys[i] != r.keys[j] {
        if j == |t| {
          assert r.keys[i] == l.keys[i + 1];
        } else {
          assert r.keys[i] == l.keys[i + 1] && r.keys[j] == l.keys[j + 1];
        }
      }
      forall i | 0 < i < |l.keys| ensures Has(r, l.keys[i]) {
        assert r.keys[i - 1] == l.keys[i];
      }
      assert r.keys[|t|] == k;
    } else {
      forall i, j | 0 <= i < j < |r.keys| ensures r.keys[i] != r.keys[j] {
        if j == |l.keys| {
          assert r.keys[i] == l.keys[i];
        } else {
          assert r.keys[i] == l.keys[i] && r.keys[j] == l.keys[j];
        }
      }
      assert r.keys[|l.keys|] == k;
      assert forall x :: x in l.keys ==> x in r.keys by {
        forall x | x in l.keys ensures x in r.keys {
          var i :| 0 <= i < |l.keys| && l.keys[i] == x;
          assert r.keys[i] == x;
        }
      }
    }
  }

  /** Adding the keys `ks` one after another. */
  function AddAll(l: Lru, ks: seq<Key>): (r: Lru)
    ensures r.capacity == l.capacity
    decreases |ks|
  {
    if ks == [] then l else AddAll(Add(l, ks[0]), ks[1..])
  }

  /** How many keys were added after `k`: 0 for the most recent key. */
  function Age(l: Lru, k: Key): nat
    requires Has(l, k)
  {
    |l.keys| - 1 - IndexOf(l.keys, k)
  }

  lemma AgeAt(l: Lru, i: nat)
    requires Valid(l) && i < |l.keys|
    ensures Age(l, l.keys[i]) == |l.keys| - 1 - i
  {
  }

  /** One `add` makes a key present at most one step older, and a key younger than `capacity - 1` survives it. */
  lemma {:induction false} AddAges(l: Lru, k: Key, x: Key)
    requires Valid(l) && Has(l, x) && Age(l, x) + 1 < l.capacity
    ensures Has(Add(l, x), x) && Valid(Add(l, k))
    ensures Has(Add(l, k), x) && Age(Add(l, k), x) <= Age(l, x) + 1
  {
    AddValid(l, k);
    AddValid(l, x);
    var r := Add(l, k);
    var i :| 0 <= i < |l.keys| && l.keys[i] == x;
    AgeAt(l, i);
    if x == k {
      assert r.keys[|r.keys| - 1] == k;
      AgeAt(r, |r.keys| - 1);
    } else if k in l.keys {
      var t := Remove(l.keys, k);
      assert x in t;
      var j :| 0 <= j < |t| && t[j] == x;
      assert r.keys[j] == x;
      AgeAt(r, j);
      PrefixKept(l.keys, k, i);
      assert Age(r, x) == |r.keys| - 1 - j;
    } else if |l.keys| >= l.capacity {
      assert i > 0;
      assert r.keys[i - 1] == x;
      AgeAt(r, i - 1);
    } else {
      assert r.keys[i] == x;
      AgeAt(r, i);
    }
  }

  /** Removing `k` keeps everything after position `i` except `k` itself, so at most that many keys follow `s[i]`. */
  lemma {:induction false} PrefixKept(s: seq<Key>, k: Key, i: nat)
    requires i < |s| && s[i] != k
    requires Distinct(s)
    ensures forall j :: 0 <= j < |Remove(s, k)| && Remove(s, k)[j] == s[i] ==> |Remove(s, k)| - j <= |s| - i
    decreases |s|
  {
    var r := Remove(s, k);
    if s[0] == k {
      assert i > 0;
      assert forall a, b :: 0 <= a < b < |s[1..]| ==> s[1..][a] != s[1..][b] by {
        forall a, b | 0 <= a < b < |s[1..]| ensures s[1..][a] != s[1..][b] {
          assert s[1..][a] == s[a + 1] && s[1..][b] == s[b + 1];
        }
      }
      PrefixKept(s[1..], k, i - 1);
    } else if i == 0 {
    } else {
      assert forall a, b :: 0 <= a < b < |s[1..]| ==> s[1..][a] != s[1..][b] by {
        forall a, b | 0 <= a < b < |s[1..]| ensures s[1..][a] != s[1..][b] {
          assert s[1..][a] == s[a + 1] && s[1..][b] == s[b + 1];
        }
      }
      PrefixKept(s[1..], k, i - 1);
      var t := Remove(s[1..], k);
      forall j | 0 <= j < |r| && r[j] == s[i] ensures |r| - j <= |s| - i {
        assert j > 0;
        assert t[j - 1] == s[i];
      }
    }
  }

  /** A key recorded now is still present after `capacity - 1` further additions, whatever they are. */
  lemma {:induction false} RecentKeyRetained(l: Lru, k: Key, ks: seq<Key>)
    requires Valid(l) && |ks| < l.capacity
    ensures Has(AddAll(Add(l, k), ks), k)
  {
    AddValid(l, k);
    var r := Add(l, k);
    assert r.keys[|r.keys| - 1] == k;
    AgeAt(r, |r.keys| - 1);
    KeyRetained(r, k, ks);
  }

  lemma {:induction false} KeyRetained(l: Lru, x: Key, ks: seq<Key>)
    requires Valid(l) && Has(l, x) && Age(l, x) + |ks| < l.capacity
    ensures Has(AddAll(l, ks), x)
    decreases |ks|
  {
    if ks != [] {
      AddAges(l, ks[0], x);
      KeyRetained(Add(l, ks[0]), x, ks[1..]);
    }
  }

  // ------------------------------------------------------------ message keys

  /** Lower-case hexadecimal digit of a value below 16. */
  function HexDigit(d: nat): (c: char)
    requires d < 16
  {
    if d < 10 then '0' + d as char else 'a' + (d - 10) as char
  }

  /** `toString(bytes, "hex")`: two lower-case digits per byte, high nibble first. */
  function Hex(b: Bytes): (s: string)
    ensures |s| == 2 * |b|
    ensures forall i :: 0 <= i < |s| ==> IsHexChar(s[i])
  {
    if b == [] then "" else [HexDigit(b[0] / 16), HexDigit(b[0] % 16)] + Hex(b[1..])
  }

  predicate IsHexChar(c: char) {
    '0' <= c <= '9' || 'a' <= c <= 'f'
  }

  /** A non-negative integer in decimal, as string concatenation writes it. */
  function Decimal(n: nat): (s: string)
    ensures 0 < |s|
    ensures forall i :: 0 <= i < |s| ==> '0' <= s[i] <= '9'
    ensures n < 10 <==> |s| == 1
  {
    if n < 10 then [('0' as int + n) as char]
    else Decimal(n / 10) + [('0' as int + n % 10) as char]
  }

  /** The key `src/dht.ts` records (lines 158, 243 and 389): the origin in hex immediately followed by the sequence number. */
  function WrittenKey(origin: Bytes, sequence: nat): string
  {
    Hex(origin) + Decimal(sequence)
  }

  /** Two different messages share a key as written: origin ab12 with seq 3 and origin ab with seq 123 both give "ab123". */
  lemma WrittenKeyCollides()
    ensures [0xab, 0x12] != [0xab] && WrittenKey([0xab, 0x12], 3) == WrittenKey([0xab], 123)
    ensures forall l: Lru :: l.capacity > 0 ==> Has(Add(l, WrittenKey([0xab, 0x12], 3)), WrittenKey([0xab], 123))
  {
    assert Hex([0xab, 0x12]) == "ab12" by {
      assert [0xab, 0x12][1..] == [0x12];
      assert [0x12][1..] == [];
    }
    assert Hex([0xab]) == "ab" by {
      assert [0xab][1..] == [];
    }
    assert Decimal(123) == "123" by {
      assert Decimal(12) == "12";
    }
    assert "ab12" + "3" == "ab" + "123";
    forall l: Lru | l.capacity > 0 ensures Has(Add(l, WrittenKey([0xab, 0x12], 3)), WrittenKey([0xab], 123)) {
      var k := WrittenKey([0xab, 0x12], 3);
      if k in l.keys {
        assert Add(l, k).keys[|Add(l, k).keys| - 1] == k;
      } else if |l.keys| >= l.capacity {
        assert Add(l, k).keys[|l.keys[1..]|] == k;
      } else {
        assert Add(l, k).keys[|l.keys|] == k;
      }
    }
  }

  /** The corrected key, with a separator the digits never contain: the one the model's relay handlers record. */
  function PairKey(origin: Bytes, sequence: nat): string
  {
    Hex(origin) + ":" + Decimal(sequence)
  }

  lemma {:induction false} HexInjective(a: Bytes, b: Bytes)
    requires Hex(a) == Hex(b)
    ensures a == b
    decreases |a|
  {
    if a != [] {
      assert |b| == |a|;
      var ha := [HexDigit(a[0] / 16), HexDigit(a[0] % 16)];
      var hb := [HexDigit(b[0] / 16), HexDigit(b[0] % 16)];
      assert Hex(a)[0] == ha[0] && Hex(a)[1] == ha[1];
      assert Hex(b)[0] == hb[0] && Hex(b)[1] == hb[1];
      DigitInjective(a[0] / 16, b[0] / 16);
      DigitInjective(a[0] % 16, b[0] % 16);
      assert Hex(a)[2..] == Hex(a[1..]) && Hex(b)[2..] == Hex(b[1..]);
      HexInjective(a[1..], b[1..]);
      assert a == [a[0]] + a[1..] && b == [b[0]] + b[1..];
    }
  }

  lemma DigitInjective(x: nat, y: nat)
    requires x < 16 && y < 16 && HexDigit(x) == HexDigit(y)
    ensures x == y
  {
  }

  lemma {:induction false} DecimalInjective(m: nat, n: nat)
    requires Decimal(m) == Decimal(n)
    ensures m == n
    decreases m
  {
    if m >= 10 {
      assert n >= 10;
      var dm := Decimal(m);
      assert dm[..|dm| - 1] == Decimal(m / 10) && Decimal(n)[..|dm| - 1] == Decimal(n / 10);
      DecimalInjective(m / 10, n / 10);
      assert dm[|dm| - 1] == ('0' as int + m % 10) as char;
      assert Decimal(n)[|dm| - 1] == ('0' as int + n % 10) as char;
    }
  }

  /** Different messages get different corrected keys. */
  lemma {:induction false} PairKeyInjective(o1: Bytes, s1: nat, o2: Bytes, s2: nat)
    ensures PairKey(o1, s1) == PairKey(o2, s2) <==> o1 == o2 && s1 == s2
  {
    if PairKey(o1, s1) == PairKey(o2, s2) {
      var h1, h2 := Hex(o1), Hex(o2);
      var k := PairKey(o1, s1);
      assert k[|h1|] == ':';
      assert PairKey(o2, s2)[|h2|] == ':';
      assert |h1| == |h2|;
      assert h1 == k[..|h1|] && h2 == k[..|h2|];
      HexInjective(o1, o2);
      assert Decimal(s1) == k[|h1| + 1..] && Decimal(s2) == k[|h2| + 1..];
      DecimalInjective(s1, s2);
    }
  }
}
