/**
 * The separate-chaining hash map: string keys hashed by their UTF-16 code
 * units into an array of buckets, each bucket a list of key/value entries
 * searched linearly, with a load count that doubles the capacity and
 * rehashes every entry.
 */
module HashMaps {

  import opened Wrappers
  import opened Ordering

  /** A UTF-16 code unit, as `charCodeAt` returns it. */
  type CodeUnit = c: int | 0 <= c < 0x1_0000

  /** Keys are strings, seen as their code units. */
  type Key = seq<CodeUnit>

  /** Values are strings, so `has` can follow their truthiness exactly. */
  type Value = string

  datatype Entry = Entry(key: Key, value: Value)

  /** What `set` reports: an existing entry changed, or a new entry added. */
  datatype SetOutcome = Changed | Added

  /** The multiplier of the polynomial hash. */
  const PrimeNum: int := 31

  /** The capacity of a new map. */
  const InitialCapacity: nat := 16

  // ---------------------------------------------------------------------
  // The hash
  // ---------------------------------------------------------------------

  /** The key's code units read as a base-31 number (Horner's rule, no reduction). */
  function PolySum(key: Key): nat
  {
    if key == [] then 0 else PrimeNum * PolySum(key[..|key| - 1]) + key[|key| - 1]
  }

  /**
   * `hash(key, capacity)` as its loop computes it: Horner's rule reducing
   * modulo `capacity` after every code unit.
   */
  function HashCode(key: Key, capacity: int): (h: int)
    requires capacity >= 1
    ensures 0 <= h < capacity
  {
    if key == [] then 0 else (PrimeNum * HashCode(key[..|key| - 1], capacity) + key[|key| - 1]) % capacity
  }

  /** Reducing before a multiply-and-add does not change the remainder. */
  lemma {:induction false} ModHorner(x: nat, c: nat, m: int)
    requires m >= 1
    ensures (PrimeNum * (x % m) + c) % m == (PrimeNum * x + c) % m
  {
    var q, r := x / m, x % m;
    assert x == q * m + r;
    assert PrimeNum * x + c == (PrimeNum * q) * m + (PrimeNum * r + c);
    ModMultipleAdd(PrimeNum * q, PrimeNum * r + c, m);
  }

  /** Adding a multiple of `m` does not change the remainder. */
  lemma {:induction false} ModMultipleAdd(k: nat, y: nat, m: int)
    requires m >= 1
    ensures (k * m + y) % m == y % m
  {
    var q, r := y / m, y % m;
    assert y == q * m + r;
    assert k * m + y == (k + q) * m + r;
    ModUnique(k * m + y, m, k + q, r);
  }

  /** Euclidean division is unique: a quotient and remainder in range are the ones. */
  lemma {:induction false} ModUnique(a: int, m: int, q: int, r: int)
    requires m >= 1 && 0 <= r < m && a == q * m + r
    ensures a % m == r
  {
    var q2, r2 := a / m, a % m;
    assert a == q2 * m + r2;
    assert (q - q2) * m == r2 - r;
    MulBounds(m, q - q2);
  }

  lemma {:induction false} MulBounds(m: int, d: int)
    requires m >= 1
    ensures d >= 1 ==> m * d >= m
    ensures d <= -1 ==> m * d <= -m
  {
  }

  /**
   * The reduced loop computes the polynomial hash: `hash(key, capacity)` is
   * the base-31 value of the key modulo `capacity`; 0 for the empty key.
   */
  lemma {:induction false} HashIsPolySumMod(key: Key, capacity: int)
    requires capacity >= 1
    ensures HashCode(key, capacity) == PolySum(key) % capacity
  {
    if key != [] {
      var init := key[..|key| - 1];
      HashIsPolySumMod(init, capacity);
      ModHorner(PolySum(init), key[|key| - 1], capacity);
    }
  }

  // ---------------------------------------------------------------------
  // Buckets and their contents
  // ---------------------------------------------------------------------

  /** All entries, bucket by bucket: the order `entries()` lists them in. */
  function Flatten(bs: seq<seq<Entry>>): seq<Entry>
  {
    if bs == [] then [] else Flatten(bs[..|bs| - 1]) + bs[|bs| - 1]
  }

  function KeysOf(es: seq<Entry>): (r: seq<Key>)
    ensures |r| == |es| && forall i :: 0 <= i < |es| ==> r[i] == es[i].key
  {
    if es == [] then [] else KeysOf(es[..|es| - 1]) + [es[|es| - 1].key]
  }

  function ValuesOf(es: seq<Entry>): (r: seq<Value>)
    ensures |r| == |es| && forall i :: 0 <= i < |es| ==> r[i] == es[i].value
  {
    if es == [] then [] else ValuesOf(es[..|es| - 1]) + [es[|es| - 1].value]
  }

  /** The value of the first entry with `key` in one bucket. */
  function ValueIn(b: seq<Entry>, key: Key): Option<Value>
  {
    if b == [] then None
    else if b[0].key == key then Some(b[0].value)
    else ValueIn(b[1..], key)
  }

  /** The value the map holds for `key`: searched in the key's bucket only. */
  function Lookup(bs: seq<seq<Entry>>, key: Key): Option<Value>
  {
    if |bs| == 0 then None else ValueIn(bs[HashCode(key, |bs|)], key)
  }

  /** No key occurs twice in a bucket. */
  predicate UniqueKeys(b: seq<Entry>) {
    forall i, j :: 0 <= i < j < |b| ==> b[i].key != b[j].key
  }

  /** Every entry sits in the bucket its key hashes to. */
  predicate Placed(bs: seq<seq<Entry>>)
    requires |bs| >= 1
  {
    forall i, e :: 0 <= i < |bs| && e in bs[i] ==> HashCode(e.key, |bs|) == i
  }

  /** The shape of the buckets every operation keeps. */
  predicate WellFormedBuckets(bs: seq<seq<Entry>>) {
    |bs| >= 1 && Placed(bs) && forall i :: 0 <= i < |bs| ==> UniqueKeys(bs[i])
  }

  /** The hash of `"apple"` in a new map's 16 buckets. */
  lemma {:induction false} HashOfApple()
    ensures HashCode([97, 112, 112, 108, 101], InitialCapacity) == 10
  {
    var k1: Key, k2: Key, k3: Key, k4: Key, k5: Key := [97], [97, 112], [97, 112, 112], [97, 112, 112, 108], [97, 112, 112, 108, 101];
    assert k1[..0] == [] && HashCode(k1, 16) == 1;
    assert k2[..1] == k1 && HashCode(k2, 16) == 15;
    assert k3[..2] == k2 && HashCode(k3, 16) == 1;
    assert k4[..3] == k3 && HashCode(k4, 16) == 11;
    assert k5[..4] == k4 && HashCode(k5, 16) == 10;
  }

  // ---------------------------------------------------------------------
  // Facts about one bucket
  // ---------------------------------------------------------------------

  /**
   * `ValueIn` is the value at the first position holding the key, and
   * `None` exactly when no position holds it.
   */
  lemma {:induction false} ValueInFirst(b: seq<Entry>, key: Key)
    ensures ValueIn(b, key).None? <==> forall j :: 0 <= j < |b| ==> b[j].key != key
    ensures forall i :: 0 <= i < |b| && b[i].key == key && (forall j :: 0 <= j < i ==> b[j].key != key) ==>
      ValueIn(b, key) == Some(b[i].value)
  {
    if b != [] {
      ValueInFirst(b[1..], key);
      assert forall j :: 1 <= j < |b| ==> b[j] == b[1..][j - 1];
      if b[0].key != key {
        forall i | 0 <= i < |b| && b[i].key == key && (forall j :: 0 <= j < i ==> b[j].key != key)
          ensures ValueIn(b, key) == Some(b[i].value)
        {
          assert b[1..][i - 1] == b[i];
          assert forall j :: 0 <= j < i - 1 ==> b[1..][j] == b[j + 1];
        }
      }
    }
  }

  /** In a bucket without repeated keys, the value found is the value of an entry with that key. */
  lemma {:induction false} ValueInIsEntry(b: seq<Entry>, key: Key, value: Value)
    requires UniqueKeys(b)
    ensures ValueIn(b, key) == Some(value) <==> Entry(key, value) in b
  {
    ValueInFirst(b, key);
    if Entry(key, value) in b {
      var i :| 0 <= i < |b| && b[i] == Entry(key, value);
      assert forall j :: 0 <= j < i ==> b[j].key != key;
    }
    if ValueIn(b, key) == Some(value) {
      var i :| 0 <= i < |b| && b[i].key == key;
      ValueInFirstIndex(b, key, i);
    }
  }

  /** When some position holds the key, the value found is held by such a position. */
  lemma {:induction false} ValueInFirstIndex(b: seq<Entry>, key: Key, i: int)
    requires 0 <= i < |b| && b[i].key == key
    ensures exists k :: 0 <= k < |b| && b[k].key == key && ValueIn(b, key) == Some(b[k].value)
  {
    if b[0].key != key {
      ValueInFirstIndex(b[1..], key, i - 1);
      var k :| 0 <= k < |b[1..]| && b[1..][k].key == key && ValueIn(b[1..], key) == Some(b[1..][k].value);
      assert b[k + 1] == b[1..][k];
    } else {
      assert b[0].key == key && ValueIn(b, key) == Some(b[0].value);
    }
  }

  /** Appending an entry with a new key makes that key find it and leaves every other key alone. */
  lemma {:induction false} ValueInAppend(b: seq<Entry>, e: Entry, key: Key)
    requires forall j :: 0 <= j < |b| ==> b[j].key != e.key
    ensures ValueIn(b + [e], key) == if key == e.key then Some(e.value) else ValueIn(b, key)
  {
    if b != [] {
      assert (b + [e])[0] == b[0];
      assert (b + [e])[1..] == b[1..] + [e];
      ValueInAppend(b[1..], e, key);
    }
  }

  /** Overwriting the value of one entry changes what its key finds and nothing else. */
  lemma {:induction false} ValueInReplace(b: seq<Entry>, i: int, value: Value, key: Key)
    requires UniqueKeys(b) && 0 <= i < |b|
    ensures ValueIn(b[i := Entry(b[i].key, value)], key) == if key == b[i].key then Some(value) else ValueIn(b, key)
  {
    var b' := b[i := Entry(b[i].key, value)];
    if i == 0 {
      assert b'[1..] == b[1..];
    } else {
      assert b'[0] == b[0];
      assert b'[1..] == b[1..][i - 1 := Entry(b[i].key, value)];
      assert UniqueKeys(b[1..]) by {
        forall p, q | 0 <= p < q < |b[1..]| ensures b[1..][p].key != b[1..][q].key {
          assert b[1..][p] == b[p + 1] && b[1..][q] == b[q + 1];
        }
      }
      ValueInReplace(b[1..], i - 1, value, key);
    }
  }

  // ---------------------------------------------------------------------
  // Facts about all buckets
  // ---------------------------------------------------------------------

  /** An entry is listed exactly when some bucket holds it. */
  lemma {:induction false} InFlatten(bs: seq<seq<Entry>>, e: Entry)
    ensures e in Flatten(bs) <==> exists i :: 0 <= i < |bs| && e in bs[i]
  {
    if bs != [] {
      var init := bs[..|bs| - 1];
      InFlatten(init, e);
      assert forall i :: 0 <= i < |init| ==> init[i] == bs[i];
      if e in Flatten(bs) && e !in bs[|bs| - 1] {
        var i :| 0 <= i < |init| && e in init[i];
        assert e in bs[i];
      }
    }
  }

  /** Listing two runs of buckets one after the other lists them back to back. */
  lemma {:induction false} FlattenAppend(a: seq<seq<Entry>>, b: seq<seq<Entry>>)
    ensures Flatten(a + b) == Flatten(a) + Flatten(b)
  {
    if b == [] {
      assert a + b == a;
    } else {
      var init := b[..|b| - 1];
      assert (a + b)[..|a + b| - 1] == a + init;
      FlattenAppend(a, init);
    }
  }

  /** The listing is the buckets before `h`, bucket `h`, then the buckets after it. */
  lemma {:induction false} FlattenAround(bs: seq<seq<Entry>>, h: int)
    requires 0 <= h < |bs|
    ensures Flatten(bs) == Flatten(bs[..h]) + bs[h] + Flatten(bs[h + 1..])
  {
    var before, at, after := bs[..h], [bs[h]], bs[h + 1..];
    calc {
      Flatten(bs);
      { assert bs == (before + at) + after; }
      Flatten((before + at) + after);
      { FlattenAppend(before + at, after); }
      Flatten(before + at) + Flatten(after);
      { FlattenAppend(before, at); }
      Flatten(before) + Flatten(at) + Flatten(after);
      { assert at[..0] == []; }
      Flatten(before) + bs[h] + Flatten(after);
    }
  }

  /**
   * Replacing one bucket replaces its entries in the listing: the listing
   * loses the old bucket's entries and gains the new one's.
   */
  lemma {:induction false} FlattenUpdate(bs: seq<seq<Entry>>, h: int, nb: seq<Entry>)
    requires 0 <= h < |bs|
    ensures multiset(Flatten(bs[h := nb])) + multiset(bs[h]) == multiset(Flatten(bs)) + multiset(nb)
  {
    var bs' := bs[h := nb];
    FlattenAround(bs, h);
    FlattenAround(bs', h);
    assert bs'[..h] == bs[..h] && bs'[h + 1..] == bs[h + 1..];
  }

  /** The listing's length changes by the difference of the two buckets' lengths. */
  lemma {:induction false} FlattenUpdateLength(bs: seq<seq<Entry>>, h: int, nb: seq<Entry>)
    requires 0 <= h < |bs|
    ensures |Flatten(bs[h := nb])| + |bs[h]| == |Flatten(bs)| + |nb|
  {
    FlattenUpdate(bs, h, nb);
    assert |multiset(Flatten(bs[h := nb])) + multiset(bs[h])| == |multiset(Flatten(bs)) + multiset(nb)|;
  }

  /** Buckets that are all empty list nothing. */
  lemma {:induction false} FlattenEmpty(bs: seq<seq<Entry>>)
    requires forall i :: 0 <= i < |bs| ==> bs[i] == []
    ensures Flatten(bs) == []
  {
    if bs != [] {
      FlattenEmpty(bs[..|bs| - 1]);
    }
  }

  /** Listing one more bucket appends its entries. */
  lemma {:induction false} FlattenStep(bs: seq<seq<Entry>>, n: int)
    requires 0 <= n < |bs|
    ensures Flatten(bs[..n + 1]) == Flatten(bs[..n]) + bs[n]
  {
    assert bs[..n + 1][..n] == bs[..n];
  }

  /**
   * In well-formed buckets the map holds `value` for `key` exactly when the
   * listing has the entry `(key, value)`.
   */
  lemma {:induction false} LookupIsEntry(bs: seq<seq<Entry>>, key: Key, value: Value)
    requires WellFormedBuckets(bs)
    ensures Lookup(bs, key) == Some(value) <==> Entry(key, value) in Flatten(bs)
  {
    var h := HashCode(key, |bs|);
    ValueInIsEntry(bs[h], key, value);
    InFlatten(bs, Entry(key, value));
  }

  /** Well-formed buckets listing the same entries hold the same map. */
  lemma {:induction false} LookupByEntries(bs1: seq<seq<Entry>>, bs2: seq<seq<Entry>>)
    requires WellFormedBuckets(bs1) && WellFormedBuckets(bs2)
    requires multiset(Flatten(bs1)) == multiset(Flatten(bs2))
    ensures forall key :: Lookup(bs1, key) == Lookup(bs2, key)
  {
    assert forall e :: e in Flatten(bs1) <==> e in multiset(Flatten(bs2));
    forall key ensures Lookup(bs1, key) == Lookup(bs2, key) {
      if Lookup(bs1, key).Some? {
        LookupIsEntry(bs1, key, Lookup(bs1, key).value);
        LookupIsEntry(bs2, key, Lookup(bs1, key).value);
      } else if Lookup(bs2, key).Some? {
        LookupIsEntry(bs1, key, Lookup(bs2, key).value);
        LookupIsEntry(bs2, key, Lookup(bs2, key).value);
      }
    }
  }

  /** No key is listed twice: keys in different buckets hash differently. */
  lemma {:induction false} KeysDistinct(bs: seq<seq<Entry>>)
    requires WellFormedBuckets(bs)
    ensures Distinct(KeysOf(Flatten(bs)))
  {
    KeysDistinctUpTo(bs, |bs|);
    assert bs[..|bs|] == bs;
  }

  lemma {:induction false} KeysDistinctUpTo(bs: seq<seq<Entry>>, n: int)
    requires WellFormedBuckets(bs) && 0 <= n <= |bs|
    ensures Distinct(KeysOf(Flatten(bs[..n])))
    ensures forall e :: e in Flatten(bs[..n]) ==> HashCode(e.key, |bs|) < n
  {
    if n > 0 {
      KeysDistinctUpTo(bs, n - 1);
      FlattenStep(bs, n - 1);
      var front, last := Flatten(bs[..n - 1]), bs[n - 1];
      var all := front + last;
      assert forall e :: e in last ==> HashCode(e.key, |bs|) == n - 1;
      forall i, j | 0 <= i < j < |all| ensures all[i].key != all[j].key {
        if j < |front| {
          assert KeysOf(front)[i] == front[i].key && KeysOf(front)[j] == front[j].key;
        } else if i >= |front| {
          assert all[i] == last[i - |front|] && all[j] == last[j - |front|];
        } else {
          assert all[i] == front[i] && front[i] in front;
          assert all[j] == last[j - |front|] && last[j - |front|] in last;
        }
      }
    }
  }

  /** The buckets after a new key's entry is added at the end of its bucket. */
  function Appended(bs: seq<seq<Entry>>, key: Key, value: Value): seq<seq<Entry>>
    requires |bs| >= 1
  {
    var h := HashCode(key, |bs|);
    bs[h := bs[h] + [Entry(key, value)]]
  }

  /** The buckets after the `i`th entry of the key's bucket gets `value`. */
  function Replaced(bs: seq<seq<Entry>>, key: Key, value: Value, i: int): seq<seq<Entry>>
    requires |bs| >= 1 && 0 <= i < |bs[HashCode(key, |bs|)]|
  {
    var h := HashCode(key, |bs|);
    bs[h := bs[h][i := Entry(key, value)]]
  }

  /** Adding a key the map does not hold keeps the buckets well formed. */
  lemma {:induction false} AppendKeepsWellFormed(bs: seq<seq<Entry>>, key: Key, value: Value)
    requires WellFormedBuckets(bs) && Lookup(bs, key).None?
    ensures WellFormedBuckets(Appended(bs, key, value))
  {
    var h := HashCode(key, |bs|);
    var e := Entry(key, value);
    var nb := bs[h] + [e];
    var bs' := Appended(bs, key, value);
    ValueInFirst(bs[h], key);
    assert UniqueKeys(nb) by {
      forall i, j | 0 <= i < j < |nb| ensures nb[i].key != nb[j].key {
        assert nb[i] == bs[h][i];
      }
    }
    assert Placed(bs') by {
      forall i, x: Entry | 0 <= i < |bs'| && x in bs'[i] ensures HashCode(x.key, |bs'|) == i {
        if i == h && x !in bs[h] {
          assert x == e;
        }
      }
    }
  }

  /** Adding a key adds exactly its entry to the listing. */
  lemma {:induction false} AppendAddsEntry(bs: seq<seq<Entry>>, key: Key, value: Value)
    requires |bs| >= 1
    ensures multiset(Flatten(Appended(bs, key, value))) == multiset(Flatten(bs)) + multiset{Entry(key, value)}
    ensures |Flatten(Appended(bs, key, value))| == |Flatten(bs)| + 1
  {
    var h := HashCode(key, |bs|);
    var bs' := Appended(bs, key, value);
    FlattenAround(bs, h);
    FlattenAround(bs', h);
    assert bs'[..h] == bs[..h] && bs'[h + 1..] == bs[h + 1..];
  }

  /** After adding a new key it finds its value, and every other key finds what it did. */
  lemma {:induction false} AppendLookup(bs: seq<seq<Entry>>, key: Key, value: Value, k: Key)
    requires WellFormedBuckets(bs) && Lookup(bs, key).None?
    ensures Lookup(Appended(bs, key, value), k) == if k == key then Some(value) else Lookup(bs, k)
  {
    var h := HashCode(key, |bs|);
    ValueInFirst(bs[h], key);
    if HashCode(k, |bs|) == h {
      ValueInAppend(bs[h], Entry(key, value), k);
    }
  }

  /** Overwriting a key's value keeps the buckets well formed and the listing's length. */
  lemma {:induction false} ReplaceKeepsWellFormed(bs: seq<seq<Entry>>, key: Key, value: Value, i: int)
    requires WellFormedBuckets(bs)
    requires 0 <= i < |bs[HashCode(key, |bs|)]| && bs[HashCode(key, |bs|)][i].key == key
    ensures WellFormedBuckets(Replaced(bs, key, value, i))
    ensures |Flatten(Replaced(bs, key, value, i))| == |Flatten(bs)|
  {
    var h := HashCode(key, |bs|);
    var nb := bs[h][i := Entry(key, value)];
    var bs' := Replaced(bs, key, value, i);
    FlattenUpdateLength(bs, h, nb);
    assert UniqueKeys(nb) by {
      forall p, q | 0 <= p < q < |nb| ensures nb[p].key != nb[q].key {
        assert nb[p].key == bs[h][p].key && nb[q].key == bs[h][q].key;
      }
    }
    assert Placed(bs') by {
      forall j, x: Entry | 0 <= j < |bs'| && x in bs'[j] ensures HashCode(x.key, |bs'|) == j {
        if j == h && x !in bs[h] {
          assert x.key == key;
        }
      }
    }
  }

  /** After overwriting a key's value it finds the new value, and every other key finds what it did. */
  lemma {:induction false} ReplaceLookup(bs: seq<seq<Entry>>, key: Key, value: Value, i: int, k: Key)
    requires WellFormedBuckets(bs)
    requires 0 <= i < |bs[HashCode(key, |bs|)]| && bs[HashCode(key, |bs|)][i].key == key
    ensures Lookup(Replaced(bs, key, value, i), k) == if k == key then Some(value) else Lookup(bs, k)
  {
    var h := HashCode(key, |bs|);
    if HashCode(k, |bs|) == h {
      ValueInReplace(bs[h], i, value, k);
    }
  }

  /**
   * Overwriting a key's value swaps its old entry for the new one in the
   * listing.
   */
  lemma {:induction false} ReplaceSwapsEntry(bs: seq<seq<Entry>>, key: Key, value: Value, i: int)
    requires |bs| >= 1 && 0 <= i < |bs[HashCode(key, |bs|)]|
    ensures var old_ := bs[HashCode(key, |bs|)][i];
      multiset(Flatten(Replaced(bs, key, value, i))) == multiset(Flatten(bs)) - multiset{old_} + multiset{Entry(key, value)}
  {
    var h := HashCode(key, |bs|);
    var b := bs[h];
    var bs' := Replaced(bs, key, value, i);
    var o, e := b[i], Entry(key, value);
    FlattenAround(bs, h);
    FlattenAround(bs', h);
    assert bs'[..h] == bs[..h] && bs'[h + 1..] == bs[h + 1..];
    var mA, mC := multiset(Flatten(bs[..h])), multiset(Flatten(bs[h + 1..]));
    assert multiset(Flatten(bs)) == mA + multiset(b) + mC;
    assert multiset(Flatten(bs')) == mA + multiset(bs'[h]) + mC;
    BucketSwap(b, i, e);
    SwapInside(mA, multiset(b), mC, o, e);
  }

  lemma {:induction false} SwapInside(mA: multiset<Entry>, mb: multiset<Entry>, mC: multiset<Entry>, o: Entry, e: Entry)
    requires o in mb
    ensures mA + (mb - multiset{o} + multiset{e}) + mC == mA + mb + mC - multiset{o} + multiset{e}
  {
  }

  /** Overwriting one entry of a bucket swaps it in the bucket's multiset. */
  lemma {:induction false} BucketSwap(b: seq<Entry>, i: int, e: Entry)
    requires 0 <= i < |b|
    ensures multiset(b[i := e]) == multiset(b) - multiset{b[i]} + multiset{e}
  {
    var pre, post := b[..i], b[i + 1..];
    assert b == pre + [b[i]] + post;
    assert b[i := e] == pre + [e] + post;
  }

  /** In a listing without repeated keys, the `i`th key is none of the earlier ones. */
  lemma {:induction false} LaterKeyIsNew(es: seq<Entry>, i: int)
    requires Distinct(KeysOf(es)) && 0 <= i < |es|
    ensures forall j :: 0 <= j < |es[..i]| ==> es[..i][j].key != es[i].key
  {
    forall j | 0 <= j < i ensures es[..i][j].key != es[i].key {
      assert KeysOf(es)[j] == es[j].key && KeysOf(es)[i] == es[i].key;
    }
  }

  /**
   * A key none of the listed entries carries is not in the map: the loop of
   * `resize` only ever adds new keys.
   */
  lemma {:induction false} NewKeyAbsent(bs: seq<seq<Entry>>, done: seq<Entry>, key: Key)
    requires WellFormedBuckets(bs) && multiset(Flatten(bs)) == multiset(done)
    requires forall j :: 0 <= j < |done| ==> done[j].key != key
    ensures Lookup(bs, key).None?
  {
    forall v ensures Lookup(bs, key) != Some(v) {
      LookupIsEntry(bs, key, v);
      assert Entry(key, v) !in multiset(done);
    }
  }

  // ---------------------------------------------------------------------
  // The map object
  // ---------------------------------------------------------------------

  /** The load at which `countSize` doubles the capacity. */
  const LoadFactor: real := 0.75

  /** The load test on reals is the integer test `4 * size >= 3 * capacity`. */
  lemma {:induction false} LoadReached(size: nat, capacity: nat)
    requires capacity >= 1
    ensures (size as real) / (capacity as real) >= LoadFactor <==> 4 * size >= 3 * capacity
  {
    var q := (size as real) / (capacity as real);
    assert q * (capacity as real) == size as real;
  }

  class HashMap {
    var capacity: nat
    var sizeCount: nat
    /** Bucket `i` is the list of entries whose key hashes to `i`. */
    var buckets: seq<seq<Entry>>

    /** The shape `set` relies on, kept even while `resize` re-inserts. */
    ghost predicate WellFormed()
      reads this
    {
      capacity == |buckets| && WellFormedBuckets(buckets)
    }

    /** Between calls: the count is the number of entries and the load stays below the factor. */
    ghost predicate Valid()
      reads this
    {
      WellFormed() && capacity >= InitialCapacity &&
      sizeCount == |Flatten(buckets)| && 4 * sizeCount < 3 * capacity
    }

    constructor()
      ensures Valid() && capacity == InitialCapacity && sizeCount == 0
      ensures Flatten(buckets) == [] && forall key :: Lookup(buckets, key) == None
    {
      capacity := InitialCapacity;
      sizeCount := 0;
      var arr := HashMap.CreateBuckets(InitialCapacity);
      buckets := arr;
      new;
      FlattenEmpty(buckets);
    }

    /** `amount` empty buckets. */
    static method CreateBuckets(amount: nat) returns (arr: seq<seq<Entry>>)
      ensures |arr| == amount && forall i :: 0 <= i < amount ==> arr[i] == []
      ensures amount >= 1 ==> WellFormedBuckets(arr)
    {
      arr := [];
      for i := 0 to amount
        invariant |arr| == i && forall j :: 0 <= j < i ==> arr[j] == []
      {
        arr := arr + [[]];
      }
    }

    /** The bucket index of `key`: its polynomial hash modulo `capacity`. */
    static method Hash(key: Key, capacity: int) returns (hashCode: int)
      requires capacity >= 1
      ensures hashCode == PolySum(key) % capacity
      ensures 0 <= hashCode < capacity
    {
      hashCode := 0;
      for i := 0 to |key|
        invariant hashCode == HashCode(key[..i], capacity)
      {
        assert key[..i + 1][..i] == key[..i];
        hashCode := (PrimeNum * hashCode + key[i]) % capacity;
      }
      assert key[..|key|] == key;
      HashIsPolySumMod(key, capacity);
    }

    /** The bucket `key` belongs in, with its index. */
    method Bucket(key: Key) returns (h: nat, bucket: seq<Entry>)
      requires |buckets| >= 1
      ensures h == HashCode(key, |buckets|) == PolySum(key) % |buckets| && bucket == buckets[h]
      ensures ValueIn(bucket, key) == Lookup(buckets, key)
    {
      var hash := Hash(key, |buckets|);
      HashIsPolySumMod(key, |buckets|);
      h, bucket := hash, buckets[hash];
    }

    /** The position of the first entry of `bucket` with `key`, if any. */
    static method FindEntry(bucket: seq<Entry>, key: Key) returns (found: Option<nat>)
      ensures found.None? <==> forall j :: 0 <= j < |bucket| ==> bucket[j].key != key
      ensures found.Some? ==>
        found.value < |bucket| && bucket[found.value].key == key &&
        forall j :: 0 <= j < found.value ==> bucket[j].key != key
      ensures found.None? <==> ValueIn(bucket, key).None?
      ensures found.Some? ==> ValueIn(bucket, key) == Some(bucket[found.value].value)
    {
      ValueInFirst(bucket, key);
      for i := 0 to |bucket|
        invariant forall j :: 0 <= j < i ==> bucket[j].key != key
      {
        if bucket[i].key == key {
          return Some(i);
        }
      }
      return None;
    }

    /**
     * Sets `key` to `value`. An existing entry is overwritten in place; a new
     * key is appended to its bucket and, unless the call comes from `resize`,
     * counted, which may double the capacity.
     */
    method Set(key: Key, value: Value, isResizing: bool) returns (outcome: SetOutcome)
      modifies this
      requires WellFormed() && (!isResizing ==> Valid())
      decreases if isResizing then 0 else 4
      ensures WellFormed() && (!isResizing ==> Valid())
      ensures forall k :: Lookup(buckets, k) == if k == key then Some(value) else Lookup(old(buckets), k)
      ensures outcome == Changed <==> Lookup(old(buckets), key).Some?
      ensures outcome == Changed ==>
        capacity == old(capacity) && sizeCount == old(sizeCount) &&
        multiset(Flatten(buckets)) == multiset(Flatten(old(buckets)))
          - multiset{Entry(key, Lookup(old(buckets), key).value)} + multiset{Entry(key, value)}
      ensures outcome == Added ==>
        multiset(Flatten(buckets)) == multiset(Flatten(old(buckets))) + multiset{Entry(key, value)}
      ensures outcome == Added && isResizing ==>
        capacity == old(capacity) && sizeCount == old(sizeCount) && buckets == Appended(old(buckets), key, value)
      ensures outcome == Added && !isResizing ==>
        sizeCount == old(sizeCount) + 1 &&
        capacity == (if 4 * sizeCount >= 3 * old(capacity) then old(capacity) + old(capacity) else old(capacity))
      ensures outcome == Added && capacity == old(capacity) ==> buckets == Appended(old(buckets), key, value)
    {
      var h, bucket := Bucket(key);
      var found := FindEntry(bucket, key);
      if found.Some? {
        var i := found.value;
        ReplaceKeepsWellFormed(buckets, key, value, i);
        ReplaceSwapsEntry(buckets, key, value, i);
        forall k ensures Lookup(Replaced(buckets, key, value, i), k) == if k == key then Some(value) else Lookup(buckets, k) {
          ReplaceLookup(buckets, key, value, i, k);
        }
        buckets := buckets[h := bucket[i := Entry(key, value)]];
        return Changed;
      }
      AppendKeepsWellFormed(buckets, key, value);
      AppendAddsEntry(buckets, key, value);
      forall k ensures Lookup(Appended(buckets, key, value), k) == if k == key then Some(value) else Lookup(buckets, k) {
        AppendLookup(buckets, key, value, k);
      }
      buckets := buckets[h := bucket + [Entry(key, value)]];
      if !isResizing {
        var _ := CountSize();
      }
      return Added;
    }

    /**
     * Counts one more entry and doubles the capacity once the load reaches
     * the factor; returns the new count.
     */
    method CountSize() returns (n: nat)
      modifies this
      requires WellFormed() && capacity >= InitialCapacity
      requires sizeCount + 1 == |Flatten(buckets)| && 4 * sizeCount < 3 * capacity
      decreases 3
      ensures Valid() && n == sizeCount == old(sizeCount) + 1
      ensures capacity == if 4 * n >= 3 * old(capacity) then old(capacity) + old(capacity) else old(capacity)
      ensures capacity == old(capacity) ==> buckets == old(buckets)
      ensures multiset(Flatten(buckets)) == multiset(Flatten(old(buckets)))
      ensures forall k :: Lookup(buckets, k) == Lookup(old(buckets), k)
    {
      sizeCount := sizeCount + 1;
      var overloaded := LoadReachesFactor(sizeCount, capacity);
      if overloaded {
        Resize();
      }
      n := sizeCount;
    }

    /** Whether `size / capacity` has reached the load factor. */
    static method LoadReachesFactor(size: nat, capacity: nat) returns (reached: bool)
      requires capacity >= 1
      ensures reached <==> 4 * size >= 3 * capacity
    {
      var load := (size as real) / (capacity as real);
      reached := load >= LoadFactor;
      LoadReached(size, capacity);
    }

    /**
     * Doubles the capacity and re-inserts every entry, in listing order, into
     * fresh empty buckets.
     */
    method Resize()
      modifies this
      requires WellFormed()
      decreases 2
      ensures WellFormed() && capacity == old(capacity) + old(capacity) && sizeCount == old(sizeCount)
      ensures multiset(Flatten(buckets)) == multiset(Flatten(old(buckets)))
      ensures |Flatten(buckets)| == |Flatten(old(buckets))|
      ensures forall k :: Lookup(buckets, k) == Lookup(old(buckets), k)
    {
      ghost var before := buckets;
      var oldArr := Entries();
      KeysDistinct(buckets);
      capacity := capacity + capacity;
      buckets := CreateBuckets(capacity);
      FlattenEmpty(buckets);
      Reinsert(oldArr);
      LookupByEntries(before, buckets);
      assert |Flatten(buckets)| == |multiset(Flatten(buckets))| == |Flatten(before)|;
    }

    /** The `forEach` of `resize`: `set`s every entry of `es`, in order, while resizing. */
    method Reinsert(es: seq<Entry>)
      modifies this
      requires WellFormed() && Flatten(buckets) == [] && Distinct(KeysOf(es))
      decreases 1
      ensures WellFormed() && capacity == old(capacity) && sizeCount == old(sizeCount)
      ensures multiset(Flatten(buckets)) == multiset(es)
    {
      for i := 0 to |es|
        invariant WellFormed() && capacity == old(capacity) && sizeCount == old(sizeCount)
        invariant multiset(Flatten(buckets)) == multiset(es[..i])
      {
        var e := es[i];
        ghost var done := es[..i];
        PrefixSnoc(es, i);
        ghost var prev := buckets;
        LaterKeyIsNew(es, i);
        NewKeyAbsent(buckets, done, e.key);
        var _ := Set(e.key, e.value, true);
        assert multiset(Flatten(buckets)) == multiset(Flatten(prev)) + multiset{e};
      }
      assert es[..|es|] == es;
    }

    /** The value held for `key`, if any. */
    method Get(key: Key) returns (r: Option<Value>)
      requires WellFormed()
      ensures r == Lookup(buckets, key)
      ensures forall v :: r == Some(v) <==> Entry(key, v) in Flatten(buckets)
    {
      var h, bucket := Bucket(key);
      var found := FindEntry(bucket, key);
      r := if found.Some? then Some(bucket[found.value].value) else None;
      forall v ensures r == Some(v) <==> Entry(key, v) in Flatten(buckets) {
        LookupIsEntry(buckets, key, v);
      }
    }

    /** Whether `key` holds a truthy value: present, and not the empty string. */
    method Has(key: Key) returns (b: bool)
      requires WellFormed()
      ensures b <==> exists v :: v != "" && Entry(key, v) in Flatten(buckets)
    {
      var item := Get(key);
      b := !(item.None? || item.value == "");
    }

    /** The number of entries, counted bucket by bucket. */
    method Length() returns (keyCount: nat)
      ensures keyCount == |Flatten(buckets)|
      ensures Valid() ==> keyCount == sizeCount
    {
      keyCount := 0;
      for b := 0 to |buckets|
        invariant keyCount == |Flatten(buckets[..b])|
      {
        var bucket := buckets[b];
        for j := 0 to |bucket|
          invariant keyCount == |Flatten(buckets[..b])| + j
        {
          keyCount := keyCount + 1;
        }
        FlattenStep(buckets, b);
      }
      assert buckets[..|buckets|] == buckets;
    }

    /** Every key, bucket by bucket; no key is listed twice. */
    method Keys() returns (keysArr: seq<Key>)
      ensures keysArr == KeysOf(Flatten(buckets))
      ensures WellFormed() ==> Distinct(keysArr)
      ensures WellFormed() ==> forall k :: k in keysArr <==> Lookup(buckets, k).Some?
    {
      var bs := buckets;
      keysArr := [];
      for b := 0 to |bs|
        invariant keysArr == KeysOf(Flatten(bs[..b]))
      {
        keysArr := PushKeys(keysArr, bs[b]);
        FlattenStep(bs, b);
        KeysOfAppend(Flatten(bs[..b]), bs[b]);
      }
      assert keysArr == KeysOf(Flatten(bs)) by {
        assert bs[..|bs|] == bs;
      }
      if WellFormed() {
        KeysDistinct(bs);
        KeysHeld(bs);
      }
    }

    /**
     * The inner loop of `keys()`: push the key of every entry of one bucket.
     * Its `if (entry)` guard always holds, since every entry is an object.
     */
    static method PushKeys(arr: seq<Key>, bucket: seq<Entry>) returns (r: seq<Key>)
      ensures r == arr + KeysOf(bucket)
    {
      r := arr;
      for j := 0 to |bucket|
        invariant r == arr + KeysOf(bucket[..j])
      {
        PrefixSnoc(bucket, j);
        KeysOfSnoc(bucket[..j], bucket[j]);
        r := r + [bucket[j].key];
      }
      assert bucket[..|bucket|] == bucket;
    }

    /** Every value, bucket by bucket. */
    method Values() returns (valuesArr: seq<Value>)
      ensures valuesArr == ValuesOf(Flatten(buckets))
      ensures WellFormed() ==> forall k, v :: Lookup(buckets, k) == Some(v) ==> v in valuesArr
    {
      var bs := buckets;
      valuesArr := [];
      for b := 0 to |bs|
        invariant valuesArr == ValuesOf(Flatten(bs[..b]))
      {
        valuesArr := PushValues(valuesArr, bs[b]);
        FlattenStep(bs, b);
        ValuesOfAppend(Flatten(bs[..b]), bs[b]);
      }
      assert valuesArr == ValuesOf(Flatten(bs)) by {
        assert bs[..|bs|] == bs;
      }
      if WellFormed() {
        ValuesHeld(bs);
      }
    }

    /** The inner loop of `values()`: push the value of every entry of one bucket. */
    static method PushValues(arr: seq<Value>, bucket: seq<Entry>) returns (r: seq<Value>)
      ensures r == arr + ValuesOf(bucket)
    {
      r := arr;
      for j := 0 to |bucket|
        invariant r == arr + ValuesOf(bucket[..j])
      {
        PrefixSnoc(bucket, j);
        ValuesOfSnoc(bucket[..j], bucket[j]);
        r := r + [bucket[j].value];
      }
      assert bucket[..|bucket|] == bucket;
    }

    /** Every entry, bucket by bucket, skipping empty buckets. */
    method Entries() returns (entriesArr: seq<Entry>)
      ensures entriesArr == Flatten(buckets)
    {
      entriesArr := [];
      for b := 0 to |buckets|
        invariant entriesArr == Flatten(buckets[..b])
      {
        var bucket := buckets[b];
        FlattenStep(buckets, b);
        if |bucket| == 0 {
          continue;
        }
        ghost var listed := Flatten(buckets[..b]);
        for j := 0 to |bucket|
          invariant entriesArr == listed + bucket[..j]
        {
          assert bucket[..j + 1] == bucket[..j] + [bucket[j]];
          entriesArr := entriesArr + [bucket[j]];
        }
        assert bucket[..|bucket|] == bucket;
      }
      assert buckets[..|buckets|] == buckets;
    }

    /**
     * Empties every bucket and resets the count; the capacity stays. Inside
     * the loop over a bucket, `splice` with an entry as its start argument
     * starts at position 0 and so removes the whole bucket at once.
     */
    method Clear()
      modifies this
      ensures capacity == old(capacity) && |buckets| == |old(buckets)| && sizeCount == 0
      ensures forall i :: 0 <= i < |buckets| ==> buckets[i] == []
      ensures Flatten(buckets) == [] && forall k :: Lookup(buckets, k) == None
      ensures old(Valid()) ==> Valid()
    {
      for b := 0 to |buckets|
        invariant capacity == old(capacity) && |buckets| == |old(buckets)|
        invariant forall i :: 0 <= i < b ==> buckets[i] == []
      {
        var j := 0;
        while j < |buckets[b]|
          invariant capacity == old(capacity) && |buckets| == |old(buckets)|
          invariant forall i :: 0 <= i < b ==> buckets[i] == []
          invariant j == 0 || buckets[b] == []
          decreases |buckets[b]| - j
        {
          buckets := buckets[b := buckets[b][..0]];
          j := j + 1;
        }
      }
      sizeCount := 0;
      FlattenEmpty(buckets);
      if old(Valid()) {
        assert Placed(buckets) by {
          assert forall i, e :: 0 <= i < |buckets| && e in buckets[i] ==> false;
        }
      }
    }
  }

  lemma {:induction false} PrefixSnoc<T>(s: seq<T>, i: int)
    requires 0 <= i < |s|
    ensures s[..i + 1] == s[..i] + [s[i]]
  {
  }

  lemma {:induction false} KeysOfSnoc(es: seq<Entry>, e: Entry)
    ensures KeysOf(es + [e]) == KeysOf(es) + [e.key]
  {
    assert (es + [e])[..|es|] == es;
  }

  lemma {:induction false} KeysOfAppend(a: seq<Entry>, b: seq<Entry>)
    ensures KeysOf(a + b) == KeysOf(a) + KeysOf(b)
  {
    assert forall i :: 0 <= i < |a + b| ==> (a + b)[i] == if i < |a| then a[i] else b[i - |a|];
  }

  lemma {:induction false} ValuesOfAppend(a: seq<Entry>, b: seq<Entry>)
    ensures ValuesOf(a + b) == ValuesOf(a) + ValuesOf(b)
  {
    assert forall i :: 0 <= i < |a + b| ==> (a + b)[i] == if i < |a| then a[i] else b[i - |a|];
  }

  lemma {:induction false} ValuesOfSnoc(es: seq<Entry>, e: Entry)
    ensures ValuesOf(es + [e]) == ValuesOf(es) + [e.value]
  {
    assert (es + [e])[..|es|] == es;
  }

  /** The listed keys are exactly the keys the map holds a value for. */
  lemma {:induction false} KeysHeld(bs: seq<seq<Entry>>)
    requires WellFormedBuckets(bs)
    ensures forall k :: k in KeysOf(Flatten(bs)) <==> Lookup(bs, k).Some?
  {
    var es := Flatten(bs);
    forall k ensures k in KeysOf(es) <==> Lookup(bs, k).Some? {
      if k in KeysOf(es) {
        var i :| 0 <= i < |es| && KeysOf(es)[i] == k;
        LookupIsEntry(bs, k, es[i].value);
      }
      if Lookup(bs, k).Some? {
        LookupIsEntry(bs, k, Lookup(bs, k).value);
        var i :| 0 <= i < |es| && es[i] == Entry(k, Lookup(bs, k).value);
        assert KeysOf(es)[i] == k;
      }
    }
  }

  /** Every value the map holds for some key is listed. */
  lemma {:induction false} ValuesHeld(bs: seq<seq<Entry>>)
    requires WellFormedBuckets(bs)
    ensures forall k, v :: Lookup(bs, k) == Some(v) ==> v in ValuesOf(Flatten(bs))
  {
    var es := Flatten(bs);
    forall k, v | Lookup(bs, k) == Some(v) ensures v in ValuesOf(es) {
      LookupIsEntry(bs, k, v);
      var i :| 0 <= i < |es| && es[i] == Entry(k, v);
      assert ValuesOf(es)[i] == v;
    }
  }
}
