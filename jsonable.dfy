/**
 * The value model: JSONValue, the JSON map and the JSONObject / JSONArray
 * containers.
 *
 * A JSONValue is a closed variant over seven alternatives. The JSON map is a
 * std::map from string keys to values, so its keys are unique and it is
 * iterated in ascending key order; here it is the sequence of its entries in
 * that order, with strictly increasing keys as its invariant (SortedKeys).
 * JSONObject and JSONArray only wrap a map or a vector without changing it,
 * which is what the constructors Obj and Arr do.
 */
module Jsonable {
  import opened Wrappers

  /** A JSONValue: int, double, string, bool, null (std::monostate), object or array. */
  datatype Value =
    | Int(i: int)
    | Dbl(d: real)
    | Str(s: string)
    | Bool(b: bool)
    | Null
    | Obj(members: seq<Member>)
    | Arr(items: seq<Value>)

  /** One entry of a JSON map. */
  datatype Member = Member(key: string, value: Value)

  /** The JSON map, as the sequence of its entries in iteration order. */
  type Json = seq<Member>

  /** The range of the source's (32-bit) int. */
  const IntMin: int := -0x8000_0000
  const IntMax: int := 0x7FFF_FFFF

  predicate IsInt32(i: int) {
    IntMin <= i <= IntMax
  }

  // ----- Key order: std::string's operator< -----

  /** Lexicographic order on strings by character code. */
  predicate StrLess(a: string, b: string) {
    if |a| == 0 then |b| != 0
    else if |b| == 0 then false
    else if a[0] != b[0] then a[0] < b[0]
    else StrLess(a[1..], b[1..])
  }

  lemma {:induction false} StrLessIrreflexive(a: string)
    ensures !StrLess(a, a)
  {
    if |a| != 0 {
      StrLessIrreflexive(a[1..]);
    }
  }

  lemma {:induction false} StrLessTransitive(a: string, b: string, c: string)
    requires StrLess(a, b) && StrLess(b, c)
    ensures StrLess(a, c)
  {
    if |a| != 0 && a[0] == b[0] && b[0] == c[0] {
      StrLessTransitive(a[1..], b[1..], c[1..]);
    }
  }

  /** Any two different strings are ordered one way or the other. */
  lemma {:induction false} StrLessTotal(a: string, b: string)
    ensures a == b || StrLess(a, b) || StrLess(b, a)
  {
    if |a| != 0 && |b| != 0 && a[0] == b[0] {
      StrLessTotal(a[1..], b[1..]);
      if a[1..] == b[1..] {
        assert a == [a[0]] + a[1..] && b == [b[0]] + b[1..];
      }
    }
  }

  // ----- The JSON map -----

  /** Keys strictly increase along the entries: the map's ordering invariant. */
  predicate SortedKeys(ms: seq<Member>) {
    forall i, j :: 0 <= i < j < |ms| ==> StrLess(ms[i].key, ms[j].key)
  }

  /** No key occurs twice. */
  predicate DistinctKeys(ms: seq<Member>) {
    forall i, j :: 0 <= i < j < |ms| ==> ms[i].key != ms[j].key
  }

  lemma SortedKeysAreDistinct(ms: seq<Member>)
    requires SortedKeys(ms)
    ensures DistinctKeys(ms)
  {
    forall i, j | 0 <= i < j < |ms| ensures ms[i].key != ms[j].key {
      StrLessIrreflexive(ms[i].key);
    }
  }

  /** A well-formed value: ints fit the source's int, every object's keys are sorted. */
  predicate WellFormed(v: Value) {
    match v
    case Int(i) => IsInt32(i)
    case Obj(ms) => SortedKeys(ms) && forall k :: 0 <= k < |ms| ==> WellFormed(ms[k].value)
    case Arr(items) => forall k :: 0 <= k < |items| ==> WellFormed(items[k])
    case _ => true
  }

  /** The value stored under key k: the first entry with that key, if any. */
  function Lookup(ms: seq<Member>, k: string): (r: Option<Value>)
    ensures r.None? <==> forall i :: 0 <= i < |ms| ==> ms[i].key != k
    ensures r.Some? ==> exists i :: 0 <= i < |ms| && ms[i] == Member(k, r.value)
                                    && forall j :: 0 <= j < i ==> ms[j].key != k
  {
    if |ms| == 0 then None
    else if ms[0].key == k then Some(ms[0].value)
    else
      var r := Lookup(ms[1..], k);
      assert r.Some? ==> exists i :: 0 <= i < |ms[1..]| && ms[1..][i] == Member(k, r.value)
                                     && forall j :: 0 <= j < i ==> ms[1..][j].key != k;
      r
  }

  /** In a map without repeated keys, the value under k is the one its entry holds. */
  lemma LookupDistinct(ms: seq<Member>, i: nat)
    requires DistinctKeys(ms) && i < |ms|
    ensures Lookup(ms, ms[i].key) == Some(ms[i].value)
  {
    var r := Lookup(ms, ms[i].key);
    var i' :| 0 <= i' < |ms| && ms[i'] == Member(ms[i].key, r.value)
              && forall j :: 0 <= j < i' ==> ms[j].key != ms[i].key;
    assert i' == i;
  }

  /**
   * emplace: insert (k, v) unless k is already present, in which case the map
   * is unchanged and the first value is kept.
   */
  function Emplace(ms: Json, k: string, v: Value): (r: Json)
    requires SortedKeys(ms)
    ensures SortedKeys(r)
    ensures Lookup(ms, k).Some? ==> r == ms
    ensures Lookup(ms, k).None? ==> |r| == |ms| + 1 && Lookup(r, k) == Some(v)
    ensures forall k' :: k' != k ==> Lookup(r, k') == Lookup(ms, k')
  {
    if |ms| == 0 then [Member(k, v)]
    else if ms[0].key == k then ms
    else if StrLess(k, ms[0].key) then
      KeyBelowAll(ms, k);
      LookupCons(Member(k, v), ms);
      [Member(k, v)] + ms
    else
      StrLessTotal(k, ms[0].key);
      var rest := Emplace(ms[1..], k, v);
      PrependStep(ms, rest, k);
      [ms[0]] + rest
  }

  /**
   * Assignment through operator[]: (k, v) is inserted, replacing the value of
   * an existing entry for k; the map keeps one entry per key.
   */
  function Assign(ms: Json, k: string, v: Value): (r: Json)
    requires SortedKeys(ms)
    ensures SortedKeys(r)
    ensures Lookup(r, k) == Some(v)
    ensures forall k' :: k' != k ==> Lookup(r, k') == Lookup(ms, k')
    ensures |r| == if Lookup(ms, k).Some? then |ms| else |ms| + 1
  {
    if |ms| == 0 then [Member(k, v)]
    else if ms[0].key == k then
      assert ms == [ms[0]] + ms[1..];
      var r := [Member(k, v)] + ms[1..];
      assert forall i :: 0 < i < |r| ==> r[i] == ms[i];
      r
    else if StrLess(k, ms[0].key) then
      KeyBelowAll(ms, k);
      LookupCons(Member(k, v), ms);
      [Member(k, v)] + ms
    else
      StrLessTotal(k, ms[0].key);
      var rest := Assign(ms[1..], k, v);
      PrependStep(ms, rest, k);
      [ms[0]] + rest
  }

  /** A key below the first key of a sorted map is below all of them and absent. */
  lemma KeyBelowAll(ms: Json, k: string)
    requires SortedKeys(ms) && |ms| > 0 && StrLess(k, ms[0].key)
    ensures SortedKeys([Member(k, Value.Null)] + ms)
    ensures forall i :: 0 <= i < |ms| ==> StrLess(k, ms[i].key) && ms[i].key != k
    ensures Lookup(ms, k).None?
  {
    forall i | 0 <= i < |ms| ensures StrLess(k, ms[i].key) && ms[i].key != k {
      if i > 0 {
        StrLessTransitive(k, ms[0].key, ms[i].key);
      }
      if ms[i].key == k {
        StrLessIrreflexive(k);
      }
    }
  }

  /**
   * Putting the first entry m back in front of a sorted rest whose keys are
   * those of tail (plus possibly k, which is above m's key) keeps the order.
   */
  lemma PrependSorted(m: Member, rest: Json, tail: Json, k: string)
    requires SortedKeys([m] + tail) && SortedKeys(rest) && StrLess(m.key, k)
    requires forall k' :: k' != k ==> Lookup(rest, k') == Lookup(tail, k')
    ensures SortedKeys([m] + rest)
    ensures forall k' :: k' != m.key ==> Lookup([m] + rest, k') == Lookup(rest, k')
  {
    forall i | 0 <= i < |tail| ensures StrLess(m.key, tail[i].key) {
      assert ([m] + tail)[0] == m && ([m] + tail)[i + 1] == tail[i];
    }
    KeyBelowRest(m, rest, tail, k);
    var s := [m] + rest;
    forall i, j | 0 <= i < j < |s| ensures StrLess(s[i].key, s[j].key) {
      assert s[j] == rest[j - 1];
      if i > 0 {
        assert s[i] == rest[i - 1];
      }
    }
  }

  /** Every key of rest is k or a key of tail, so m's key is below all of them. */
  lemma KeyBelowRest(m: Member, rest: Json, tail: Json, k: string)
    requires forall i :: 0 <= i < |tail| ==> StrLess(m.key, tail[i].key)
    requires SortedKeys(rest) && StrLess(m.key, k)
    requires forall k' :: k' != k ==> Lookup(rest, k') == Lookup(tail, k')
    ensures forall j :: 0 <= j < |rest| ==> StrLess(m.key, rest[j].key)
  {
    forall j | 0 <= j < |rest| ensures StrLess(m.key, rest[j].key) {
      if rest[j].key != k {
        var i := KeyFromTail(rest, tail, k, j);
      }
    }
  }

  /** A key of rest other than k is a key of tail. */
  lemma KeyFromTail(rest: Json, tail: Json, k: string, j: nat) returns (i: nat)
    requires SortedKeys(rest) && j < |rest| && rest[j].key != k
    requires forall k' :: k' != k ==> Lookup(rest, k') == Lookup(tail, k')
    ensures i < |tail| && tail[i].key == rest[j].key
  {
    SortedKeysAreDistinct(rest);
    LookupDistinct(rest, j);
    var kj := rest[j].key;
    var o := Lookup(tail, kj);
    i :| 0 <= i < |tail| && tail[i] == Member(kj, o.value)
         && forall j' :: 0 <= j' < i ==> tail[j'].key != kj;
  }

  /** Looking a key up in a map with an entry put in front. */
  lemma LookupCons(m: Member, ms: seq<Member>)
    ensures forall k :: Lookup([m] + ms, k) == if m.key == k then Some(m.value) else Lookup(ms, k)
  {
    assert ([m] + ms)[1..] == ms;
  }

  /**
   * The recursive case of emplace and assignment: the first entry of ms, put
   * back in front of rest, the tail's update for a key k above it.
   */
  lemma PrependStep(ms: Json, rest: Json, k: string)
    requires SortedKeys(ms) && |ms| > 0 && SortedKeys(rest) && StrLess(ms[0].key, k)
    requires forall k' :: k' != k ==> Lookup(rest, k') == Lookup(ms[1..], k')
    ensures SortedKeys([ms[0]] + rest)
    ensures forall k' :: k' != k ==> Lookup([ms[0]] + rest, k') == Lookup(ms, k')
    ensures Lookup([ms[0]] + rest, k) == Lookup(rest, k) && Lookup(ms, k) == Lookup(ms[1..], k)
    ensures rest == ms[1..] ==> [ms[0]] + rest == ms
  {
    assert ms == [ms[0]] + ms[1..];
    PrependSorted(ms[0], rest, ms[1..], k);
    StrLessIrreflexive(k);
  }

  // ----- Iteration order is key order -----

  /** Appending an entry for another key does not change what k looks up. */
  lemma LookupAppendOther(ms: seq<Member>, m: Member, k: string)
    requires m.key != k
    ensures Lookup(ms + [m], k) == Lookup(ms, k)
  {
    var s := ms + [m];
    assert forall i :: 0 <= i < |ms| ==> s[i] == ms[i];
    var r := Lookup(ms, k);
    if r.Some? {
      var i :| 0 <= i < |ms| && ms[i] == Member(k, r.value) && forall j :: 0 <= j < i ==> ms[j].key != k;
      assert s[i].key == k;
      var r' := Lookup(s, k);
      var i' :| 0 <= i' < |s| && s[i'] == Member(k, r'.value) && forall j :: 0 <= j < i' ==> s[j].key != k;
      assert i' <= i;
    }
  }

  /**
   * Two sorted maps that agree on every key are the same sequence of entries:
   * the iteration order of a map depends only on its contents.
   */
  lemma {:induction false} SortedDetermined(a: Json, b: Json)
    requires SortedKeys(a) && SortedKeys(b)
    requires forall k :: Lookup(a, k) == Lookup(b, k)
    ensures a == b
  {
    if |a| != 0 {
      assert Lookup(b, a[0].key).Some?;
    }
    if |b| != 0 {
      assert Lookup(a, b[0].key).Some?;
    }
    if |a| != 0 {
      var ka, kb := a[0].key, b[0].key;
      assert Lookup(a, kb).Some? && Lookup(b, ka).Some?;
      StrLessTotal(ka, kb);
      if StrLess(ka, kb) {
        KeyBelowAll(b, ka);
      } else if StrLess(kb, ka) {
        KeyBelowAll(a, kb);
      }
      assert Lookup(a, ka) == Some(a[0].value) && Lookup(b, ka) == Some(b[0].value);
      SortedKeysAreDistinct(a);
      SortedKeysAreDistinct(b);
      forall k ensures Lookup(a[1..], k) == Lookup(b[1..], k) {
        if k == ka {
          assert forall i :: 0 <= i < |a[1..]| ==> a[1..][i].key == a[i + 1].key != ka;
          assert forall i :: 0 <= i < |b[1..]| ==> b[1..][i].key == b[i + 1].key != ka;
        } else {
          assert Lookup(a, k) == Lookup(a[1..], k);
          assert Lookup(b, k) == Lookup(b[1..], k);
        }
      }
      assert SortedKeys(a[1..]) by {
        forall i, j | 0 <= i < j < |a[1..]| ensures StrLess(a[1..][i].key, a[1..][j].key) {
          assert a[1..][i] == a[i + 1] && a[1..][j] == a[j + 1];
        }
      }
      assert SortedKeys(b[1..]) by {
        forall i, j | 0 <= i < j < |b[1..]| ensures StrLess(b[1..][i].key, b[1..][j].key) {
          assert b[1..][i] == b[i + 1] && b[1..][j] == b[j + 1];
        }
      }
      SortedDetermined(a[1..], b[1..]);
      assert a == [a[0]] + a[1..] && b == [b[0]] + b[1..];
    }
  }

  /** The map a client builds by assigning the pairs in turn, j[p.key] = p.value. */
  function FromPairs(ps: seq<Member>): (r: Json)
    ensures SortedKeys(r)
  {
    if |ps| == 0 then []
    else Assign(FromPairs(ps[..|ps| - 1]), ps[|ps| - 1].key, ps[|ps| - 1].value)
  }

  /** Built from pairs with distinct keys, the map holds exactly those pairs. */
  lemma {:induction false} FromPairsLookup(ps: seq<Member>, k: string)
    requires DistinctKeys(ps)
    ensures Lookup(FromPairs(ps), k) == Lookup(ps, k)
  {
    if |ps| != 0 {
      var n := |ps| - 1;
      var init := ps[..n];
      assert ps == init + [ps[n]];
      if k == ps[n].key {
        LookupDistinct(ps, n);
      } else {
        FromPairsLookup(init, k);
        LookupAppendOther(init, ps[n], k);
      }
    }
  }

  lemma LookupOfPermutation(ps: seq<Member>, qs: seq<Member>, k: string)
    requires DistinctKeys(qs) && multiset(ps) == multiset(qs)
    requires Lookup(ps, k).Some?
    ensures Lookup(qs, k) == Lookup(ps, k)
  {
    var v := Lookup(ps, k).value;
    var i :| 0 <= i < |ps| && ps[i] == Member(k, v) && forall j :: 0 <= j < i ==> ps[j].key != k;
    assert Member(k, v) in multiset(ps);
    assert Member(k, v) in qs;
    var j :| 0 <= j < |qs| && qs[j] == Member(k, v);
    LookupDistinct(qs, j);
  }

  /**
   * Whatever order the same distinct-key pairs are assigned in, the map (and so
   * its iteration order) comes out the same.
   */
  lemma InsertionOrderIrrelevant(ps: seq<Member>, qs: seq<Member>)
    requires DistinctKeys(ps) && DistinctKeys(qs) && multiset(ps) == multiset(qs)
    ensures FromPairs(ps) == FromPairs(qs)
  {
    forall k ensures Lookup(FromPairs(ps), k) == Lookup(FromPairs(qs), k) {
      FromPairsLookup(ps, k);
      FromPairsLookup(qs, k);
      if Lookup(ps, k).Some? {
        LookupOfPermutation(ps, qs, k);
      } else if Lookup(qs, k).Some? {
        LookupOfPermutation(qs, ps, k);
      }
    }
    SortedDetermined(FromPairs(ps), FromPairs(qs));
  }

  /** Assigning a key twice keeps one entry, holding the last value. */
  lemma AssignOverwrites(ms: Json, k: string, v1: Value, v2: Value)
    requires SortedKeys(ms)
    ensures Assign(Assign(ms, k, v1), k, v2) == Assign(ms, k, v2)
    ensures |Assign(Assign(ms, k, v1), k, v2)| == |Assign(ms, k, v1)|
  {
    var a, b := Assign(Assign(ms, k, v1), k, v2), Assign(ms, k, v2);
    forall k' ensures Lookup(a, k') == Lookup(b, k') {
    }
    SortedDetermined(a, b);
  }
}
