/** Decoded JSON values as PHP holds them, and the PHP array operations the
    merger relies on: lookup, assignment, unset, array_unique and array_values.

    A PHP array is an ordered sequence of key => value entries. PHP never lets
    two entries share a key; the model states that as UniqueKeys wherever a
    property depends on it. Lookup and assignment find the FIRST entry with a
    key, which for a PHP array is the only one. */
module PhpValues {

  datatype Option<T> = None | Some(value: T)

  /** An array key. PHP stores a decimal-integer string key as an integer, so a
      StrKey never holds one in the arrays PHP builds. */
  datatype Key = IntKey(i: int) | StrKey(s: string)

  /** A JSON value decoded into PHP with associative arrays. */
  datatype Value =
    | Null
    | Bool(b: bool)
    | Num(n: int)
    | Str(s: string)
    | Arr(entries: seq<Entry>)

  datatype Entry = Entry(key: Key, val: Value)

  function KeySet(a: seq<Entry>): set<Key>
  {
    set i | 0 <= i < |a| :: a[i].key
  }

  predicate UniqueKeys(a: seq<Entry>)
  {
    forall i, j :: 0 <= i < j < |a| ==> a[i].key != a[j].key
  }

  /** Position of the first entry whose key is k. */
  function Find(a: seq<Entry>, k: Key): (r: Option<nat>)
    ensures r.Some? ==> r.value < |a| && a[r.value].key == k
    ensures r.Some? ==> forall j :: 0 <= j < r.value ==> a[j].key != k
    ensures r.None? ==> forall j :: 0 <= j < |a| ==> a[j].key != k
  {
    if a == [] then None
    else if a[0].key == k then Some(0)
    else match Find(a[1..], k)
      case None => None
      case Some(i) => Some(i + 1)
  }

  /** `$a[$k]`, None when the key is absent. */
  function Get(a: seq<Entry>, k: Key): Option<Value>
  {
    match Find(a, k)
    case None => None
    case Some(i) => Some(a[i].val)
  }

  /** `isset($a[$k])`: the key is present and its value is not null. */
  predicate IsSet(a: seq<Entry>, k: Key)
  {
    Get(a, k).Some? && !Get(a, k).value.Null?
  }

  /** isset() looks at the first entry holding the key: it is true exactly
      when there is such an entry and its value is not null. */
  lemma IsSetFirstEntry(a: seq<Entry>, k: Key)
    ensures IsSet(a, k) <==>
      exists i :: 0 <= i < |a| && a[i].key == k && !a[i].val.Null? && forall j :: 0 <= j < i ==> a[j].key != k
  {
    if i :| 0 <= i < |a| && a[i].key == k && !a[i].val.Null? && forall j :: 0 <= j < i ==> a[j].key != k {
      FindAt(a, k, i);
    }
  }

  /** `$a[$k] = $v`: an existing entry keeps its place, a new one is appended. */
  function Set(a: seq<Entry>, k: Key, v: Value): seq<Entry>
  {
    match Find(a, k)
    case None => a + [Entry(k, v)]
    case Some(i) => a[i := Entry(k, v)]
  }

  /** `unset($a[$k])`. */
  function Unset(a: seq<Entry>, k: Key): seq<Entry>
  {
    match Find(a, k)
    case None => a
    case Some(i) => a[..i] + a[i + 1..]
  }

  /** `array_keys($a)`. */
  function Keys(a: seq<Entry>): (r: seq<Key>)
    ensures |r| == |a| && forall i :: 0 <= i < |a| ==> r[i] == a[i].key
    ensures forall k :: k in r <==> k in KeySet(a)
  {
    seq(|a|, i requires 0 <= i < |a| => a[i].key)
  }

  /** Find depends on the keys alone. */
  lemma FindSameKeys(a: seq<Entry>, b: seq<Entry>, k: Key)
    requires |a| == |b| && forall i :: 0 <= i < |a| ==> a[i].key == b[i].key
    ensures Find(a, k) == Find(b, k)
  {
    match Find(a, k)
    case None =>
    case Some(i) =>
      if Find(b, k).Some? && Find(b, k).value != i {
        assert false;
      }
  }

  /** Find returns the first position holding the key. */
  lemma FindAt(a: seq<Entry>, k: Key, i: nat)
    requires i < |a| && a[i].key == k && forall j :: 0 <= j < i ==> a[j].key != k
    ensures Find(a, k) == Some(i)
  {
  }

  lemma FindUnique(a: seq<Entry>, i: nat)
    requires UniqueKeys(a) && i < |a|
    ensures Find(a, a[i].key) == Some(i)
  {
  }

  lemma KeySetFind(a: seq<Entry>, k: Key)
    ensures k in KeySet(a) <==> Find(a, k).Some?
  {
    if k in KeySet(a) {
      var i :| 0 <= i < |a| && a[i].key == k;
    }
  }

  /** Assigning a key changes its lookup and no other. */
  lemma {:induction false} SetLaws(a: seq<Entry>, k: Key, v: Value)
    ensures Get(Set(a, k, v), k) == Some(v)
    ensures forall k' :: k' != k ==> Get(Set(a, k, v), k') == Get(a, k')
    ensures KeySet(Set(a, k, v)) == KeySet(a) + {k}
    ensures UniqueKeys(a) ==> UniqueKeys(Set(a, k, v))
    ensures k in KeySet(a) ==> |Set(a, k, v)| == |a| && forall i :: 0 <= i < |a| ==> Set(a, k, v)[i].key == a[i].key
  {
    var r := Set(a, k, v);
    KeySetFind(a, k);
    match Find(a, k)
    case Some(i) =>
      forall k' ensures Find(r, k') == Find(a, k') {
        FindSameKeys(a, r, k');
      }
      assert KeySet(r) == KeySet(a) by {
        forall x | x in KeySet(a) ensures x in KeySet(r) {
          var j :| 0 <= j < |a| && a[j].key == x;
          assert r[j].key == x;
        }
      }
    case None =>
      forall k' | k' != k ensures Find(r, k') == Find(a, k') {
        match Find(a, k')
        case None =>
        case Some(j) =>
          FindAt(r, k', j);
      }
      FindAt(r, k, |a|);
      assert KeySet(r) == KeySet(a) + {k} by {
        forall x | x in KeySet(a) ensures x in KeySet(r) {
          var j :| 0 <= j < |a| && a[j].key == x;
          assert r[j].key == x;
        }
        assert r[|a|].key == k;
      }
  }

  /** Assigning a key twice keeps the second value only. */
  lemma SetSet(a: seq<Entry>, k: Key, v: Value, w: Value)
    ensures Set(Set(a, k, v), k, w) == Set(a, k, w)
  {
    var b := Set(a, k, v);
    match Find(a, k)
    case Some(i) =>
      FindSameKeys(a, b, k);
    case None =>
      FindAt(b, k, |a|);
  }

  /** Unsetting a key of a PHP array removes it and nothing else. */
  lemma {:induction false} UnsetLaws(a: seq<Entry>, k: Key)
    requires UniqueKeys(a)
    ensures Get(Unset(a, k), k) == None
    ensures forall k' :: k' != k ==> Get(Unset(a, k), k') == Get(a, k')
    ensures KeySet(Unset(a, k)) == KeySet(a) - {k}
    ensures UniqueKeys(Unset(a, k))
  {
    var r := Unset(a, k);
    match Find(a, k)
    case None =>
      KeySetFind(a, k);
    case Some(i) =>
      forall k' ensures Get(r, k') == if k' == k then None else Get(a, k') {
        RemoveAtGet(a, i, k');
      }
      assert KeySet(r) == KeySet(a) - {k} by {
        forall x | x in KeySet(a) - {k} ensures x in KeySet(r) {
          var j :| 0 <= j < |a| && a[j].key == x;
          assert r[if j < i then j else j - 1].key == x;
        }
      }
  }

  /** Removing the i-th entry of a PHP array removes its key's lookup and no
      other. */
  lemma {:induction false} RemoveAtGet(a: seq<Entry>, i: nat, k: Key)
    requires UniqueKeys(a) && i < |a|
    ensures Get(a[..i] + a[i + 1..], k) == if k == a[i].key then None else Get(a, k)
  {
    var r := a[..i] + a[i + 1..];
    assert forall j :: 0 <= j < |r| ==> r[j] == (if j < i then a[j] else a[j + 1]);
    if k == a[i].key {
      assert Find(r, k) == None;
    } else {
      match Find(a, k)
      case None =>
        assert Find(r, k) == None;
      case Some(j) =>
        FindAt(r, k, if j < i then j else j - 1);
    }
  }

  // ---------------------------------------------------------------------
  // array_unique($a, SORT_REGULAR) followed by array_values
  // ---------------------------------------------------------------------

  function ValueSet(a: seq<Entry>): set<Value>
  {
    set i | 0 <= i < |a| :: a[i].val
  }

  /** Position of the first entry holding v, |a| when there is none. */
  function IndexOfValue(a: seq<Entry>, v: Value): (r: nat)
    ensures r <= |a|
    ensures r < |a| ==> a[r].val == v
    ensures forall j :: 0 <= j < r ==> a[j].val != v
  {
    if a == [] then 0
    else if a[0].val == v then 0
    else 1 + IndexOfValue(a[1..], v)
  }

  /** `array_unique($a, SORT_REGULAR)`: keeps the first entry, with its key,
      of every distinct value. Loose comparison is modelled as equality. */
  function ArrayUnique(a: seq<Entry>): seq<Entry>
  {
    if a == [] then []
    else
      var kept := ArrayUnique(a[..|a| - 1]);
      if a[|a| - 1].val in ValueSet(kept) then kept else kept + [a[|a| - 1]]
  }

  /** `array_values($a)`: the same values under the keys 0 .. n-1. */
  function ArrayValues(a: seq<Entry>): (r: seq<Entry>)
    ensures |r| == |a|
    ensures forall i :: 0 <= i < |a| ==> r[i] == Entry(IntKey(i), a[i].val)
  {
    seq(|a|, i requires 0 <= i < |a| => Entry(IntKey(i), a[i].val))
  }

  predicate DistinctValues(a: seq<Entry>)
  {
    forall i, j :: 0 <= i < j < |a| ==> a[i].val != a[j].val
  }

  lemma IndexOfValuePrefix(a: seq<Entry>, x: Entry, v: Value)
    requires v in ValueSet(a)
    ensures IndexOfValue(a + [x], v) == IndexOfValue(a, v) < |a|
  {
    var i :| 0 <= i < |a| && a[i].val == v;
    var b := a + [x];
    assert b[i] == a[i];
    assert forall j :: 0 <= j < |a| ==> b[j] == a[j];
  }

  lemma ValueSetAppend(a: seq<Entry>, x: Entry)
    ensures ValueSet(a + [x]) == ValueSet(a) + {x.val}
  {
    var b := a + [x];
    forall v | v in ValueSet(b) ensures v in ValueSet(a) + {x.val} {
      var j :| 0 <= j < |b| && b[j].val == v;
      if j < |a| { assert b[j] == a[j]; }
    }
    forall v | v in ValueSet(a) ensures v in ValueSet(b) {
      var j :| 0 <= j < |a| && a[j].val == v;
      assert b[j] == a[j];
    }
    assert b[|a|] == x;
  }

  /** array_unique drops no value and adds none. */
  lemma {:induction false} ArrayUniqueValueSet(a: seq<Entry>)
    ensures ValueSet(ArrayUnique(a)) == ValueSet(a)
  {
    if a != [] {
      var p, x := a[..|a| - 1], a[|a| - 1];
      assert a == p + [x];
      ArrayUniqueValueSet(p);
      ValueSetAppend(p, x);
      ValueSetAppend(ArrayUnique(p), x);
    }
  }

  /** array_unique leaves no two entries with equal values. */
  lemma {:induction false} ArrayUniqueDistinct(a: seq<Entry>)
    ensures DistinctValues(ArrayUnique(a))
  {
    if a != [] {
      var p, x := a[..|a| - 1], a[|a| - 1];
      ArrayUniqueDistinct(p);
      var kept := ArrayUnique(p);
      if x.val !in ValueSet(kept) {
        var r := kept + [x];
        forall i, j | 0 <= i < j < |r| ensures r[i].val != r[j].val {
          if j == |kept| {
            assert r[i] == kept[i];
            assert kept[i].val in ValueSet(kept);
          } else {
            assert r[i] == kept[i] && r[j] == kept[j];
          }
        }
      }
    }
  }

  /** Every entry array_unique keeps is the first entry of the input with its
      value, key included. */
  lemma {:induction false} ArrayUniqueKeepsFirst(a: seq<Entry>)
    ensures forall i :: 0 <= i < |ArrayUnique(a)| ==>
              IndexOfValue(a, ArrayUnique(a)[i].val) < |a| &&
              ArrayUnique(a)[i] == a[IndexOfValue(a, ArrayUnique(a)[i].val)]
  {
    if a != [] {
      var p, x := a[..|a| - 1], a[|a| - 1];
      assert a == p + [x];
      ArrayUniqueKeepsFirst(p);
      ArrayUniqueValueSet(p);
      var kept := ArrayUnique(p);
      var r := ArrayUnique(a);
      forall i | 0 <= i < |r|
        ensures IndexOfValue(a, r[i].val) < |a| && r[i] == a[IndexOfValue(a, r[i].val)]
      {
        if i < |kept| {
          assert r[i] == kept[i];
          assert kept[i].val in ValueSet(kept);
          IndexOfValuePrefix(p, x, kept[i].val);
          assert a[IndexOfValue(p, kept[i].val)] == p[IndexOfValue(p, kept[i].val)];
        } else {
          assert r[i] == x && x.val !in ValueSet(p);
          assert a[|p|].val == x.val;
          assert forall j :: 0 <= j < |p| ==> a[j].val == p[j].val && p[j].val in ValueSet(p);
          assert IndexOfValue(a, x.val) == |p|;
        }
      }
    }
  }

  /** array_unique keeps the entries in the order of their first occurrence. */
  lemma {:induction false} ArrayUniqueOrder(a: seq<Entry>)
    ensures forall i, j :: 0 <= i < j < |ArrayUnique(a)| ==>
              IndexOfValue(a, ArrayUnique(a)[i].val) < IndexOfValue(a, ArrayUnique(a)[j].val)
  {
    if a != [] {
      var p, x := a[..|a| - 1], a[|a| - 1];
      assert a == p + [x];
      ArrayUniqueOrder(p);
      ArrayUniqueValueSet(p);
      var kept := ArrayUnique(p);
      var r := ArrayUnique(a);
      forall i | 0 <= i < |kept| ensures IndexOfValue(a, kept[i].val) == IndexOfValue(p, kept[i].val) < |p| {
        assert kept[i].val in ValueSet(kept);
        IndexOfValuePrefix(p, x, kept[i].val);
      }
      forall i, j | 0 <= i < j < |r|
        ensures IndexOfValue(a, r[i].val) < IndexOfValue(a, r[j].val)
      {
        assert r[i] == kept[i];
        if j < |kept| {
          assert r[j] == kept[j];
        } else {
          assert r[j] == x;
        }
      }
    }
  }
}
