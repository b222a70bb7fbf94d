/**
 * The PHP associative array the crawler builds for one profile: an ordered
 * list of (key, value) entries with distinct keys, where a value is a string
 * or a list of strings. Assigning to an existing key replaces its value where
 * it stands; assigning to a new key appends an entry at the end.
 */
module PhpRecord {
  import opened Wrappers
  import opened PhpStrings

  datatype Value = Str(s: string) | List(items: seq<string>)

  type Record = seq<(string, Value)>

  /** PHP `empty($v)`: "" and "0" for a string, no elements for an array. */
  predicate EmptyValue(v: Value) {
    match v
    case Str(s) => PhpEmpty(s)
    case List(xs) => |xs| == 0
  }

  /** The keys in insertion order. */
  function Keys(rec: Record): (ks: seq<string>)
    ensures |ks| == |rec|
    ensures forall i :: 0 <= i < |rec| ==> ks[i] == rec[i].0
  {
    seq(|rec|, i requires 0 <= i < |rec| => rec[i].0)
  }

  predicate UniqueKeys(rec: Record) {
    forall i, j :: 0 <= i < j < |rec| ==> rec[i].0 != rec[j].0
  }

  /** The position of key `k`, if present. */
  function IndexOfKey(rec: Record, k: string): (r: Option<nat>)
    ensures r.Some? ==> r.value < |rec| && rec[r.value].0 == k
    ensures r.Some? ==> forall j :: 0 <= j < r.value ==> rec[j].0 != k
    ensures r.None? <==> k !in Keys(rec)
  {
    if rec == [] then None
    else if rec[0].0 == k then Some(0)
    else match IndexOfKey(rec[1..], k)
      case None => None
      case Some(i) => Some(i + 1)
  }

  /** `$rec[$k]` when `isset`, None otherwise. */
  function Lookup(rec: Record, k: string): (r: Option<Value>)
    ensures r.Some? <==> k in Keys(rec)
  {
    match IndexOfKey(rec, k)
    case None => None
    case Some(i) => Some(rec[i].1)
  }

  /** With distinct keys, the entry at any position is what a lookup of its key finds. */
  lemma LookupAt(rec: Record, i: nat)
    requires UniqueKeys(rec) && i < |rec|
    ensures IndexOfKey(rec, rec[i].0) == Some(i)
    ensures Lookup(rec, rec[i].0) == Some(rec[i].1)
  {
  }

  /**
   * `$rec[$k] = $v`. Key `k` now maps to `v`, every other key keeps its value,
   * the order of the existing keys is unchanged, a new key goes last, and keys
   * stay distinct.
   */
  function Assign(rec: Record, k: string, v: Value): (r: Record)
    ensures Lookup(r, k) == Some(v)
    ensures forall k' :: k' != k ==> Lookup(r, k') == Lookup(rec, k')
    ensures k in Keys(rec) ==> Keys(r) == Keys(rec)
    ensures k !in Keys(rec) ==> Keys(r) == Keys(rec) + [k]
    ensures UniqueKeys(rec) ==> UniqueKeys(r)
    ensures |rec| <= |r| && forall j :: 0 <= j < |rec| && rec[j].0 != k ==> r[j] == rec[j]
  {
    match IndexOfKey(rec, k)
    case Some(i) => ReplaceEntry(rec, k, v, i); rec[i := (k, v)]
    case None => AppendEntry(rec, k, v); rec + [(k, v)]
  }

  /** Assigning an existing key: the entry is replaced where it stands. */
  lemma ReplaceEntry(rec: Record, k: string, v: Value, i: nat)
    requires IndexOfKey(rec, k) == Some(i)
    ensures var r := rec[i := (k, v)];
      && Lookup(r, k) == Some(v)
      && (forall k' :: k' != k ==> Lookup(r, k') == Lookup(rec, k'))
      && Keys(r) == Keys(rec)
      && (UniqueKeys(rec) ==> UniqueKeys(r))
  {
    var r := rec[i := (k, v)];
    SameKeysSameIndex(rec, r, k);
    assert Keys(r) == Keys(rec);
    forall k' | k' != k ensures IndexOfKey(r, k') == IndexOfKey(rec, k') {
      SameKeysSameIndex(rec, r, k');
    }
  }

  /** Assigning a new key: an entry is appended. */
  lemma AppendEntry(rec: Record, k: string, v: Value)
    requires k !in Keys(rec)
    ensures var r := rec + [(k, v)];
      && Lookup(r, k) == Some(v)
      && (forall k' :: k' != k ==> Lookup(r, k') == Lookup(rec, k'))
      && Keys(r) == Keys(rec) + [k]
      && (UniqueKeys(rec) ==> UniqueKeys(r))
  {
    var r := rec + [(k, v)];
    assert forall j :: 0 <= j < |rec| ==> r[j].0 != k by {
      forall j | 0 <= j < |rec| ensures r[j].0 != k {
        assert Keys(rec)[j] == r[j].0;
      }
    }
    assert r[|rec|].0 == k;
    assert Keys(r) == Keys(rec) + [k];
    forall k' | k' != k ensures IndexOfKey(r, k') == IndexOfKey(rec, k') {
      PrefixSameIndex(rec, r, k');
    }
  }

  lemma {:induction false} SameKeysSameIndex(a: Record, b: Record, k: string)
    requires |a| == |b|
    requires forall j :: 0 <= j < |a| ==> (a[j].0 == k <==> b[j].0 == k)
    ensures IndexOfKey(a, k) == IndexOfKey(b, k)
  {
    if a != [] && a[0].0 != k {
      SameKeysSameIndex(a[1..], b[1..], k);
    }
  }

  lemma {:induction false} PrefixSameIndex(a: Record, b: Record, k: string)
    requires |a| < |b| && a == b[..|a|]
    requires forall j :: |a| <= j < |b| ==> b[j].0 != k
    ensures IndexOfKey(a, k) == IndexOfKey(b, k)
  {
    if a != [] && a[0].0 != k {
      PrefixSameIndex(a[1..], b[1..], k);
    }
  }

  /**
   * When the keys of `a` are the first keys of `b`, a key of `a` is found at
   * the same position in both.
   */
  lemma KeysPrefixSameIndex(a: Record, b: Record, k: string)
    requires |a| <= |b| && Keys(b)[..|a|] == Keys(a)
    requires k in Keys(a)
    ensures IndexOfKey(b, k) == IndexOfKey(a, k)
  {
    var i := IndexOfKey(a, k).value;
    assert b[i].0 == k by {
      assert Keys(b)[..|a|][i] == Keys(b)[i];
    }
    forall j | 0 <= j < i ensures b[j].0 != k {
      assert Keys(b)[..|a|][j] == Keys(b)[j];
    }
    assert Keys(b)[i] == k;
    var i' := IndexOfKey(b, k).value;
    assert b[i'].0 == k;
    assert i' <= i && i <= i';
  }

  /** A key that is new to the record is placed last by an assignment. */
  lemma AssignNewKeyIndex(rec: Record, k: string, v: Value)
    requires k !in Keys(rec)
    ensures IndexOfKey(Assign(rec, k, v), k) == Some(|rec|)
  {
    var r := Assign(rec, k, v);
    assert Keys(r) == Keys(rec) + [k];
  }

  /** An existing key keeps its position when it is assigned again. */
  lemma AssignKeepsPosition(rec: Record, k: string, v: Value)
    requires k in Keys(rec)
    ensures IndexOfKey(Assign(rec, k, v), k) == IndexOfKey(rec, k)
  {
    SameKeysSameIndex(rec, Assign(rec, k, v), k);
  }
}
