/**
 * A JavaScript `Map` keyed by string ids, as the cities sync uses it to
 * drop duplicate records: `set` on a new key appends it, `set` on a known
 * key replaces the value and keeps the key's place, and `values()` lists
 * the values in key order.
 */
module IdentityIndex {
  import opened Wrappers

  datatype Index<V> = Index(order: seq<string>, values: map<string, V>)

  predicate Distinct(s: seq<string>) {
    forall i, j :: 0 <= i < j < |s| ==> s[i] != s[j]
  }

  /** The keys in `order` are distinct and are exactly the keys of `values`. */
  predicate Valid<V>(ix: Index<V>) {
    && Distinct(ix.order)
    && ix.values.Keys == set k | k in ix.order
  }

  /** Appending a pair moves no key's first position. */
  lemma FirstPositionsKept<V>(front: seq<(string, V)>, p: (string, V))
    ensures forall x :: x in Build(front).order ==>
      FirstIndex(front, x).Some? && FirstIndex(front + [p], x) == FirstIndex(front, x)
  {
    forall x | x in Build(front).order
      ensures FirstIndex(front, x).Some? && FirstIndex(front + [p], x) == FirstIndex(front, x)
    {
      BuildLastWins(front, x);
      FirstIndexExtend(front, p, x);
    }
  }

  /** `map.set(k, v)` */
  function Put<V>(ix: Index<V>, k: string, v: V): (r: Index<V>)
    requires Valid(ix)
    ensures Valid(r)
    ensures r.values == ix.values[k := v]
    ensures k in ix.values ==> r.order == ix.order
    ensures k !in ix.values ==> r.order == ix.order + [k]
  {
    if k in ix.values then Index(ix.order, ix.values[k := v])
    else Index(ix.order + [k], ix.values[k := v])
  }

  /** A map filled by `set` calls, one per pair, in order. */
  function Build<V>(pairs: seq<(string, V)>): (ix: Index<V>)
    ensures Valid(ix)
  {
    if pairs == [] then Index([], map[])
    else
      var n := |pairs| - 1;
      Put(Build(pairs[..n]), pairs[n].0, pairs[n].1)
  }

  /** `Array.from(map.values())` */
  function Values<V>(ix: Index<V>): (vs: seq<V>)
    requires Valid(ix)
    ensures |vs| == |ix.order|
    ensures forall i :: 0 <= i < |vs| ==> vs[i] == ix.values[ix.order[i]]
  {
    seq(|ix.order|, i requires 0 <= i < |ix.order| => ix.values[ix.order[i]])
  }

  /** The position of the last pair with key `k`. */
  function LastIndex<V>(pairs: seq<(string, V)>, k: string): (r: Option<nat>)
    ensures r.Some? ==> r.value < |pairs| && pairs[r.value].0 == k
    ensures r.Some? ==> forall j :: r.value < j < |pairs| ==> pairs[j].0 != k
    ensures r.None? ==> forall j :: 0 <= j < |pairs| ==> pairs[j].0 != k
  {
    if pairs == [] then None
    else
      var n := |pairs| - 1;
      if pairs[n].0 == k then Some(n) else LastIndex(pairs[..n], k)
  }

  /** The position of the first pair with key `k`. */
  function FirstIndex<V>(pairs: seq<(string, V)>, k: string): (r: Option<nat>)
    ensures r.Some? ==> r.value < |pairs| && pairs[r.value].0 == k
    ensures r.Some? ==> forall j :: 0 <= j < r.value ==> pairs[j].0 != k
    ensures r.None? ==> forall j :: 0 <= j < |pairs| ==> pairs[j].0 != k
  {
    if pairs == [] then None
    else if pairs[0].0 == k then Some(0)
    else
      match FirstIndex(pairs[1..], k)
      case Some(j) => Some(j + 1)
      case None => None
  }

  /**
   * Duplicates collapse to one entry per key, holding the value of the last
   * pair with that key.
   */
  lemma {:induction false} BuildLastWins<V>(pairs: seq<(string, V)>, k: string)
    ensures k in Build(pairs).values <==> LastIndex(pairs, k).Some?
    ensures k in Build(pairs).values ==> Build(pairs).values[k] == pairs[LastIndex(pairs, k).value].1
  {
    if pairs != [] {
      var n := |pairs| - 1;
      BuildLastWins(pairs[..n], k);
      if pairs[n].0 != k {
        var r := LastIndex(pairs[..n], k);
        if r.Some? {
          assert pairs[..n][r.value] == pairs[r.value];
        }
      }
    }
  }

  /** Keys keep the order in which they were first set. */
  lemma {:induction false} BuildFirstOrder<V>(pairs: seq<(string, V)>)
    ensures FirstOrdered(pairs, Build(pairs).order)
  {
    if pairs != [] {
      var n := |pairs| - 1;
      var front := pairs[..n];
      BuildFirstOrder(front);
      assert front + [pairs[n]] == pairs;
      var o0 := Build(front).order;
      var k := pairs[n].0;
      assert Build(pairs) == Put(Build(front), k, pairs[n].1);
      FirstPositionsKept(front, pairs[n]);
      if k !in Build(front).values {
        BuildLastWins(front, k);
        FirstIndexExtend(front, pairs[n], k);
        AppendOrdered(pairs, o0, k);
      } else {
        KeepOrdered(front, pairs, o0);
      }
    }
  }

  /** An order that only holds keys whose first positions agree between two sequences carries over. */
  lemma KeepOrdered<V>(front: seq<(string, V)>, pairs: seq<(string, V)>, o: seq<string>)
    requires FirstOrdered(front, o)
    requires forall x :: x in o ==> FirstIndex(pairs, x) == FirstIndex(front, x)
    ensures FirstOrdered(pairs, o)
  {
    forall i, j | 0 <= i < j < |o| ensures FirstBefore(pairs, o[i], o[j]) {
      assert FirstBefore(front, o[i], o[j]);
      assert o[i] in o && o[j] in o;
    }
  }

  /** `a` and `b` both occur among the pairs, `a` first. */
  predicate FirstBefore<V>(pairs: seq<(string, V)>, a: string, b: string) {
    FirstIndex(pairs, a).Some? && FirstIndex(pairs, b).Some? && FirstIndex(pairs, a).value < FirstIndex(pairs, b).value
  }

  /** Every key of `o` occurs among the pairs, and earlier keys first occur earlier. */
  predicate FirstOrdered<V>(pairs: seq<(string, V)>, o: seq<string>) {
    forall i, j :: 0 <= i < j < |o| ==> FirstBefore(pairs, o[i], o[j])
  }

  lemma AppendOrdered<V>(pairs: seq<(string, V)>, o0: seq<string>, k: string)
    requires pairs != []
    requires FirstIndex(pairs, k) == Some(|pairs| - 1)
    requires FirstOrdered(pairs[..|pairs| - 1], o0)
    requires forall x :: x in o0 ==>
      FirstIndex(pairs[..|pairs| - 1], x).Some? && FirstIndex(pairs, x) == FirstIndex(pairs[..|pairs| - 1], x)
    ensures FirstOrdered(pairs, o0 + [k])
  {
    var o := o0 + [k];
    forall i, j | 0 <= i < j < |o| ensures FirstBefore(pairs, o[i], o[j]) {
      assert o[i] == o0[i] && o0[i] in o0;
      if j < |o0| {
        assert o[j] == o0[j] && o0[j] in o0;
      } else {
        assert o[j] == k;
      }
    }
  }

  lemma {:induction false} FirstIndexExtend<V>(front: seq<(string, V)>, p: (string, V), k: string)
    ensures FirstIndex(front, k).Some? ==> FirstIndex(front + [p], k) == FirstIndex(front, k)
    ensures FirstIndex(front, k).None? && p.0 == k ==> FirstIndex(front + [p], k) == Some(|front|)
  {
    if front != [] {
      FirstIndexExtend(front[1..], p, k);
      assert (front + [p])[1..] == front[1..] + [p];
    }
  }

  /** A sequence of distinct keys has as many elements as keys. */
  lemma {:induction false} DistinctCard(s: seq<string>)
    requires Distinct(s)
    ensures |set x | x in s| == |s|
  {
    if s != [] {
      var n := |s| - 1;
      assert Distinct(s[..n]);
      DistinctCard(s[..n]);
      assert (set x | x in s) == (set x | x in s[..n]) + {s[n]};
      assert s[n] !in (set x | x in s[..n]);
    }
  }

  /** The keys that occur among the pairs. */
  function KeysOf<V>(pairs: seq<(string, V)>): set<string> {
    set i | 0 <= i < |pairs| :: pairs[i].0
  }

  /** The number of entries of a built map is the number of distinct keys among the pairs. */
  lemma BuildSize<V>(pairs: seq<(string, V)>)
    ensures Build(pairs).values.Keys == KeysOf(pairs)
    ensures |Build(pairs).order| == |KeysOf(pairs)|
  {
    var ix := Build(pairs);
    DistinctCard(ix.order);
    forall k ensures k in ix.order <==> k in KeysOf(pairs) {
      BuildLastWins(pairs, k);
      if k in KeysOf(pairs) {
        var i :| 0 <= i < |pairs| && pairs[i].0 == k;
      }
    }
    assert (set x | x in ix.order) == KeysOf(pairs);
  }

  /**
   * `new Set(names)`: every name once, in the order of first occurrence
   * (`DedupFirstOrder`).
   */
  function Dedup(names: seq<string>): (d: seq<string>)
    ensures Distinct(d)
    ensures forall x :: x in d <==> x in names
  {
    if names == [] then []
    else
      var n := |names| - 1;
      var front := Dedup(names[..n]);
      assert forall x :: x in names <==> x in names[..n] || x == names[n];
      if names[n] in front then front else front + [names[n]]
  }

  /** The position of the first occurrence of a name. */
  function FirstPosition(names: seq<string>, x: string): (p: nat)
    requires x in names
    ensures p < |names| && names[p] == x && x !in names[..p]
  {
    if names[0] == x then 0
    else
      var p := FirstPosition(names[1..], x);
      assert names[..p + 1] == [names[0]] + names[1..][..p];
      p + 1
  }

  /** Appending a name moves no first occurrence of a name already there. */
  lemma FirstPositionExtend(front: seq<string>, x: string, y: string)
    requires x in front
    ensures FirstPosition(front + [y], x) == FirstPosition(front, x)
  {
    var p := FirstPosition(front, x);
    var q := FirstPosition(front + [y], x);
    assert (front + [y])[p] == x;
  }

  /** Every name of `d` occurs in `names`, and earlier names of `d` first occur earlier. */
  predicate InFirstOrder(names: seq<string>, d: seq<string>) {
    && (forall x :: x in d ==> x in names)
    && forall i, j :: 0 <= i < j < |d| ==> FirstPosition(names, d[i]) < FirstPosition(names, d[j])
  }

  /** The iteration order of `new Set(names)`: names come in the order of their first occurrence. */
  lemma {:induction false} DedupFirstOrder(names: seq<string>)
    ensures InFirstOrder(names, Dedup(names))
  {
    if names != [] {
      var n := |names| - 1;
      var front := names[..n];
      assert front + [names[n]] == names;
      DedupFirstOrder(front);
      if names[n] !in Dedup(front) {
        OrderAppend(front, names[n], Dedup(front));
      } else {
        OrderKeep(front, names[n], Dedup(front));
      }
    }
  }

  lemma OrderAppend(front: seq<string>, y: string, d0: seq<string>)
    requires InFirstOrder(front, d0) && y !in front
    ensures InFirstOrder(front + [y], d0 + [y])
  {
    var names := front + [y];
    var d := d0 + [y];
    var last := FirstPosition(names, y);
    assert last == |front|;
    forall i, j | 0 <= i < j < |d| ensures FirstPosition(names, d[i]) < FirstPosition(names, d[j]) {
      assert d[i] == d0[i] && d0[i] in d0;
      FirstPositionExtend(front, d0[i], y);
      if j < |d0| {
        assert d[j] == d0[j] && d0[j] in d0;
        FirstPositionExtend(front, d0[j], y);
      }
    }
  }

  lemma OrderKeep(front: seq<string>, y: string, d0: seq<string>)
    requires InFirstOrder(front, d0)
    ensures InFirstOrder(front + [y], d0)
  {
    forall i, j | 0 <= i < j < |d0| ensures FirstPosition(front + [y], d0[i]) < FirstPosition(front + [y], d0[j]) {
      assert d0[i] in d0 && d0[j] in d0;
      FirstPositionExtend(front, d0[i], y);
      FirstPositionExtend(front, d0[j], y);
    }
  }

  /** `new Set(names).size` */
  lemma DedupSize(names: seq<string>)
    ensures |Dedup(names)| == |set x | x in names|
  {
    DistinctCard(Dedup(names));
    assert (set x | x in Dedup(names)) == (set x | x in names);
  }
}
