/**
 * Python's `dict` as main.py uses it: a mapping whose iteration order is the
 * order in which keys were first inserted. Assigning to an existing key
 * changes its value but not its position.
 */
module OrderedDict {

  /** No element occurs twice. */
  predicate Distinct<T(==)>(s: seq<T>)
  {
    forall i, j :: 0 <= i < j < |s| ==> s[i] != s[j]
  }

  /** `keys` is the iteration order, `items` the mapping. */
  datatype Dict<K(==,!new), V> = Dict(keys: seq<K>, items: map<K, V>)
  {
    /** Every key is listed exactly once, and only keys are listed. */
    ghost predicate Valid()
    {
      && Distinct(keys)
      && (forall k :: k in items <==> k in keys)
    }

    /** `d[k] = v`: a new key goes to the end; an existing key keeps its place. */
    function Put(k: K, v: V): (r: Dict<K, V>)
      ensures r.items == items[k := v]
      ensures k in items ==> r.keys == keys
      ensures k !in items ==> r.keys == keys + [k]
      ensures Valid() ==> r.Valid()
    {
      if k in items then Dict(keys, items[k := v]) else Dict(keys + [k], items[k := v])
    }
  }

  /** `{}` */
  function Empty<K(==,!new), V>(): (d: Dict<K, V>)
    ensures d.Valid() && d.keys == [] && d.items == map[]
  {
    Dict([], map[])
  }

  /** The distinct elements of `s`, each at the place where it first occurs. */
  function FirstSeen<T(==,!new)>(s: seq<T>): (r: seq<T>)
    ensures forall x :: x in r <==> x in s
    ensures Distinct(r)
  {
    if s == [] then []
    else
      var init := s[..|s| - 1];
      var p := FirstSeen(init);
      if s[|s| - 1] in init then p else p + [s[|s| - 1]]
  }

  /** Appending an element already seen changes nothing; a new one goes to the end. */
  lemma FirstSeenSnoc<T(!new)>(s: seq<T>, x: T)
    ensures FirstSeen(s + [x]) == if x in s then FirstSeen(s) else FirstSeen(s) + [x]
  {
    assert (s + [x])[..|s|] == s;
  }

  /** `d = {}` followed by `d[k] = v` for each `k` of `ks`, in turn. */
  function Inserted<K(==,!new), V>(ks: seq<K>, v: V): Dict<K, V>
  {
    if ks == [] then Empty() else Inserted(ks[..|ks| - 1], v).Put(ks[|ks| - 1], v)
  }

  /** Assigning the keys `ks` one by one to an empty dict lists them in first-seen order. */
  lemma {:induction false} InsertionOrder<K(!new), V>(ks: seq<K>, v: V)
    ensures Inserted(ks, v).Valid()
    ensures Inserted(ks, v).keys == FirstSeen(ks)
    ensures forall k :: k in Inserted(ks, v).items <==> k in ks
  {
    if ks != [] {
      var init, last := ks[..|ks| - 1], ks[|ks| - 1];
      InsertionOrder(init, v);
      assert ks == init + [last];
      FirstSeenSnoc(init, last);
    }
  }

  /** If `a` precedes `b` in `FirstSeen(s)`, then `a` occurs in `s` before every occurrence of `b`. */
  lemma {:induction false} FirstSeenOrder<T(!new)>(s: seq<T>, i: nat, j: nat, p: nat)
    requires i < j < |FirstSeen(s)|
    requires p < |s| && s[p] == FirstSeen(s)[j]
    ensures FirstSeen(s)[i] in s[..p]
    decreases |s|
  {
    var init := s[..|s| - 1];
    var last := s[|s| - 1];
    var q := FirstSeen(init);
    var r := FirstSeen(s);
    if last !in init && j == |r| - 1 {
      assert r[j] == last;
      assert forall k :: 0 <= k < |s| - 1 ==> s[k] == init[k];
      assert p == |s| - 1;
      assert r[i] == q[i];
      assert s[..p] == init;
    } else {
      assert j < |q| && r[i] == q[i] && r[j] == q[j];
      if p < |s| - 1 {
        assert init[p] == s[p];
        FirstSeenOrder(init, i, j, p);
        assert init[..p] == s[..p];
      } else {
        assert last in init;
        var p' :| 0 <= p' < |init| && init[p'] == last;
        FirstSeenOrder(init, i, j, p');
        assert init[..p'] == s[..p'];
        assert s[..p] == init;
      }
    }
  }
}
