/**
 * Insertion-ordered dictionary semantics (Python's `OrderedDict` as used by
 * `frames[name] = frame`): a key that is new is appended to the key order,
 * a key already present keeps its position and only has its value replaced.
 */
module OrderedDict {

  /** The value of an ordered dictionary: its keys in order and their values. */
  datatype OrderedMap<K, V> = OrderedMap(order: seq<K>, entries: map<K, V>)

  /** The keys of a sequence of (key, value) assignments, in order. */
  function KeysOf<K(==), V>(ps: seq<(K, V)>): (ks: seq<K>)
    ensures |ks| == |ps|
    ensures forall i :: 0 <= i < |ps| ==> ks[i] == ps[i].0
  {
    seq(|ps|, i requires 0 <= i < |ps| => ps[i].0)
  }

  predicate Distinct<K(==)>(ks: seq<K>)
  {
    forall i, j :: 0 <= i < j < |ks| ==> ks[i] != ks[j]
  }

  /** Position of the first occurrence of `x` in `ks`. */
  function FirstIndex<K(==)>(ks: seq<K>, x: K): (r: nat)
    requires x in ks
    ensures r < |ks| && ks[r] == x
    ensures forall j :: 0 <= j < r ==> ks[j] != x
  {
    if ks[0] == x then 0 else 1 + FirstIndex(ks[1..], x)
  }

  /** Key order after assigning the keys `ks` one after the other. */
  function InsertionOrder<K(==)>(ks: seq<K>): seq<K>
  {
    if ks == [] then []
    else
      var before := InsertionOrder(ks[..|ks| - 1]);
      if ks[|ks| - 1] in before then before else before + [ks[|ks| - 1]]
  }

  /** Contents after the assignments `ps`, one after the other. */
  function LastWins<K(==), V>(ps: seq<(K, V)>): (m: map<K, V>)
    ensures forall k :: k in m ==> k in KeysOf(ps)
  {
    if ps == [] then map[]
    else LastWins(ps[..|ps| - 1])[ps[|ps| - 1].0 := ps[|ps| - 1].1]
  }

  /** `ks[i]` does not occur again after position `i`. */
  predicate IsLastOccurrence<K(==)>(ks: seq<K>, i: int)
  {
    0 <= i < |ks| && forall j :: i < j < |ks| ==> ks[j] != ks[i]
  }

  /** `i` is the last assignment to its key in `ps`. */
  predicate IsLastAssignment<K(==), V>(ps: seq<(K, V)>, i: int)
  {
    IsLastOccurrence(KeysOf(ps), i)
  }

  /** The key order holds exactly the keys that were assigned. */
  lemma {:induction false} InsertionOrderMembers<K>(ks: seq<K>)
    ensures forall x :: x in InsertionOrder(ks) <==> x in ks
    ensures forall i :: 0 <= i < |InsertionOrder(ks)| ==> InsertionOrder(ks)[i] in ks
  {
    if ks != [] {
      var n := |ks| - 1;
      InsertionOrderMembers(ks[..n]);
      assert ks == ks[..n] + [ks[n]];
    }
  }

  /** No key appears twice in the key order. */
  lemma {:induction false} InsertionOrderDistinct<K>(ks: seq<K>)
    ensures Distinct(InsertionOrder(ks))
  {
    if ks != [] {
      var n := |ks| - 1;
      InsertionOrderDistinct(ks[..n]);
    }
  }

  /** A key's first occurrence in a prefix that contains it is its first occurrence overall. */
  lemma FirstIndexInPrefix<K>(ks: seq<K>, m: nat, x: K)
    requires m <= |ks| && x in ks[..m]
    ensures x in ks && FirstIndex(ks, x) == FirstIndex(ks[..m], x) < m
  {
    var b := FirstIndex(ks[..m], x);
    assert ks[b] == x;
    assert forall j :: 0 <= j < b ==> ks[j] == ks[..m][j];
  }

  /** Every key of `order` occurs in `ks`, and `order` lists them by first occurrence in `ks`. */
  ghost predicate ByFirstOccurrence<K>(ks: seq<K>, order: seq<K>)
  {
    forall p, q :: 0 <= p < q < |order| ==>
      order[p] in ks && order[q] in ks && FirstIndex(ks, order[p]) < FirstIndex(ks, order[q])
  }

  /** Keys sit in the order of their first assignment. */
  lemma {:induction false} InsertionOrderByFirstAssignment<K>(ks: seq<K>)
    ensures ByFirstOccurrence(ks, InsertionOrder(ks))
  {
    if ks != [] {
      var n := |ks| - 1;
      var before := InsertionOrder(ks[..n]);
      InsertionOrderByFirstAssignment(ks[..n]);
      InsertionOrderMembers(ks[..n]);
      var d := InsertionOrder(ks);
      forall p, q | 0 <= p < q < |d|
        ensures d[p] in ks && d[q] in ks && FirstIndex(ks, d[p]) < FirstIndex(ks, d[q])
      {
        assert p < |before| && d[p] == before[p];
        FirstIndexInPrefix(ks, n, d[p]);
        if q < |before| {
          assert d[q] == before[q];
          FirstIndexInPrefix(ks, n, d[q]);
        } else {
          assert d[q] == ks[n] && ks[n] !in ks[..n];
          assert forall j :: 0 <= j < n ==> ks[..n][j] == ks[j];
        }
      }
    }
  }

  /** The key order is never longer than the assignments, and exactly as long iff no key repeats. */
  lemma {:induction false} InsertionOrderLength<K>(ks: seq<K>)
    ensures |InsertionOrder(ks)| <= |ks|
    ensures |InsertionOrder(ks)| == |ks| <==> Distinct(ks)
  {
    if ks != [] {
      var n := |ks| - 1;
      InsertionOrderLength(ks[..n]);
      InsertionOrderMembers(ks[..n]);
      if ks[n] in ks[..n] {
        var i :| 0 <= i < n && ks[..n][i] == ks[n];
        assert ks[i] == ks[n];
      } else {
        if Distinct(ks[..n]) {
          forall i, j | 0 <= i < j < |ks| ensures ks[i] != ks[j] {
            if j < n {
              assert ks[..n][i] == ks[i] && ks[..n][j] == ks[j];
            } else {
              assert ks[..n][i] == ks[i];
            }
          }
        } else {
          var i, j :| 0 <= i < j < n && ks[..n][i] == ks[..n][j];
          assert ks[i] == ks[j];
        }
      }
    }
  }

  /** The contents hold exactly the keys that were assigned. */
  lemma {:induction false} LastWinsKeys<K, V>(ps: seq<(K, V)>)
    ensures forall k :: k in LastWins(ps) <==> k in KeysOf(ps)
  {
    if ps != [] {
      var n := |ps| - 1;
      LastWinsKeys(ps[..n]);
      assert KeysOf(ps) == KeysOf(ps[..n]) + [ps[n].0];
    }
  }

  /** Every key holds the value of its last assignment. */
  lemma {:induction false} LastWinsValue<K, V>(ps: seq<(K, V)>, i: int)
    requires IsLastAssignment(ps, i)
    ensures ps[i].0 in LastWins(ps) && LastWins(ps)[ps[i].0] == ps[i].1
  {
    var n := |ps| - 1;
    if i < n {
      assert ps[..n][i] == ps[i];
      assert forall j :: i < j < n ==> KeysOf(ps[..n])[j] == KeysOf(ps)[j];
      LastWinsValue(ps[..n], i);
    }
  }

  /** The ordered dictionary obtained by assigning `ps` in order to an empty one. */
  function Assigned<K(==), V>(ps: seq<(K, V)>): OrderedMap<K, V>
  {
    OrderedMap(InsertionOrder(KeysOf(ps)), LastWins(ps))
  }

  /**
   * Everything the ordered dictionary promises after the assignments `ps`:
   * exactly the assigned keys, each once, in order of first assignment, each
   * holding the value of its last assignment.
   */
  lemma AssignedSemantics<K, V>(ps: seq<(K, V)>)
    ensures var m := Assigned(ps);
      && (forall k :: k in m.entries <==> k in KeysOf(ps))
      && (forall k :: k in m.order <==> k in m.entries)
      && Distinct(m.order)
      && ByFirstOccurrence(KeysOf(ps), m.order)
      && (forall i :: IsLastAssignment(ps, i) ==> m.entries[ps[i].0] == ps[i].1)
      && |m.order| <= |ps|
  {
    var ks := KeysOf(ps);
    LastWinsKeys(ps);
    InsertionOrderMembers(ks);
    InsertionOrderDistinct(ks);
    InsertionOrderByFirstAssignment(ks);
    InsertionOrderLength(ks);
    forall i | IsLastAssignment(ps, i) ensures LastWins(ps)[ps[i].0] == ps[i].1 {
      LastWinsValue(ps, i);
    }
  }

  /** Two assignments to the same key leave fewer keys than assignments. */
  lemma CollisionShrinks<K, V>(ps: seq<(K, V)>, i: int, j: int)
    requires 0 <= i < j < |ps| && ps[i].0 == ps[j].0
    ensures |Assigned(ps).order| < |ps|
  {
    InsertionOrderLength(KeysOf(ps));
  }
}
