/** Ids in increasing order, as `ORDER BY id` returns them. */
module IdLists {

  predicate Increasing(ids: seq<int>) {
    forall i, j :: 0 <= i < j < |ids| ==> ids[i] < ids[j]
  }

  ghost function AnyOf<T>(s: set<T>): (x: T)
    requires s != {}
    ensures x in s
  {
    var x :| x in s;
    x
  }

  predicate IsMin(ids: set<int>, m: int) {
    m in ids && forall x :: x in ids ==> m <= x
  }

  lemma {:induction false} MinExists(ids: set<int>)
    requires ids != {}
    ensures exists m :: IsMin(ids, m)
  {
    var y := AnyOf(ids);
    if !IsMin(ids, y) {
      var z :| z in ids && z < y;
      var rest := ids - {y};
      assert z in rest;
      MinExists(rest);
      var m :| IsMin(rest, m);
      assert m <= z;
      forall x | x in ids ensures m <= x {
        assert x == y || x in rest;
      }
      assert IsMin(ids, m);
    }
  }

  function MinOf(ids: set<int>): (m: int)
    requires ids != {}
    ensures IsMin(ids, m)
  {
    MinExists(ids);
    var m :| IsMin(ids, m);
    m
  }

  /** The members of `ids` in increasing order. */
  function Ordered(ids: set<int>): (r: seq<int>)
    ensures Increasing(r)
    ensures forall x :: x in r <==> x in ids
  {
    if ids == {} then []
    else
      var m := MinOf(ids);
      var rest := Ordered(ids - {m});
      assert forall k :: 0 <= k < |rest| ==> rest[k] in ids - {m};
      [m] + rest
  }

  lemma OrderedEmpty(ids: set<int>)
    ensures Ordered(ids) == [] <==> ids == {}
  {
    if ids != {} {
      assert MinOf(ids) in Ordered(ids);
    }
  }

  /** Increasing lists with the same members are equal. */
  lemma {:induction false} IncreasingDetermined(a: seq<int>, b: seq<int>)
    requires Increasing(a) && Increasing(b)
    requires forall x :: x in a <==> x in b
    ensures a == b
  {
    if a != [] { assert a[0] in a; }
    if b != [] { assert b[0] in b; }
    if a != [] && b != [] {
      forall x ensures x in a[1..] <==> x in b[1..] {
        assert x in a <==> x in b;
      }
      IncreasingDetermined(a[1..], b[1..]);
      assert a == [a[0]] + a[1..] && b == [b[0]] + b[1..];
    }
  }

  /** The list without `id`. */
  function Removed(ids: seq<int>, id: int): (r: seq<int>)
    ensures forall x :: x in r <==> x in ids && x != id
    ensures Increasing(ids) ==> Increasing(r)
  {
    if ids == [] then []
    else
      var rest := Removed(ids[1..], id);
      assert ids == [ids[0]] + ids[1..];
      assert forall k :: 0 <= k < |rest| ==> rest[k] in ids[1..];
      if ids[0] == id then rest else [ids[0]] + rest
  }

  lemma OrderedRemoved(ids: set<int>, id: int)
    ensures Ordered(ids - {id}) == Removed(Ordered(ids), id)
  {
    IncreasingDetermined(Ordered(ids - {id}), Removed(Ordered(ids), id));
  }
}
