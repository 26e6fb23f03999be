/** Element-wise rewriting of a list, each element to any number of others. */
module FlatMaps {

  lemma Regroup<T>(a: seq<T>, b: seq<T>, c: seq<T>)
    ensures a + b + c == a + (b + c)
  {
  }

  function FlatMap<A, B>(f: A -> seq<B>, s: seq<A>): seq<B> {
    if s == [] then [] else f(s[0]) + FlatMap(f, s[1..])
  }

  lemma FlatMapOne<A, B>(f: A -> seq<B>, x: A)
    ensures FlatMap(f, [x]) == f(x)
  {
    assert FlatMap(f, [x]) == f(x) + FlatMap(f, []);
  }

  lemma {:induction false} FlatMapConcat<A, B>(f: A -> seq<B>, s: seq<A>, t: seq<A>)
    ensures FlatMap(f, s + t) == FlatMap(f, s) + FlatMap(f, t)
  {
    if s == [] {
      assert s + t == t;
    } else {
      FlatMapConcat(f, s[1..], t);
      assert (s + t)[1..] == s[1..] + t && (s + t)[0] == s[0];
      Regroup(f(s[0]), FlatMap(f, s[1..]), FlatMap(f, t));
    }
  }

  lemma {:induction false} FlatMapMember<A, B>(f: A -> seq<B>, s: seq<A>, y: B)
    ensures y in FlatMap(f, s) <==> exists x :: x in s && y in f(x)
  {
    if s != [] {
      FlatMapMember(f, s[1..], y);
      assert s == [s[0]] + s[1..];
    }
  }

  /** The elements that pass a test, in order. */
  function Kept<A>(p: A -> bool, s: seq<A>): seq<A> {
    if s == [] then [] else Kept(p, s[..|s| - 1]) + if p(s[|s| - 1]) then [s[|s| - 1]] else []
  }

  lemma {:induction false} KeptMembers<A>(p: A -> bool, s: seq<A>)
    ensures forall x :: x in Kept(p, s) <==> x in s && p(x)
    ensures |Kept(p, s)| <= |s|
  {
    if s != [] {
      KeptMembers(p, s[..|s| - 1]);
      assert s == s[..|s| - 1] + [s[|s| - 1]];
    }
  }

  lemma KeptOne<A>(p: A -> bool, x: A)
    ensures Kept(p, [x]) == if p(x) then [x] else []
  {
    assert [x][..0] == [] && Kept(p, []) == [];
  }

  lemma {:induction false} KeptAll<A>(p: A -> bool, s: seq<A>)
    requires forall x :: x in s ==> p(x)
    ensures Kept(p, s) == s
  {
    if s != [] {
      var before, last := s[..|s| - 1], s[|s| - 1];
      assert s == before + [last] && last in s;
      assert forall x :: x in before ==> x in s;
      KeptAll(p, before);
    }
  }

  lemma {:induction false} KeptNone<A>(p: A -> bool, s: seq<A>)
    requires forall x :: x in s ==> !p(x)
    ensures Kept(p, s) == []
  {
    if s != [] {
      assert s[|s| - 1] in s && forall x :: x in s[..|s| - 1] ==> x in s;
      KeptNone(p, s[..|s| - 1]);
    }
  }

  /** Everything is kept exactly when everything passes. */
  lemma KeptAllIff<A>(p: A -> bool, s: seq<A>)
    ensures Kept(p, s) == s <==> forall x :: x in s ==> p(x)
  {
    KeptMembers(p, s);
    if forall x :: x in s ==> p(x) {
      KeptAll(p, s);
    }
  }
}
