/** Configuration trees: nested assignment, the recursive merge, and the
    environment overrides laid over a configuration file. */
module ConfigTree {
  import opened Text

  /** A coerced value; a list is a value, not a tree. */
  datatype Scalar = Null | Str(s: string) | Int(i: int) | Float(r: real) | Bool(b: bool) | StrList(items: seq<string>)

  datatype Tree = Leaf(value: Scalar) | Dict(entries: map<string, Tree>)

  type Path = seq<string>

  // ------------------------------------------------------------- reading

  function Lookup(t: Tree, path: Path): Option<Tree> {
    if path == [] then Some(t)
    else if t.Dict? && path[0] in t.entries then Lookup(t.entries[path[0]], path[1..])
    else None
  }

  /** What a tree has at a path: nothing, a dict, or a value. */
  datatype Shape = Absent | Inner | Holds(value: Scalar)

  function ShapeOf(t: Option<Tree>): Shape {
    match t
    case None => Absent
    case Some(Leaf(v)) => Holds(v)
    case Some(Dict(_)) => Inner
  }

  function ShapeAt(t: Tree, path: Path): Shape {
    ShapeOf(Lookup(t, path))
  }

  /** One path is a prefix of the other. */
  predicate Comparable(p: Path, q: Path) {
    p <= q || q <= p
  }

  lemma OneKey(t: Tree, key: string)
    ensures Lookup(t, [key]) == if t.Dict? && key in t.entries then Some(t.entries[key]) else None
  {
    assert [key][1..] == [];
  }

  /** A tree is determined by its shapes. */
  lemma {:induction false} ShapesDetermine(t: Tree, u: Tree)
    requires forall q :: ShapeAt(t, q) == ShapeAt(u, q)
    ensures t == u
    decreases t
  {
    assert ShapeAt(t, []) == ShapeAt(u, []);
    if t.Dict? {
      assert u.Dict?;
      forall k ensures k in t.entries <==> k in u.entries {
        OneKey(t, k);
        OneKey(u, k);
        assert ShapeAt(t, [k]) == ShapeAt(u, [k]);
      }
      forall k | k in t.entries ensures t.entries[k] == u.entries[k] {
        forall q ensures ShapeAt(t.entries[k], q) == ShapeAt(u.entries[k], q) {
          assert ([k] + q)[1..] == q;
          assert ShapeAt(t, [k] + q) == ShapeAt(u, [k] + q);
        }
        ShapesDetermine(t.entries[k], u.entries[k]);
      }
      assert t.entries == u.entries;
    }
  }

  // ------------------------------------------------------------- merging

  /** `_deep_merge`: the override wins except where both sides are dicts. */
  function Merge(base: Tree, over: Tree): Tree
    decreases over
  {
    if base.Dict? && over.Dict? then
      Dict(map key | key in base.entries.Keys + over.entries.Keys ::
        if key !in over.entries then base.entries[key]
        else if key in base.entries then Merge(base.entries[key], over.entries[key])
        else over.entries[key])
    else over
  }

  /** The entries that the merge must end with. */
  ghost predicate MergedEntries(base: map<string, Tree>, over: map<string, Tree>, all: map<string, Tree>) {
    && all.Keys == base.Keys + over.Keys
    && (forall key :: key in base && key !in over ==> all[key] == base[key])
    && (forall key :: key in over && key !in base ==> all[key] == over[key])
    && (forall key :: key in over && key in base ==> all[key] == Merge(base[key], over[key]))
  }

  /** `_deep_merge` as a loop: copy the base, then visit the override's keys. */
  method DeepMerge(base: Tree, over: Tree) returns (merged: Tree)
    requires base.Dict? && over.Dict?
    ensures merged == Merge(base, over)
    decreases over, 1
  {
    var entries := base.entries;
    var rest := over.entries.Keys;
    NoKeys(base.entries, over.entries);
    while rest != {}
      invariant rest <= over.entries.Keys
      invariant MergedEntries(base.entries, Without(over.entries, rest), entries)
      decreases |rest|
    {
      var key :| key in rest;
      var value := MergeValue(if key in entries then Some(entries[key]) else None, over.entries[key]);
      OneMoreKey(base.entries, over.entries, rest, key, entries, value);
      entries := entries[key := value];
      rest := rest - {key};
    }
    SameEntries(base, over, entries);
    merged := Dict(entries);
  }

  method MergeValue(present: Option<Tree>, value: Tree) returns (merged: Tree)
    ensures merged == if present.Some? then Merge(present.value, value) else value
    decreases value, 2
  {
    if present.Some? && present.value.Dict? && value.Dict? {
      merged := DeepMerge(present.value, value);
    } else {
      merged := value;
    }
  }

  function Without(m: map<string, Tree>, keys: set<string>): map<string, Tree> {
    map key | key in m && key !in keys :: m[key]
  }

  lemma NoKeys(base: map<string, Tree>, over: map<string, Tree>)
    ensures MergedEntries(base, Without(over, over.Keys), base)
  {
    assert Without(over, over.Keys) == map[];
  }

  lemma OneMoreKey(base: map<string, Tree>, over: map<string, Tree>, rest: set<string>, key: string,
                   entries: map<string, Tree>, merged: Tree)
    requires key in rest && rest <= over.Keys
    requires MergedEntries(base, Without(over, rest), entries)
    requires merged == if key in entries then Merge(entries[key], over[key]) else over[key]
    ensures MergedEntries(base, Without(over, rest - {key}), entries[key := merged])
  {
    var before, after := Without(over, rest), Without(over, rest - {key});
    assert after.Keys == before.Keys + {key};
    assert key !in before;
    assert key in entries <==> key in base;
    assert key in entries ==> entries[key] == base[key];
  }

  lemma SameEntries(base: Tree, over: Tree, entries: map<string, Tree>)
    requires base.Dict? && over.Dict? && MergedEntries(base.entries, Without(over.entries, {}), entries)
    ensures Dict(entries) == Merge(base, over)
  {
    assert Without(over.entries, {}) == over.entries;
    assert entries == Merge(base, over).entries;
  }

  /** A value of the override is found at its path after the merge. */
  lemma {:induction false} OverrideWins(base: Tree, over: Tree, path: Path)
    requires ShapeAt(over, path).Holds?
    ensures Lookup(Merge(base, over), path) == Lookup(over, path)
    decreases path
  {
    if path != [] && base.Dict? && path[0] in base.entries {
      OverrideWins(base.entries[path[0]], over.entries[path[0]], path[1..]);
    }
  }

  /** A path that leaves the override at one of its dicts. */
  predicate LeavesAtDict(over: Tree, path: Path) {
    path != [] && over.Dict? && (path[0] in over.entries ==> LeavesAtDict(over.entries[path[0]], path[1..]))
  }

  /** Where the override has nothing, the base is untouched. */
  lemma {:induction false} BaseSurvives(base: Tree, over: Tree, path: Path)
    requires LeavesAtDict(over, path)
    ensures Lookup(Merge(base, over), path) == Lookup(base, path)
    decreases path
  {
    if path[0] in over.entries {
      if base.Dict? && path[0] in base.entries {
        BaseSurvives(base.entries[path[0]], over.entries[path[0]], path[1..]);
      } else {
        LeavesNothing(over.entries[path[0]], path[1..]);
      }
    } else if !base.Dict? {
      assert Lookup(over, path) == None;
    }
  }

  lemma {:induction false} LeavesNothing(over: Tree, path: Path)
    requires LeavesAtDict(over, path)
    ensures Lookup(over, path) == None
    decreases path
  {
    if path[0] in over.entries {
      LeavesNothing(over.entries[path[0]], path[1..]);
    }
  }

  /** Merging the same override again changes nothing. */
  lemma {:induction false} MergeIsIdempotent(base: Tree, over: Tree)
    ensures Merge(Merge(base, over), over) == Merge(base, over)
    decreases over
  {
    var once := Merge(base, over);
    if base.Dict? && over.Dict? {
      forall key | key in once.entries ensures Merge(once, over).entries[key] == once.entries[key] {
        if key in over.entries {
          if key in base.entries {
            MergeIsIdempotent(base.entries[key], over.entries[key]);
          } else {
            MergeWithItself(over.entries[key]);
          }
        }
      }
      assert Merge(once, over).entries == once.entries;
    } else {
      MergeWithItself(over);
    }
  }

  lemma {:induction false} MergeWithItself(t: Tree)
    ensures Merge(t, t) == t
  {
    if t.Dict? {
      forall key | key in t.entries ensures Merge(t, t).entries[key] == t.entries[key] {
        MergeWithItself(t.entries[key]);
      }
      assert Merge(t, t).entries == t.entries;
    }
  }

  // --------------------------------------------------- nested assignment

  /** `_set_nested`; None is the error of going through a value. */
  function SetNested(t: Tree, path: Path, value: Scalar): Option<Tree>
    requires path != []
    decreases path
  {
    if t.Leaf? then None
    else if |path| == 1 then Some(Dict(t.entries[path[0] := Leaf(value)]))
    else
      var inner := SetNested(if path[0] in t.entries then t.entries[path[0]] else Dict(map[]), path[1..], value);
      if inner.None? then None else Some(Dict(t.entries[path[0] := inner.value]))
  }

  lemma EmptyDictShapes(path: Path)
    ensures ShapeAt(Dict(map[]), path) == if path == [] then Inner else Absent
  {
  }

  /** It succeeds exactly when no proper prefix of the path holds a value. */
  lemma {:induction false} SetNestedSucceedsIff(t: Tree, path: Path, value: Scalar)
    requires path != []
    ensures SetNested(t, path, value).Some? <==> forall n :: 0 <= n < |path| ==> !ShapeAt(t, path[..n]).Holds?
    decreases path
  {
    assert ShapeAt(t, path[..0]) == ShapeAt(t, []);
    if t.Dict? {
      var inner := if path[0] in t.entries then t.entries[path[0]] else Dict(map[]);
      forall n | 0 < n < |path|
        ensures ShapeAt(t, path[..n]).Holds? <==> ShapeAt(inner, path[1..][..n - 1]).Holds?
      {
        assert path[..n][1..] == path[1..][..n - 1];
        if path[0] !in t.entries {
          EmptyDictShapes(path[1..][..n - 1]);
        }
      }
      if |path| > 1 {
        SetNestedSucceedsIff(inner, path[1..], value);
        if forall n :: 0 <= n < |path| ==> !ShapeAt(t, path[..n]).Holds? {
          forall n | 0 <= n < |path| - 1 ensures !ShapeAt(inner, path[1..][..n]).Holds? {
            assert !ShapeAt(t, path[..n + 1]).Holds?;
          }
        }
        if SetNested(t, path, value).Some? {
          forall n | 0 < n < |path| ensures !ShapeAt(t, path[..n]).Holds? {
            assert !ShapeAt(inner, path[1..][..n - 1]).Holds?;
          }
        }
      }
    } else {
      assert ShapeAt(t, path[..0]).Holds?;
    }
  }

  /** What it changes: its path, the prefixes and the extensions of it. */
  lemma {:induction false} SetNestedShapes(t: Tree, path: Path, value: Scalar, q: Path)
    requires path != [] && SetNested(t, path, value).Some?
    ensures ShapeAt(SetNested(t, path, value).value, q)
            == if q == path then Holds(value)
               else if q <= path then Inner
               else if path <= q then Absent
               else ShapeAt(t, q)
    decreases path
  {
    if q != [] && q[0] == path[0] {
      assert q == [q[0]] + q[1..] && path == [path[0]] + path[1..];
      assert q <= path <==> q[1..] <= path[1..];
      assert path <= q <==> path[1..] <= q[1..];
      if |path| > 1 {
        var inner := if path[0] in t.entries then t.entries[path[0]] else Dict(map[]);
        SetNestedShapes(inner, path[1..], value, q[1..]);
        EmptyDictShapes(q[1..]);
      } else {
        assert Lookup(SetNested(t, path, value).value, q) == Lookup(Leaf(value), q[1..]);
      }
    }
  }

  // ------------------------------------------------------- the overrides

  datatype Assignment = Assignment(path: Path, value: Scalar)

  predicate PrefixFree(assignments: seq<Assignment>) {
    && (forall x :: x in assignments ==> x.path != [])
    && forall x, y :: x in assignments && y in assignments && x.path <= y.path ==> x == y
  }

  /** The dict that assigning all of them to an empty one leaves. */
  function Assigned(assignments: seq<Assignment>): Option<Tree>
    requires forall x :: x in assignments ==> x.path != []
  {
    if assignments == [] then Some(Dict(map[]))
    else
      var n := |assignments| - 1;
      var before := Assigned(assignments[..n]);
      if before.None? then None else SetNested(before.value, assignments[n].path, assignments[n].value)
  }

  /** The shape that a prefix-free set of assignments prescribes. */
  ghost predicate Prescribes(assignments: seq<Assignment>, q: Path, shape: Shape) {
    match shape
    case Holds(v) => exists x :: x in assignments && x.path == q && x.value == v
    case Inner => q == [] || exists x :: x in assignments && q < x.path
    case Absent => q != [] && forall x :: x in assignments ==> !(q <= x.path)
  }

  lemma {:induction false} AssignedShapes(assignments: seq<Assignment>, q: Path)
    requires PrefixFree(assignments)
    ensures Assigned(assignments).Some?
    ensures Prescribes(assignments, q, ShapeAt(Assigned(assignments).value, q))
  {
    if assignments == [] {
      EmptyDictShapes(q);
    } else {
      var n := |assignments| - 1;
      var init, last := assignments[..n], assignments[n];
      assert assignments == init + [last];
      AssignedShapes(init, q);
      var before := Assigned(init).value;
      forall m | 0 <= m < |last.path| ensures !ShapeAt(before, last.path[..m]).Holds? {
        AssignedShapes(init, last.path[..m]);
      }
      SetNestedSucceedsIff(before, last.path, last.value);
      SetNestedShapes(before, last.path, last.value, q);
      PrescribedStep(init, last, q, ShapeAt(before, q));
    }
  }

  lemma PrescribedStep(init: seq<Assignment>, last: Assignment, q: Path, shape: Shape)
    requires PrefixFree(init + [last]) && Prescribes(init, q, shape)
    ensures Prescribes(init + [last], q,
                       if q == last.path then Holds(last.value)
                       else if q <= last.path then Inner
                       else if last.path <= q then Absent
                       else shape)
  {
    var all := init + [last];
    assert last in all && forall x :: x in init ==> x in all;
    assert forall x :: x in all ==> x == last || x in init;
    if q != last.path && !(q <= last.path) && last.path <= q {
      assert forall x :: x in all && q <= x.path ==> last.path <= x.path;
    }
  }

  lemma PrescriptionIsUnique(a: seq<Assignment>, b: seq<Assignment>, q: Path, s: Shape, t: Shape)
    requires PrefixFree(a) && forall x :: x in a <==> x in b
    requires Prescribes(a, q, s) && Prescribes(b, q, t)
    ensures s == t
  {
    assert forall x :: x in a && x.path == q ==> q <= x.path;
  }

  /** The result does not depend on the order of the assignments. */
  lemma OrderDoesNotMatter(a: seq<Assignment>, b: seq<Assignment>)
    requires PrefixFree(a) && forall x :: x in a <==> x in b
    ensures Assigned(a).Some? && Assigned(a) == Assigned(b)
  {
    AssignedShapes(a, []);
    AssignedShapes(b, []);
    forall q ensures ShapeAt(Assigned(a).value, q) == ShapeAt(Assigned(b).value, q) {
      AssignedShapes(a, q);
      AssignedShapes(b, q);
      PrescriptionIsUnique(a, b, q, ShapeAt(Assigned(a).value, q), ShapeAt(Assigned(b).value, q));
    }
    ShapesDetermine(Assigned(a).value, Assigned(b).value);
  }

  lemma {:induction false} AbsentLeaves(t: Tree, q: Path)
    requires q != [] && ShapeAt(t, q) == Absent
    requires forall n :: 0 <= n < |q| ==> !ShapeAt(t, q[..n]).Holds?
    ensures LeavesAtDict(t, q)
    decreases q
  {
    assert ShapeAt(t, q[..0]) == ShapeAt(t, []);
    assert t.Dict?;
    if q[0] in t.entries {
      assert ShapeAt(t, q) == ShapeAt(t.entries[q[0]], q[1..]);
      forall n | 0 <= n < |q| - 1 ensures !ShapeAt(t.entries[q[0]], q[1..][..n]).Holds? {
        assert q[..n + 1][1..] == q[1..][..n];
        assert !ShapeAt(t, q[..n + 1]).Holds?;
      }
      AbsentLeaves(t.entries[q[0]], q[1..]);
    }
  }

  lemma AssignedValue(assignments: seq<Assignment>, x: Assignment)
    requires PrefixFree(assignments) && x in assignments
    ensures Assigned(assignments).Some?
    ensures Lookup(Assigned(assignments).value, x.path) == Some(Leaf(x.value))
  {
    AssignedShapes(assignments, x.path);
    var shape := ShapeAt(Assigned(assignments).value, x.path);
    PrescriptionIsUnique(assignments, assignments, x.path, shape, Holds(x.value));
  }

  /** The override law. After the merge every assigned path holds its value;
      at every path not comparable with an assigned one the configuration is
      what the file said; and merging again changes nothing. */
  lemma OverrideLaw(file: Tree, assignments: seq<Assignment>)
    requires file.Dict? && PrefixFree(assignments)
    ensures Assigned(assignments).Some?
    ensures var merged := Merge(file, Assigned(assignments).value);
            && (forall x :: x in assignments ==> Lookup(merged, x.path) == Some(Leaf(x.value)))
            && (forall q :: (forall x :: x in assignments ==> !Comparable(q, x.path)) ==>
                  q == [] || Lookup(merged, q) == Lookup(file, q))
            && Merge(merged, Assigned(assignments).value) == merged
  {
    AssignedShapes(assignments, []);
    var over := Assigned(assignments).value;
    forall x | x in assignments ensures Lookup(Merge(file, over), x.path) == Some(Leaf(x.value)) {
      AssignedValue(assignments, x);
      OverrideWins(file, over, x.path);
    }
    forall q | q != [] && forall x :: x in assignments ==> !Comparable(q, x.path)
      ensures Lookup(Merge(file, over), q) == Lookup(file, q)
    {
      Untouched(file, assignments, q);
    }
    MergeIsIdempotent(file, over);
  }

  lemma Untouched(file: Tree, assignments: seq<Assignment>, q: Path)
    requires file.Dict? && PrefixFree(assignments) && q != []
    requires forall x :: x in assignments ==> !Comparable(q, x.path)
    ensures Assigned(assignments).Some?
    ensures Lookup(Merge(file, Assigned(assignments).value), q) == Lookup(file, q)
  {
    AssignedShapes(assignments, q);
    var over := Assigned(assignments).value;
    forall n | 0 <= n < |q| ensures !ShapeAt(over, q[..n]).Holds? {
      AssignedShapes(assignments, q[..n]);
      assert q[..n] <= q;
    }
    AbsentLeaves(over, q);
    BaseSurvives(file, over, q);
  }
}
