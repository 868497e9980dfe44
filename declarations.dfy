/** Declaration merge (simpleopts.rb:10-13): the option hashes handed to
    `SimpleOpts.get` are merged, group by group, into the working table, each
    option starting out with only its `:default` slot. */
module Declarations {
  import opened RubyValues
  import opened OptionTable

  /** One `name => default` pair of a declaration hash. */
  datatype Decl = Decl(name: Name, default: Value)

  /** One declaration hash: its pairs in the hash's order. */
  type Group = seq<Decl>

  /** The slots of a freshly declared option: `{default: d}`. */
  function Fresh(d: Value): Slots {
    Slots(None, None, d)
  }

  /** `opts.merge!(group.map { |o, d| [o, {default: d}] }.to_h)`: the keys
      already present keep their places, and the keys afterwards are exactly
      the old keys and the group's names. */
  function Declare(t: Table, g: Group): (r: Table)
    ensures Names(t) <= Names(r)
    ensures forall n :: n in Names(r) <==> n in Names(t) || n in DeclNames(g)
    decreases |g|
  {
    if g == [] then t
    else
      var d := g[|g| - 1];
      assert DeclNames(g) == DeclNames(g[..|g| - 1]) + [d.name];
      Put(Declare(t, g[..|g| - 1]), d.name, Fresh(d.default))
  }

  /** The table after the merge loop has run over every group. */
  function Merge(groups: seq<Group>): Table
    decreases |groups|
  {
    if groups == [] then []
    else Declare(Merge(groups[..|groups| - 1]), groups[|groups| - 1])
  }

  /** The merge loop of simpleopts.rb:10-13. */
  method MergeGroups(groups: seq<Group>) returns (opts: Table)
    ensures opts == Merge(groups)
  {
    opts := [];
    var i := 0;
    while i < |groups|
      invariant 0 <= i <= |groups|
      invariant opts == Merge(groups[..i])
    {
      var g := groups[i];
      ghost var before := opts;
      var j := 0;
      while j < |g|
        invariant 0 <= j <= |g|
        invariant opts == Declare(before, g[..j])
      {
        opts := Put(opts, g[j].name, Fresh(g[j].default));
        assert g[..j + 1][..j] == g[..j];
        j := j + 1;
      }
      assert g[..|g|] == g;
      assert groups[..i + 1][..i] == groups[..i];
      i := i + 1;
    }
    assert groups[..|groups|] == groups;
  }

  // ---------------------------------------------------------------------
  // Reference definitions: the merged table described without the loop.

  /** All declaration pairs, group after group. */
  function Flatten(groups: seq<Group>): seq<Decl>
    decreases |groups|
  {
    if groups == [] then [] else Flatten(groups[..|groups| - 1]) + groups[|groups| - 1]
  }

  function DeclNames(ds: seq<Decl>): seq<Name> {
    seq(|ds|, i requires 0 <= i < |ds| => ds[i].name)
  }

  /** The names that occur in `ns`, each once, at the place of its first occurrence. */
  function FirstOccurrences(ns: seq<Name>): seq<Name>
    decreases |ns|
  {
    if ns == [] then []
    else
      var front := ns[..|ns| - 1];
      FirstOccurrences(front) + (if ns[|ns| - 1] in front then [] else [ns[|ns| - 1]])
  }

  /** The default of the last pair in `ds` that declares `n`. */
  function LastDefault(ds: seq<Decl>, n: Name): Value
    requires n in DeclNames(ds)
    decreases |ds|
  {
    var d := ds[|ds| - 1];
    if d.name == n then d.default
    else
      assert DeclNames(ds) == DeclNames(ds[..|ds| - 1]) + [d.name];
      LastDefault(ds[..|ds| - 1], n)
  }

  lemma {:induction false} FirstOccurrencesSpec(ns: seq<Name>)
    ensures Distinct(FirstOccurrences(ns))
    ensures forall m :: m in FirstOccurrences(ns) <==> m in ns
    decreases |ns|
  {
    if ns != [] {
      var front := ns[..|ns| - 1];
      FirstOccurrencesSpec(front);
      assert ns == front + [ns[|ns| - 1]];
    }
  }

  lemma {:induction false} DeclareAppend(t: Table, a: Group, b: Group)
    ensures Declare(t, a + b) == Declare(Declare(t, a), b)
    decreases |b|
  {
    if b == [] {
      assert a + b == a;
    } else {
      var b' := b[..|b| - 1];
      assert (a + b)[..|a + b| - 1] == a + b';
      DeclareAppend(t, a, b');
    }
  }

  /** Merging group by group is declaring every pair in one run. */
  lemma {:induction false} MergeIsFlatDeclare(groups: seq<Group>)
    ensures Merge(groups) == Declare([], Flatten(groups))
    decreases |groups|
  {
    if groups != [] {
      var front := groups[..|groups| - 1];
      MergeIsFlatDeclare(front);
      DeclareAppend([], Flatten(front), groups[|groups| - 1]);
    }
  }

  lemma {:induction false} DeclareNames(ds: seq<Decl>)
    ensures Names(Declare([], ds)) == FirstOccurrences(DeclNames(ds))
    decreases |ds|
  {
    if ds != [] {
      var front := ds[..|ds| - 1];
      DeclareNames(front);
      assert DeclNames(ds)[..|ds| - 1] == DeclNames(front);
      FirstOccurrencesSpec(DeclNames(front));
    }
  }

  lemma {:induction false} DeclareFind(t: Table, ds: seq<Decl>, n: Name)
    ensures Find(Declare(t, ds), n)
         == if n in DeclNames(ds) then Some(Fresh(LastDefault(ds, n))) else Find(t, n)
    decreases |ds|
  {
    if ds != [] {
      var front := ds[..|ds| - 1];
      var d := ds[|ds| - 1];
      assert DeclNames(ds) == DeclNames(front) + [d.name];
      if d.name == n {
        assert Find(Declare(t, ds), n) == Some(Fresh(d.default));
      } else {
        DeclareFind(t, front, n);
        assert Find(Declare(t, ds), n) == Find(Declare(t, front), n);
        assert n in DeclNames(ds) <==> n in DeclNames(front);
      }
    }
  }

  /** The merged table holds one entry per declared name, in the order the names
      were first declared. */
  lemma MergeOrder(groups: seq<Group>)
    ensures Names(Merge(groups)) == FirstOccurrences(DeclNames(Flatten(groups)))
    ensures Distinct(Names(Merge(groups)))
    ensures forall n :: n in Names(Merge(groups)) <==> n in DeclNames(Flatten(groups))
  {
    MergeIsFlatDeclare(groups);
    DeclareNames(Flatten(groups));
    FirstOccurrencesSpec(DeclNames(Flatten(groups)));
  }

  /** Each merged option carries the default of its last declaration and no other slot. */
  lemma MergeDefaults(groups: seq<Group>, n: Name)
    ensures Find(Merge(groups), n)
         == if n in DeclNames(Flatten(groups)) then Some(Fresh(LastDefault(Flatten(groups), n))) else None
  {
    MergeIsFlatDeclare(groups);
    DeclareFind([], Flatten(groups), n);
  }

  /** A name declared in a later group takes that group's default. */
  lemma MergeLaterGroupWins(groups: seq<Group>, g: Group, n: Name)
    requires n in DeclNames(g)
    ensures Find(Merge(groups + [g]), n) == Some(Fresh(LastDefault(g, n)))
  {
    assert (groups + [g])[..|groups|] == groups;
    DeclareFind(Merge(groups), g, n);
  }
}
