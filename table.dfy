/** The routine's working hash `opts`: an insertion-ordered Ruby Hash from
    option name to the option's value slots.  A Ruby Hash keeps each key
    once, in the order of its first insertion; storing to an existing key
    replaces the value in place, and `delete` removes the key. */
module OptionTable {
  import opened RubyValues

  /** An option name (a Ruby Symbol), as its `to_s` text.  Two names are the
      same key exactly when their texts are equal. */
  type Name = string

  /** The `{cmdline:, conf:, default:}` hash of one option; `None` is an absent key. */
  datatype Slots = Slots(cmdline: Option<Value>, conf: Option<Value>, default: Value)

  datatype Entry = Entry(name: Name, slots: Slots)

  type Table = seq<Entry>

  function Names(t: Table): seq<Name> {
    seq(|t|, i requires 0 <= i < |t| => t[i].name)
  }

  ghost predicate Distinct(ns: seq<Name>) {
    forall i, j :: 0 <= i < j < |ns| ==> ns[i] != ns[j]
  }

  /** The position of the first occurrence of `n` in `ns`. */
  function IndexIn(ns: seq<Name>, n: Name): (r: Option<nat>)
    ensures r.None? <==> n !in ns
    ensures r.Some? ==> r.value < |ns| && ns[r.value] == n && n !in ns[..r.value]
  {
    if ns == [] then None
    else if ns[0] == n then Some(0)
    else match IndexIn(ns[1..], n)
      case None => None
      case Some(k) =>
        assert ns[..k + 1] == [ns[0]] + ns[1..][..k];
        Some(k + 1)
  }

  /** `opts[n]`: the slots stored under `n`; nil exactly when no key is `n`. */
  function Find(t: Table, n: Name): (r: Option<Slots>)
    ensures r.None? <==> n !in Names(t)
    ensures r.Some? ==> Entry(n, r.value) in t
  {
    match IndexIn(Names(t), n)
    case None => None
    case Some(k) => Some(t[k].slots)
  }

  /** In a table with distinct names, the entry under `n` is the one whose name is `n`. */
  lemma FindEntry(t: Table, n: Name)
    requires Distinct(Names(t))
    ensures Find(t, n).None? <==> n !in Names(t)
    ensures forall k :: 0 <= k < |t| && t[k].name == n ==> Find(t, n) == Some(t[k].slots)
  {
    forall k | 0 <= k < |t| && t[k].name == n
      ensures Find(t, n) == Some(t[k].slots)
    {
      assert Names(t)[k] == n;
      var j := IndexIn(Names(t), n).value;
      assert Names(t)[j] == n;
    }
  }

  /** The first occurrence is the only position holding `n` with no `n` before it. */
  lemma IndexInUnique(ns: seq<Name>, n: Name, k: nat)
    requires k < |ns| && ns[k] == n && n !in ns[..k]
    ensures IndexIn(ns, n) == Some(k)
  {
  }

  /** The key sequence after storing under `n`: unchanged if present, else `n` appended. */
  function Insert(ns: seq<Name>, n: Name): seq<Name> {
    if n in ns then ns else ns + [n]
  }

  /** `opts[n] = s` */
  function Put(t: Table, n: Name, s: Slots): (r: Table)
    ensures Names(r) == Insert(Names(t), n)
    ensures Find(r, n) == Some(s)
    ensures forall m :: m != n ==> Find(r, m) == Find(t, m)
  {
    match IndexIn(Names(t), n)
    case Some(k) =>
      assert Names(t[k := Entry(n, s)]) == Names(t);
      t[k := Entry(n, s)]
    case None =>
      AppendFind(t, Entry(n, s));
      t + [Entry(n, s)]
  }

  /** Appending an entry under a new name leaves every other lookup unchanged. */
  lemma AppendFind(t: Table, e: Entry)
    requires e.name !in Names(t)
    ensures Names(t + [e]) == Names(t) + [e.name]
    ensures Find(t + [e], e.name) == Some(e.slots)
    ensures forall m :: m != e.name ==> Find(t + [e], m) == Find(t, m)
  {
    var r := t + [e];
    assert Names(r) == Names(t) + [e.name];
    forall m | m != e.name ensures Find(r, m) == Find(t, m) {
      match IndexIn(Names(t), m)
      case None =>
      case Some(j) =>
        assert Names(r)[..j] == Names(t)[..j];
        IndexInUnique(Names(r), m, j);
    }
  }

  lemma PutKeepsDistinct(t: Table, n: Name, s: Slots)
    requires Distinct(Names(t))
    ensures Distinct(Names(Put(t, n, s)))
  {
  }

  /** `ns` with every `n` removed, the rest in order. */
  function Without(ns: seq<Name>, n: Name): (r: seq<Name>)
    ensures n !in r
    ensures forall m :: m in r <==> m in ns && m != n
  {
    if ns == [] then []
    else if ns[0] == n then Without(ns[1..], n)
    else [ns[0]] + Without(ns[1..], n)
  }

  /** `opts.delete(n)` */
  function Delete(t: Table, n: Name): (r: Table)
    ensures Names(r) == Without(Names(t), n)
    ensures forall e :: e in r <==> e in t && e.name != n
  {
    if t == [] then []
    else
      assert Names(t) == [t[0].name] + Names(t[1..]);
      var rest := Delete(t[1..], n);
      if t[0].name == n then rest
      else
        assert Names([t[0]] + rest) == [t[0].name] + Names(rest);
        [t[0]] + rest
  }

  lemma DistinctTail(ns: seq<Name>)
    requires Distinct(ns) && ns != []
    ensures Distinct(ns[1..]) && ns[0] !in ns[1..]
  {
    forall i, j | 0 <= i < j < |ns| - 1 ensures ns[1..][i] != ns[1..][j] {
      assert ns[1..][i] == ns[i + 1] && ns[1..][j] == ns[j + 1];
    }
    forall i | 0 <= i < |ns| - 1 ensures ns[1..][i] != ns[0] {
      assert ns[1..][i] == ns[i + 1];
    }
  }

  lemma {:induction false} DeleteKeepsDistinct(t: Table, n: Name)
    requires Distinct(Names(t))
    ensures Distinct(Names(Delete(t, n)))
  {
    if t != [] {
      assert Names(t[1..]) == Names(t)[1..];
      DistinctTail(Names(t));
      DeleteKeepsDistinct(t[1..], n);
      var rest := Delete(t[1..], n);
      if t[0].name != n {
        assert Names([t[0]] + rest) == [t[0].name] + Names(rest);
      }
    }
  }

  /** After `opts.delete(n)` the key `n` is gone and every other key keeps its slots. */
  lemma DeleteFind(t: Table, n: Name)
    requires Distinct(Names(t))
    ensures Find(Delete(t, n), n) == None
    ensures forall m :: m != n ==> Find(Delete(t, n), m) == Find(t, m)
  {
    var r := Delete(t, n);
    DeleteKeepsDistinct(t, n);
    FindEntry(t, n);
    FindEntry(r, n);
    forall m | m != n ensures Find(r, m) == Find(t, m) {
      FindEntry(t, m);
      FindEntry(r, m);
      if m in Names(t) {
        var k :| 0 <= k < |t| && t[k].name == m;
        assert t[k] in r;
        var j :| 0 <= j < |r| && r[j] == t[k];
      } else {
        forall j | 0 <= j < |r| ensures r[j].name != m {
          assert r[j] in t;
          var k :| 0 <= k < |t| && t[k] == r[j];
          assert Names(t)[k] == r[j].name;
        }
        assert m !in Names(r);
      }
    }
  }

  /** Replace the slots of the entry at position `k`, keeping its name and place. */
  function SetSlots(t: Table, k: nat, s: Slots): (r: Table)
    requires k < |t|
    ensures |r| == |t| && Names(r) == Names(t)
    ensures r[k] == Entry(t[k].name, s)
    ensures forall j :: 0 <= j < |t| && j != k ==> r[j] == t[j]
  {
    t[k := Entry(t[k].name, s)]
  }
}
