/** Config overlay (simpleopts.rb:34-43): the config option's value names a
    file, the config option leaves the table unless it is to be kept, and the
    file's keys fill the `:conf` slots of the options they name.  Reading and
    parsing the file (`YAML.load_file`) is not modelled: it is a parameter that,
    given the path value, yields the pairs that `each` visits, or the exception
    it raised. */
module ConfigOverlay {
  import opened RubyValues
  import opened OptionTable

  /** One key/value pair of the loaded config, the key as the string its `to_sym` names. */
  datatype ConfigPair = ConfigPair(key: Name, value: Value)

  /** What `YAML.load_file(config_file)` gave: the pairs in the order `each`
      visits them, or the exception it raised. */
  datatype LoadOutcome = Loaded(pairs: seq<ConfigPair>) | LoadFailed(message: string)

  datatype OverlayOutcome = Overlaid(opts: Table) | Unloadable(message: string)

  /** `(opts[cfg] || {}).values_at(:cmdline, :default).compact.first`: the config
      option's command-line value if it has one, else its default; nil for an
      undeclared config option. */
  function ConfigPath(t: Table, cfg: Name): (r: Value)
    ensures Find(t, cfg).None? ==> r == Nil
    ensures forall s :: Find(t, cfg) == Some(s) ==>
              r == if Present(s.cmdline) then s.cmdline.value else s.default
  {
    match Find(t, cfg)
    case None => FirstNonNil([None, None])
    case Some(s) =>
      var slots := [s.cmdline, Some(s.default)];
      assert slots[0] == s.cmdline && slots[1] == Some(s.default);
      FirstNonNil(slots)
  }

  /** The block `{ |k, v| (opts[k.to_sym] || {})[:conf] = v }`: a key that names an
      option fills its `:conf` slot; any other key writes into a throwaway hash.
      No key, no position, no command-line value and no default changes. */
  function Fill(t: Table, p: ConfigPair): (r: Table)
    ensures |r| == |t| && Names(r) == Names(t)
    ensures p.key !in Names(t) ==> r == t
    ensures forall k :: 0 <= k < |t| ==>
              r[k].slots.cmdline == t[k].slots.cmdline && r[k].slots.default == t[k].slots.default
    ensures p.key in Names(t) ==> Find(r, p.key) == Some(Find(t, p.key).value.(conf := Some(p.value)))
    ensures forall n :: n != p.key ==> Find(r, n) == Find(t, n)
  {
    match IndexIn(Names(t), p.key)
    case None => t
    case Some(k) => SetSlots(t, k, t[k].slots.(conf := Some(p.value)))
  }

  /** The table after the block has run over every pair. */
  function FillAll(t: Table, pairs: seq<ConfigPair>): Table
    decreases |pairs|
  {
    if pairs == [] then t
    else Fill(FillAll(t, pairs[..|pairs| - 1]), pairs[|pairs| - 1])
  }

  /** The `each` loop of simpleopts.rb:39-41. */
  method ApplyConfig(opts: Table, pairs: seq<ConfigPair>) returns (r: Table)
    ensures r == FillAll(opts, pairs)
  {
    r := opts;
    var i := 0;
    while i < |pairs|
      invariant 0 <= i <= |pairs|
      invariant r == FillAll(opts, pairs[..i])
    {
      var p := pairs[i];
      var k := IndexIn(Names(r), p.key);
      if k.Some? {
        r := r[k.value := Entry(r[k.value].name, r[k.value].slots.(conf := Some(p.value)))];
      }
      assert pairs[..i + 1][..i] == pairs[..i];
      i := i + 1;
    }
    assert pairs[..|pairs|] == pairs;
  }

  /** The value of the last pair whose key is `n`, if any. */
  function LastConf(pairs: seq<ConfigPair>, n: Name): Option<Value>
    decreases |pairs|
  {
    if pairs == [] then None
    else if pairs[|pairs| - 1].key == n then Some(pairs[|pairs| - 1].value)
    else LastConf(pairs[..|pairs| - 1], n)
  }

  /** The slots `s` after a config value `c`, if any, has filled `:conf`. */
  function WithConf(s: Slots, c: Option<Value>): Slots {
    match c
    case Some(v) => s.(conf := Some(v))
    case None => s
  }

  /** Loading keeps every option in place and touches only `:conf` slots: an
      option's slot holds the value of the last pair naming it; keys that name
      no option change nothing. */
  lemma {:induction false} FillAllEffect(t: Table, pairs: seq<ConfigPair>)
    requires Distinct(Names(t))
    ensures |FillAll(t, pairs)| == |t|
    ensures Names(FillAll(t, pairs)) == Names(t)
    ensures forall k :: 0 <= k < |t| ==>
              FillAll(t, pairs)[k].slots == WithConf(t[k].slots, LastConf(pairs, t[k].name))
    decreases |pairs|
  {
    if pairs != [] {
      var front := pairs[..|pairs| - 1];
      var p := pairs[|pairs| - 1];
      FillAllEffect(t, front);
      var u := FillAll(t, front);
      match IndexIn(Names(u), p.key)
      case None =>
        forall k | 0 <= k < |t| ensures t[k].name != p.key {
          assert Names(u)[k] == t[k].name;
        }
      case Some(j) =>
        forall k | 0 <= k < |t| && k != j ensures t[k].name != p.key {
          assert Names(t)[k] == t[k].name && Names(t)[j] == p.key;
        }
    }
  }

  /** The lookup view of `FillAllEffect`. */
  lemma FillAllFind(t: Table, pairs: seq<ConfigPair>, n: Name)
    requires Distinct(Names(t))
    ensures Find(FillAll(t, pairs), n)
         == match Find(t, n)
            case None => None
            case Some(s) => Some(WithConf(s, LastConf(pairs, n)))
  {
    FillAllEffect(t, pairs);
    match IndexIn(Names(t), n)
    case None =>
    case Some(k) =>
  }

  /** simpleopts.rb:35-42, for the config option `cfg`: the config option is
      dropped unless kept, a path that prints as nothing loads no file, and the
      overlay fails exactly when the loader fails on the path, with its message. */
  function Overlay(t: Table, cfg: Name, keep: bool, load: Value -> LoadOutcome): (r: OverlayOutcome)
    ensures ToS(ConfigPath(t, cfg)) == "" ==> r == Overlaid(if keep then t else Delete(t, cfg))
    ensures r.Unloadable? <==> ToS(ConfigPath(t, cfg)) != "" && load(ConfigPath(t, cfg)).LoadFailed?
    ensures r.Unloadable? ==> r.message == load(ConfigPath(t, cfg)).message
  {
    var path := ConfigPath(t, cfg);
    var kept := if keep then t else Delete(t, cfg);
    if ToS(path) == "" then Overlaid(kept)
    else match load(path)
      case LoadFailed(m) => Unloadable(m)
      case Loaded(pairs) => Overlaid(FillAll(kept, pairs))
  }

  /** The config values that reach the table: none when the path prints as
      nothing, else the pairs the loader yielded. */
  function LoadedPairs(t: Table, cfg: Name, load: Value -> LoadOutcome): seq<ConfigPair> {
    var path := ConfigPath(t, cfg);
    if ToS(path) == "" then []
    else match load(path)
      case LoadFailed(_) => []
      case Loaded(pairs) => pairs
  }

  /** The overlay's key sequence: the table's own keys, less the config option
      unless it is kept; config keys never add one. */
  lemma OverlayNames(t: Table, cfg: Name, keep: bool, load: Value -> LoadOutcome)
    requires Distinct(Names(t))
    ensures Overlay(t, cfg, keep, load).Overlaid? ==>
      var r := Overlay(t, cfg, keep, load).opts;
      && Names(r) == (if keep then Names(t) else Without(Names(t), cfg))
      && Distinct(Names(r))
  {
    DeleteKeepsDistinct(t, cfg);
    var kept := if keep then t else Delete(t, cfg);
    FillAllEffect(kept, LoadedPairs(t, cfg, load));
  }

  /** What the overlay does to each option: the config option is gone unless
      kept; every other option keeps its command-line value and default, and its
      `:conf` slot takes the last value the config file gives for its name. */
  lemma OverlayFind(t: Table, cfg: Name, keep: bool, load: Value -> LoadOutcome, n: Name)
    requires Distinct(Names(t))
    ensures Overlay(t, cfg, keep, load).Overlaid? ==>
      Find(Overlay(t, cfg, keep, load).opts, n)
        == if !keep && n == cfg then None
           else match Find(t, n)
             case None => None
             case Some(s) => Some(WithConf(s, LastConf(LoadedPairs(t, cfg, load), n)))
  {
    DeleteKeepsDistinct(t, cfg);
    DeleteFind(t, cfg);
    var kept := if keep then t else Delete(t, cfg);
    FillAllFind(kept, LoadedPairs(t, cfg, load), n);
  }

  /** A config path that prints as nothing (nil, "" or an object with empty
      `to_s`) loads nothing and leaves every `:conf` slot as it was. */
  lemma OverlayEmptyPath(t: Table, cfg: Name, keep: bool, load: Value -> LoadOutcome)
    requires var p := ConfigPath(t, cfg); p == Nil || p == Str("") || (p.Obj? && p.text == "")
    ensures Overlay(t, cfg, keep, load) == Overlaid(if keep then t else Delete(t, cfg))
  {
  }

  /** An undeclared config option means no config file at all. */
  lemma OverlayUndeclared(t: Table, cfg: Name, keep: bool, load: Value -> LoadOutcome)
    requires cfg !in Names(t)
    ensures Overlay(t, cfg, keep, load) == Overlaid(if keep then t else Delete(t, cfg))
  {
  }
}
