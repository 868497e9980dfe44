/** `SimpleOpts.get` (simpleopts.rb:9-55): merge the declarations, register one
    flag per option, let the parser record command-line values, overlay the
    config file, and resolve each option to one value.  The two foreign calls
    are parameters: `parse` stands for `OptionParser#parse!` over the registered
    argument lists and argv, `load` for `YAML.load_file`. */
module SimpleOpts {
  import opened RubyValues
  import opened OptionTable
  import opened Declarations
  import opened Switches
  import opened CommandLine
  import opened ConfigOverlay
  import opened Resolution

  /** `OptionParser.new { ... }.parse! argv`, given the `op.on` argument lists in order. */
  type Parser = (seq<seq<OnArg>>, seq<string>) -> ParseOutcome

  /** `YAML.load_file(path)` */
  type Loader = Value -> LoadOutcome

  /** The `op.on` argument lists of every option, in table order. */
  function FlagSpecs(t: Table): seq<seq<OnArg>> {
    seq(|t|, k requires 0 <= k < |t| => OptArgs(t[k].name, t[k].slots.default))
  }

  /** The table the resolution loop starts from, or the exception that came first. */
  function Prepared(inopts: seq<Group>, configFileOpt: Option<Name>, keepConfigFile: bool,
                    argv: seq<string>, parse: Parser, load: Loader): Result<Table>
  {
    var declared := Merge(inopts);
    match parse(FlagSpecs(declared), argv)
    case ParseFailed(m) => Fail(ParseError(m))
    case Parsed(calls) =>
      var parsed := RecordAll(declared, calls);
      match configFileOpt
      case None => Ok(parsed)
      case Some(cfg) =>
        match Overlay(parsed, cfg, keepConfigFile, load)
        case Unloadable(m) => Fail(LoadError(m))
        case Overlaid(t) => Ok(t)
  }

  /** What `SimpleOpts.get` returns, or why it did not. */
  function Outcome(inopts: seq<Group>, configFileOpt: Option<Name>, keepConfigFile: bool,
                   argv: seq<string>, parse: Parser, load: Loader): Result<seq<Setting>>
  {
    match Prepared(inopts, configFileOpt, keepConfigFile, argv, parse, load)
    case Fail(f) => Fail(f)
    case Ok(t) => Resolve(t)
  }

  /** `SimpleOpts.get`, step by step on one working table. */
  method Get(inopts: seq<Group>, configFileOpt: Option<Name>, keepConfigFile: bool,
             argv: seq<string>, parse: Parser, load: Loader)
    returns (r: Result<seq<Setting>>)
    ensures r == Outcome(inopts, configFileOpt, keepConfigFile, argv, parse, load)
  {
    var opts := MergeGroups(inopts);
    var switches := DefineSwitches(opts);
    assert switches == FlagSpecs(opts);
    var parsed := parse(switches, argv);
    if parsed.ParseFailed? {
      return Fail(ParseError(parsed.message));
    }
    opts := RecordCommandLine(opts, parsed.calls);
    if configFileOpt.Some? {
      var cfg := configFileOpt.value;
      var configFile := ConfigPath(opts, cfg);
      if !keepConfigFile {
        opts := Delete(opts, cfg);
      }
      if ToS(configFile) != "" {
        var loaded := load(configFile);
        if loaded.LoadFailed? {
          return Fail(LoadError(loaded.message));
        }
        opts := ApplyConfig(opts, loaded.pairs);
      }
    }
    r := ResolveAll(opts);
  }

  // ---------------------------------------------------------------------
  // Properties of the whole routine.

  function SettingNames(out: seq<Setting>): seq<Name> {
    seq(|out|, k requires 0 <= k < |out| => out[k].name)
  }

  /** The names `get` is expected to return: the merged declared names, in
      order, without the config option unless it is kept. */
  function ResultNames(inopts: seq<Group>, configFileOpt: Option<Name>, keepConfigFile: bool): seq<Name> {
    var declared := Names(Merge(inopts));
    if configFileOpt.Some? && !keepConfigFile then Without(declared, configFileOpt.value) else declared
  }

  /** The command-line values, from the parser's block invocations. */
  function Calls(inopts: seq<Group>, argv: seq<string>, parse: Parser): seq<Callback> {
    match parse(FlagSpecs(Merge(inopts)), argv)
    case ParseFailed(_) => []
    case Parsed(calls) => calls
  }

  /** The config pairs that reach the table. */
  function ConfigPairs(inopts: seq<Group>, configFileOpt: Option<Name>, argv: seq<string>,
                       parse: Parser, load: Loader): seq<ConfigPair>
  {
    match configFileOpt
    case None => []
    case Some(cfg) => LoadedPairs(RecordAll(Merge(inopts), Calls(inopts, argv, parse)), cfg, load)
  }

  /** The slots of declared option `n` once the parser has run: the default of
      its last declaration and the value of the last occurrence of its flag. */
  function ParsedSlots(inopts: seq<Group>, argv: seq<string>, parse: Parser, n: Name): Slots
    requires n in Names(Merge(inopts))
  {
    MergeOrder(inopts);
    var i := IndexIn(Names(Merge(inopts)), n).value;
    Fresh(LastDefault(Flatten(inopts), n)).(cmdline := LastCall(Calls(inopts, argv, parse), i))
  }

  /** The table after parsing: the merged names, each option with its parsed slots. */
  lemma ParsedTable(inopts: seq<Group>, argv: seq<string>, parse: Parser, n: Name)
    ensures var parsed := RecordAll(Merge(inopts), Calls(inopts, argv, parse));
      && Names(parsed) == Names(Merge(inopts))
      && Distinct(Names(parsed))
      && (n in Names(Merge(inopts)) ==> Find(parsed, n) == Some(ParsedSlots(inopts, argv, parse, n)))
  {
    var declared := Merge(inopts);
    var calls := Calls(inopts, argv, parse);
    var parsed := RecordAll(declared, calls);
    MergeOrder(inopts);
    RecordAllEffect(declared, calls);
    assert Names(parsed) == Names(declared);
    if n in Names(declared) {
      MergeDefaults(inopts, n);
      var i := IndexIn(Names(declared), n).value;
      assert declared[i].slots == Fresh(LastDefault(Flatten(inopts), n));
      assert Find(parsed, n) == Some(parsed[i].slots);
      var declaredSlots := Fresh(LastDefault(Flatten(inopts), n));
      assert parsed[i].slots == declaredSlots.(cmdline := LastCall(calls, i)) by {
        match LastCall(calls, i)
        case None =>
        case Some(v) =>
      }
      assert ParsedSlots(inopts, argv, parse, n) == declaredSlots.(cmdline := LastCall(calls, i));
    }
  }

  /** The table reaching the resolution loop holds exactly the expected names,
      and each option in it carries what the three sources gave it: the last
      command-line value for its flag, the last config value for its name and
      the default of its last declaration. */
  lemma PreparedTable(inopts: seq<Group>, configFileOpt: Option<Name>, keepConfigFile: bool,
                      argv: seq<string>, parse: Parser, load: Loader, n: Name)
    requires Prepared(inopts, configFileOpt, keepConfigFile, argv, parse, load).Ok?
    ensures var t := Prepared(inopts, configFileOpt, keepConfigFile, argv, parse, load).value;
      && Names(t) == ResultNames(inopts, configFileOpt, keepConfigFile)
      && Distinct(Names(t))
      && (n in Names(t) ==>
            && n in Names(Merge(inopts))
            && Find(t, n) == Some(WithConf(ParsedSlots(inopts, argv, parse, n),
                                           LastConf(ConfigPairs(inopts, configFileOpt, argv, parse, load), n))))
  {
    var parsed := RecordAll(Merge(inopts), Calls(inopts, argv, parse));
    ParsedTable(inopts, argv, parse, n);
    if configFileOpt.Some? {
      var cfg := configFileOpt.value;
      OverlayNames(parsed, cfg, keepConfigFile, load);
      OverlayFind(parsed, cfg, keepConfigFile, load, n);
    }
  }

  /** `get` returns the merged declared names in declaration order, without the
      config option unless `keep_config_file` is set; config keys add none. */
  lemma GetNames(inopts: seq<Group>, configFileOpt: Option<Name>, keepConfigFile: bool,
                 argv: seq<string>, parse: Parser, load: Loader)
    requires Outcome(inopts, configFileOpt, keepConfigFile, argv, parse, load).Ok?
    ensures var out := Outcome(inopts, configFileOpt, keepConfigFile, argv, parse, load).value;
      && SettingNames(out) == ResultNames(inopts, configFileOpt, keepConfigFile)
      && (configFileOpt.Some? && !keepConfigFile ==> configFileOpt.value !in SettingNames(out))
  {
    var t := Prepared(inopts, configFileOpt, keepConfigFile, argv, parse, load).value;
    PreparedTable(inopts, configFileOpt, keepConfigFile, argv, parse, load, "");
    ResolveOk(t);
    var out := Resolve(t).value;
    assert SettingNames(out) == Names(t);
  }

  /** Precedence for the whole routine: a command-line value beats the config
      file, which beats the default; the empty string comes out as nil. */
  lemma GetPrecedence(inopts: seq<Group>, configFileOpt: Option<Name>, keepConfigFile: bool,
                      argv: seq<string>, parse: Parser, load: Loader, k: nat)
    requires Outcome(inopts, configFileOpt, keepConfigFile, argv, parse, load).Ok?
    requires k < |Outcome(inopts, configFileOpt, keepConfigFile, argv, parse, load).value|
    ensures var s := Outcome(inopts, configFileOpt, keepConfigFile, argv, parse, load).value[k];
      var i := IndexIn(Names(Merge(inopts)), s.name);
      var cmd := if i.Some? then LastCall(Calls(inopts, argv, parse), i.value) else None;
      var conf := LastConf(ConfigPairs(inopts, configFileOpt, argv, parse, load), s.name);
      && i.Some?
      && s.name in DeclNames(Flatten(inopts))
      && (Present(cmd) ==> s.value == Finalize(cmd.value))
      && (!Present(cmd) && Present(conf) ==> s.value == Finalize(conf.value))
      && (!Present(cmd) && !Present(conf) ==> s.value == Finalize(LastDefault(Flatten(inopts), s.name)))
  {
    var t := Prepared(inopts, configFileOpt, keepConfigFile, argv, parse, load).value;
    ResolveOk(t);
    var out := Resolve(t).value;
    var n := out[k].name;
    PreparedTable(inopts, configFileOpt, keepConfigFile, argv, parse, load, n);
    assert Names(t)[k] == n;
    FindEntry(t, n);
    MergeOrder(inopts);
    assert n in Names(Merge(inopts)) by {
      if configFileOpt.Some? && !keepConfigFile {
        assert n in Without(Names(Merge(inopts)), configFileOpt.value);
      }
    }
    Precedence(t[k].slots);
  }

  /** An option that only a type marker ever described makes `get` stop with
      `missing value for --<name>`, unless an earlier option stopped it first. */
  lemma GetMissingValue(inopts: seq<Group>, configFileOpt: Option<Name>, keepConfigFile: bool,
                        argv: seq<string>, parse: Parser, load: Loader, k: nat)
    requires Prepared(inopts, configFileOpt, keepConfigFile, argv, parse, load).Ok?
    requires var t := Prepared(inopts, configFileOpt, keepConfigFile, argv, parse, load).value;
      && k < |t| && Unresolved(t, k) && forall j :: 0 <= j < k ==> !Unresolved(t, j)
    ensures var t := Prepared(inopts, configFileOpt, keepConfigFile, argv, parse, load).value;
      && Outcome(inopts, configFileOpt, keepConfigFile, argv, parse, load) == Fail(MissingValue(t[k].name))
      && Message(Outcome(inopts, configFileOpt, keepConfigFile, argv, parse, load).failure)
         == MissingPrefix + t[k].name
  {
    ResolveMissing(Prepared(inopts, configFileOpt, keepConfigFile, argv, parse, load).value, k);
  }
}
