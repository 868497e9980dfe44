/** Precedence resolution (simpleopts.rb:44-52): every option of the table is
    reduced to one value, the first non-nil of its command-line, config and
    default slots; a type marker left over is a missing value, which prints
    `missing value for --<name>` and exits, and the empty string becomes nil. */
module Resolution {
  import opened RubyValues
  import opened OptionTable

  /** One `name => value` pair of the hash `get` returns. */
  datatype Setting = Setting(name: Name, value: Value)

  /** Why `get` did not return: the option whose value is missing (reported
      with `puts` and `exit 1`), or an exception of one of the foreign calls. */
  datatype Failure = MissingValue(name: Name) | ParseError(message: string) | LoadError(message: string)

  datatype Result<T> = Ok(value: T) | Fail(failure: Failure)

  /** What `get` prints before the name of an option whose value is missing. */
  const MissingPrefix := "missing value for --"

  /** The line `get` prints before exiting, or the exception's message.  The
      name of the missing option is what follows the fixed prefix. */
  function Message(f: Failure): (r: string)
    ensures f.MissingValue? ==> |r| == |MissingPrefix| + |f.name|
    ensures f.MissingValue? ==> r[..|MissingPrefix|] == MissingPrefix && r[|MissingPrefix|..] == f.name
    ensures !f.MissingValue? ==> r == f.message
  {
    match f
    case MissingValue(o) => MissingPrefix + o
    case ParseError(m) => m
    case LoadError(m) => m
  }

  /** `w.values_at(:cmdline, :conf, :default).compact.first` */
  function Pick(s: Slots): (r: Value)
    ensures r == Nil <==> !Present(s.cmdline) && !Present(s.conf) && s.default == Nil
    ensures r == s.default || (Present(s.cmdline) && r == s.cmdline.value) || (Present(s.conf) && r == s.conf.value)
  {
    var slots := [s.cmdline, s.conf, Some(s.default)];
    assert slots[0] == s.cmdline && slots[1] == s.conf && slots[2] == Some(s.default);
    FirstNonNil(slots)
  }

  /** A command-line value beats a config value, which beats the default;
      `false` is a value like any other and only nil is skipped. */
  lemma Precedence(s: Slots)
    ensures Present(s.cmdline) ==> Pick(s) == s.cmdline.value
    ensures !Present(s.cmdline) && Present(s.conf) ==> Pick(s) == s.conf.value
    ensures !Present(s.cmdline) && !Present(s.conf) ==> Pick(s) == s.default
    ensures s.cmdline == Some(Bool(false)) ==> Pick(s) == Bool(false)
  {
    var slots := [s.cmdline, s.conf, Some(s.default)];
    assert slots[0] == s.cmdline && slots[1] == s.conf && slots[2] == Some(s.default);
  }

  /** `v == "" and v = nil` */
  function Finalize(v: Value): (r: Value)
    ensures r == Nil <==> v == Nil || v == Str("")
    ensures v != Str("") ==> r == v
  {
    if v == Str("") then Nil else v
  }

  /** The outcome of the resolution loop over `t`, option after option: one
      setting per option, or a missing value, the loop's only failure. */
  function Resolve(t: Table): (r: Result<seq<Setting>>)
    ensures r.Ok? ==> |r.value| == |t|
    ensures r.Fail? ==> r.failure.MissingValue?
    decreases |t|
  {
    if t == [] then Ok([])
    else match Resolve(t[..|t| - 1])
      case Fail(f) => Fail(f)
      case Ok(done) =>
        var e := t[|t| - 1];
        var v := Pick(e.slots);
        if IsMarker(v) then Fail(MissingValue(e.name))
        else Ok(done + [Setting(e.name, Finalize(v))])
  }

  /** Once an option has failed, the options after it are never looked at. */
  lemma {:induction false} ResolveStopsAtFailure(t: Table, i: nat)
    requires i <= |t| && Resolve(t[..i]).Fail?
    ensures Resolve(t) == Resolve(t[..i])
    decreases |t| - i
  {
    if i < |t| {
      assert t[..i + 1][..i] == t[..i];
      ResolveStopsAtFailure(t, i + 1);
    } else {
      assert t[..i] == t;
    }
  }

  /** The resolution loop of simpleopts.rb:44-52. */
  method ResolveAll(opts: Table) returns (r: Result<seq<Setting>>)
    ensures r == Resolve(opts)
  {
    var done: seq<Setting> := [];
    var i := 0;
    while i < |opts|
      invariant 0 <= i <= |opts|
      invariant Resolve(opts[..i]) == Ok(done)
    {
      var o := opts[i].name;
      var v := Pick(opts[i].slots);
      assert opts[..i + 1][..i] == opts[..i];
      if IsMarker(v) {
        ResolveStopsAtFailure(opts, i + 1);
        return Fail(MissingValue(o));
      }
      if v == Str("") {
        v := Nil;
      }
      done := done + [Setting(o, v)];
      i := i + 1;
    }
    assert opts[..|opts|] == opts;
    r := Ok(done);
  }

  /** Whether the option at `k` is left with only a type marker. */
  predicate Unresolved(t: Table, k: nat)
    requires k < |t|
  {
    IsMarker(Pick(t[k].slots))
  }

  /** Resolution succeeds exactly when no option is left with a type marker; the
      result then holds every option, in table order, with its picked value
      (the empty string turned into nil), and no value is a type marker. */
  lemma {:induction false} ResolveOk(t: Table)
    ensures Resolve(t).Ok? <==> forall k :: 0 <= k < |t| ==> !Unresolved(t, k)
    ensures Resolve(t).Ok? ==>
      var out := Resolve(t).value;
      && |out| == |t|
      && (forall k :: 0 <= k < |t| ==> out[k] == Setting(t[k].name, Finalize(Pick(t[k].slots))))
      && (forall k :: 0 <= k < |t| ==> !IsMarker(out[k].value) && out[k].value != Str(""))
    decreases |t|
  {
    if t != [] {
      var front := t[..|t| - 1];
      ResolveOk(front);
      assert forall k :: 0 <= k < |front| ==> front[k] == t[k] && (Unresolved(front, k) <==> Unresolved(t, k));
      if Resolve(front).Fail? {
        var k :| 0 <= k < |front| && Unresolved(front, k);
        assert Unresolved(t, k);
      } else if Unresolved(t, |t| - 1) {
        assert Resolve(t).Fail?;
      }
    }
  }

  /** Resolution fails exactly with the name of the FIRST option left with a type
      marker, written as declared (underscores not turned into hyphens). */
  lemma {:induction false} ResolveMissing(t: Table, k: nat)
    requires k < |t| && Unresolved(t, k)
    requires forall j :: 0 <= j < k ==> !Unresolved(t, j)
    ensures Resolve(t) == Fail(MissingValue(t[k].name))
    ensures Message(Resolve(t).failure) == MissingPrefix + t[k].name
  {
    var prefix := t[..k];
    assert forall j :: 0 <= j < k ==> prefix[j] == t[j] && (Unresolved(prefix, j) <==> Unresolved(t, j));
    ResolveOk(prefix);
    assert t[..k + 1][..k] == prefix;
    assert t[..k + 1][k] == t[k];
    assert Resolve(t[..k + 1]) == Fail(MissingValue(t[k].name));
    ResolveStopsAtFailure(t, k + 1);
  }
}
