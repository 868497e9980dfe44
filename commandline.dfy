/** The effect of `OptionParser#parse!` on the working table (simpleopts.rb:31,33).
    The tokenizer itself is not modelled: it is a parameter that, given the
    registered argument lists and argv, reports which registered blocks it
    invoked with which values, or the exception it raised. */
module CommandLine {
  import opened RubyValues
  import opened OptionTable

  /** One invocation of a block registered with `op.on`: the block of the option
      at position `option` of the table, handed the already converted `value`. */
  datatype Callback = Callback(option: nat, value: Value)

  /** What `parse!` did: the block invocations in order, or the exception it raised. */
  datatype ParseOutcome = Parsed(calls: seq<Callback>) | ParseFailed(message: string)

  /** The block `{ |v| opts[o][:cmdline] = v }` of the option at `c.option`:
      it sets that option's `:cmdline` slot and touches nothing else. */
  function Record(t: Table, c: Callback): (r: Table)
    ensures |r| == |t| && Names(r) == Names(t)
    ensures forall k :: 0 <= k < |t| && k != c.option ==> r[k] == t[k]
    ensures c.option < |t| ==> r[c.option].slots == t[c.option].slots.(cmdline := Some(c.value))
  {
    if c.option < |t| then SetSlots(t, c.option, t[c.option].slots.(cmdline := Some(c.value)))
    else t
  }

  /** The table after the blocks have run in the order `parse!` invoked them. */
  function RecordAll(t: Table, calls: seq<Callback>): Table
    decreases |calls|
  {
    if calls == [] then t
    else Record(RecordAll(t, calls[..|calls| - 1]), calls[|calls| - 1])
  }

  /** Runs the block invocations one after the other. */
  method RecordCommandLine(opts: Table, calls: seq<Callback>) returns (r: Table)
    ensures r == RecordAll(opts, calls)
  {
    r := opts;
    var i := 0;
    while i < |calls|
      invariant 0 <= i <= |calls|
      invariant r == RecordAll(opts, calls[..i])
    {
      var c := calls[i];
      if c.option < |r| {
        r := r[c.option := Entry(r[c.option].name, r[c.option].slots.(cmdline := Some(c.value)))];
      }
      assert calls[..i + 1][..i] == calls[..i];
      i := i + 1;
    }
    assert calls[..|calls|] == calls;
  }

  /** The value of the last invocation of the block of option `k`, if it ran at all. */
  function LastCall(calls: seq<Callback>, k: nat): Option<Value>
    decreases |calls|
  {
    if calls == [] then None
    else if calls[|calls| - 1].option == k then Some(calls[|calls| - 1].value)
    else LastCall(calls[..|calls| - 1], k)
  }

  /** Parsing keeps every option in place and touches only `:cmdline` slots: the
      slot of an option holds the value of the last occurrence of its flag, and
      options whose flag did not occur keep their slots. */
  lemma {:induction false} RecordAllEffect(t: Table, calls: seq<Callback>)
    ensures |RecordAll(t, calls)| == |t|
    ensures Names(RecordAll(t, calls)) == Names(t)
    ensures forall k :: 0 <= k < |t| ==>
      RecordAll(t, calls)[k].slots
        == (match LastCall(calls, k)
            case Some(v) => t[k].slots.(cmdline := Some(v))
            case None => t[k].slots)
    decreases |calls|
  {
    if calls != [] {
      RecordAllEffect(t, calls[..|calls| - 1]);
    }
  }
}
