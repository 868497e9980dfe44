/** Flag-spec derivation (simpleopts.rb:14-32): for every option of the
    working table, the argument list handed to `OptionParser#on`. */
module Switches {
  import opened RubyValues
  import opened OptionTable

  /** One argument of an `op.on(...)` call: a string or a class. */
  datatype OnArg = Text(s: string) | Type(cls: ClassName)

  /** `fixer`: maps Fixnum to Integer, the class OptionParser accepts for it,
      and leaves every other class alone. */
  function Fixer(k: ClassName): (r: ClassName)
    ensures r != "Fixnum"
    ensures k != "Fixnum" ==> r == k
    ensures r == k || r == "Integer"
  {
    if k == "Fixnum" then "Integer" else k
  }

  /** `"-#{o[0]}"`; the first character of an empty name is nil, which prints as nothing. */
  function ShortFlag(o: Name): (r: string)
    ensures |r| == if o == "" then 1 else 2
    ensures r[0] == '-'
    ensures o != "" ==> r[1] == o[0]
  {
    "-" + (if o == "" then "" else [o[0]])
  }

  /** `s.gsub "_", "-"` */
  function Hyphenate(s: string): (r: string)
    ensures |r| == |s|
    ensures forall k :: 0 <= k < |s| ==> r[k] == if s[k] == '_' then '-' else s[k]
    ensures '_' !in r
  {
    if s == [] then []
    else [if s[0] == '_' then '-' else s[0]] + Hyphenate(s[1..])
  }

  /** `"--#{o.to_s.gsub "_", "-"}=VAL"` */
  function LongFlag(o: Name): (r: string)
    ensures |r| == |o| + 6
    ensures r[..2] == "--" && r[|r| - 4..] == "=VAL"
    ensures r[2..|r| - 4] == Hyphenate(o)
  {
    "--" + Hyphenate(o) + "=VAL"
  }

  /** `optargs` of simpleopts.rb:24-30: the short and the long flag, then a
      class OptionParser accepts (never Fixnum), then, for a concrete default
      only, the default's `to_s` as the fourth argument, meant as help text.  A type marker registers its own
      class; a concrete default registers the class of the default. */
  function OptArgs(o: Name, defval: Value): (a: seq<OnArg>)
    ensures |a| == (if IsMarker(defval) then 3 else 4)
    ensures a[0] == Text(ShortFlag(o)) && a[1] == Text(LongFlag(o))
    ensures a[2].Type? && a[2].cls != "Fixnum"
    ensures IsMarker(defval) ==> a[2] == Type(Fixer(defval.cls))
    ensures !IsMarker(defval) ==> a[2] == Type(Fixer(ClassOf(defval))) && a[3] == Text(ToS(defval))
    ensures defval.Int? ==> a[2] == Type("Integer") && a[3] == Text(IntToString(defval.i))
  {
    [Text(ShortFlag(o)), Text(LongFlag(o))]
    + (if IsMarker(defval) then [Type(Fixer(defval.cls))]
       else [Type(Fixer(ClassOf(defval))), Text(ToS(defval))])
  }

  /** The registration loop of simpleopts.rb:16-32: one `op.on` argument list per
      option, in table order; position `k` belongs to the option at position `k`. */
  method DefineSwitches(opts: Table) returns (switches: seq<seq<OnArg>>)
    ensures |switches| == |opts|
    ensures forall k :: 0 <= k < |opts| ==> switches[k] == OptArgs(opts[k].name, opts[k].slots.default)
  {
    switches := [];
    var i := 0;
    while i < |opts|
      invariant 0 <= i <= |opts|
      invariant |switches| == i
      invariant forall k :: 0 <= k < i ==> switches[k] == OptArgs(opts[k].name, opts[k].slots.default)
    {
      var defval := opts[i].slots.default;
      switches := switches + [OptArgs(opts[i].name, defval)];
      i := i + 1;
    }
  }
}
