/** The Ruby values the option routine handles: declared defaults, the values
    the command-line parser hands to its callbacks and the values a config file
    yields.  Only the distinctions the routine looks at are kept: whether a
    value is nil, whether it is a class object (a type marker), whether it is
    the empty string, its class and its `to_s` rendering. */
module RubyValues {

  datatype Option<+T> = None | Some(value: T)

  /** The name of a Ruby class as `Class#to_s` renders it; never empty. */
  type ClassName = s: string | s != "" witness "Object"

  /** The class of an object that is none of the values the routine tells
      apart: not nil, a boolean, an integer, a string or a class object. */
  type OtherClass = s: string | s != "" && s !in {"NilClass", "TrueClass", "FalseClass", "Fixnum", "String", "Class"}
    witness "Object"

  datatype Value =
    | Nil
    | Bool(b: bool)
      /** An integer; its class is Fixnum in the Ruby versions the routine targets. */
    | Int(i: int)
    | Str(s: string)
      /** A class object used as a value, such as `Integer` in `{port: Integer}`. */
    | Marker(cls: ClassName)
      /** An object of any other class (Float, Symbol, Array, ...), with its `to_s` text. */
    | Obj(kind: OtherClass, text: string)

  /** `v.class`: each kind of value has its own class, so the class tells the
      kinds apart. */
  function ClassOf(v: Value): (r: ClassName)
    ensures r == "NilClass" <==> v.Nil?
    ensures (r == "TrueClass" || r == "FalseClass") <==> v.Bool?
    ensures r == "Fixnum" <==> v.Int?
    ensures r == "String" <==> v.Str?
    ensures r == "Class" <==> v.Marker?
    ensures v.Bool? ==> r == (if v.b then "TrueClass" else "FalseClass")
    ensures v.Obj? ==> r == v.kind
  {
    match v
    case Nil => "NilClass"
    case Bool(b) => if b then "TrueClass" else "FalseClass"
    case Int(_) => "Fixnum"
    case Str(_) => "String"
    case Marker(_) => "Class"
    case Obj(c, _) => c
  }

  /** `Class === v`: the value is a class object, i.e. a type marker. */
  predicate IsMarker(v: Value) {
    v.Marker?
  }

  /** A hash slot survives `compact` when it is set and not nil. */
  predicate Present(slot: Option<Value>) {
    slot.Some? && slot.value != Nil
  }

  /** `hash.values_at(k1, k2, ...).compact.first`, given the looked-up slots in order. */
  function FirstNonNil(slots: seq<Option<Value>>): (r: Value)
    ensures r == Nil <==> forall i :: 0 <= i < |slots| ==> !Present(slots[i])
    ensures forall i :: 0 <= i < |slots| && Present(slots[i]) && (forall j :: 0 <= j < i ==> !Present(slots[j])) ==> r == slots[i].value
  {
    if slots == [] then Nil
    else if Present(slots[0]) then slots[0].value
    else
      assert forall i :: 1 <= i < |slots| ==> slots[i] == slots[1..][i - 1];
      FirstNonNil(slots[1..])
  }

  /** The decimal digit character for `d`. */
  function DigitChar(d: nat): (c: char)
    requires d < 10
    ensures '0' <= c <= '9'
    ensures c as int - '0' as int == d
  {
    (('0' as int) + d) as char
  }

  /** The number a string of decimal digits denotes, most significant digit first. */
  function DigitsValue(s: string): int
    decreases |s|
  {
    if s == [] then 0
    else DigitsValue(s[..|s| - 1]) * 10 + (s[|s| - 1] as int - '0' as int)
  }

  /** The number a decimal integer literal denotes, with an optional leading minus sign. */
  function IntValue(s: string): int {
    if s != [] && s[0] == '-' then -DigitsValue(s[1..]) else DigitsValue(s)
  }

  /** `Integer#to_s` on a non-negative integer: the decimal digits of `n`,
      without leading zeros. */
  function NatToString(n: nat): (r: string)
    ensures |r| > 0
    ensures forall k :: 0 <= k < |r| ==> '0' <= r[k] <= '9'
    ensures DigitsValue(r) == n
    ensures r[0] != '0' || r == "0"
    decreases n
  {
    var front := if n < 10 then "" else NatToString(n / 10);
    var r := front + [DigitChar(n % 10)];
    assert r[..|r| - 1] == front;
    r
  }

  /** `Integer#to_s`: a minus sign before the digits of a negative integer. */
  function IntToString(i: int): (r: string)
    ensures |r| > 0
    ensures r[0] == '-' <==> i < 0
    ensures IntValue(r) == i
    ensures i >= 0 ==> r == NatToString(i)
    ensures i < 0 ==> r == "-" + NatToString(-i)
  {
    if i < 0 then
      var r := "-" + NatToString(-i);
      assert r[1..] == NatToString(-i);
      r
    else NatToString(i)
  }

  /** `to_s` on each kind of value: it prints as nothing exactly for nil, the
      empty string and an object with empty text, and an integer prints as its
      decimal literal. */
  function ToS(v: Value): (r: string)
    ensures r == "" <==> v == Nil || v == Str("") || (v.Obj? && v.text == "")
    ensures v.Int? ==> r == IntToString(v.i) && IntValue(r) == v.i
  {
    match v
    case Nil => ""
    case Bool(b) => if b then "true" else "false"
    case Int(i) => IntToString(i)
    case Str(s) => s
    case Marker(c) => c
    case Obj(_, t) => t
  }
}
