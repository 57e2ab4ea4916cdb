/** The Python values expressions compute with, and the operators both evaluators apply to them.
    `None` as a result means that Python raises. */
module PythonValues {
  import opened Wrappers
  import opened Order

  datatype Kind = ListKind | TupleKind | SetKind | FrozenKind

  /** A collection lists its elements in iteration order; those of a set are pairwise unequal. */
  datatype Value =
    | Bool(b: bool)
    | Int(i: int)
    | Str(s: string)
    | Null
    | Coll(kind: Kind, items: seq<Value>)

  predicate IsSet(k: Kind) {
    k.SetKind? || k.FrozenKind?
  }

  /** Booleans are integers. */
  function Number(v: Value): Option<int> {
    match v
    case Bool(b) => Some(if b then 1 else 0)
    case Int(i) => Some(i)
    case _ => None
  }

  /** `==` */
  predicate Equal(a: Value, b: Value)
    decreases a, 0
  {
    if Number(a).Some? || Number(b).Some? then Number(a) == Number(b)
    else if a.Coll? && b.Coll? then
      if IsSet(a.kind) && IsSet(b.kind) then
        |a.items| == |b.items| && forall i :: 0 <= i < |a.items| ==> Among(a.items[i], b.items)
      else
        a.kind == b.kind && |a.items| == |b.items| && forall i :: 0 <= i < |a.items| ==> Equal(a.items[i], b.items[i])
    else a == b
  }

  predicate Among(v: Value, items: seq<Value>)
    decreases v, 1
  {
    exists j :: 0 <= j < |items| && Equal(v, items[j])
  }

  /** `bool(v)` */
  predicate Truth(v: Value) {
    match v
    case Bool(b) => b
    case Int(i) => i != 0
    case Str(s) => s != ""
    case Null => false
    case Coll(_, items) => items != []
  }

  predicate Hashable(v: Value) {
    match v
    case Coll(k, items) => k.FrozenKind? || (k.TupleKind? && forall i :: 0 <= i < |items| ==> Hashable(items[i]))
    case _ => true
  }

  predicate Holds(items: seq<Value>, v: Value) {
    exists i :: 0 <= i < |items| && Equal(items[i], v)
  }

  /** The elements of `items` without those equal to an earlier one. */
  function Distinct(items: seq<Value>): seq<Value> {
    if items == [] then []
    else
      var init, last := Distinct(items[..|items| - 1]), items[|items| - 1];
      if Holds(init, last) then init else init + [last]
  }

  /** `set(items)` or `frozenset(items)` */
  function MakeSet(k: Kind, items: seq<Value>): Option<Value>
    requires IsSet(k)
  {
    if forall i :: 0 <= i < |items| ==> Hashable(items[i]) then Some(Coll(k, Distinct(items))) else None
  }

  /** `a < b`, on numbers and strings. */
  function Less(a: Value, b: Value): Option<bool> {
    if Number(a).Some? && Number(b).Some? then Some(Number(a).value < Number(b).value)
    else if a.Str? && b.Str? then Some(NameLess(a.s, b.s))
    else None
  }

  predicate Substring(a: string, b: string) {
    exists i :: 0 <= i <= |b| && OccursAt(a, b, i)
  }

  predicate OccursAt(a: string, b: string, i: nat) {
    i + |a| <= |b| && b[i..i + |a|] == a
  }

  /** `a in b` */
  function Member(a: Value, b: Value): Option<bool> {
    match b
    case Coll(k, items) => if IsSet(k) && !Hashable(a) && !(a.Coll? && a.kind.SetKind?) then None else Some(Holds(items, a))
    case Str(s) => if a.Str? then Some(Substring(a.s, s)) else None
    case _ => None
  }

  /** `a + b` */
  function Add(a: Value, b: Value): Option<Value> {
    if Number(a).Some? && Number(b).Some? then Some(Int(Number(a).value + Number(b).value))
    else if a.Str? && b.Str? then Some(Str(a.s + b.s))
    else if a.Coll? && b.Coll? && a.kind == b.kind && !IsSet(a.kind) then Some(Coll(a.kind, a.items + b.items))
    else None
  }

  /** `a - b` on numbers. */
  function Subtract(a: Value, b: Value): Option<Value> {
    if Number(a).Some? && Number(b).Some? then Some(Int(Number(a).value - Number(b).value)) else None
  }

  /** `a * b` on numbers. */
  function Multiply(a: Value, b: Value): Option<Value> {
    if Number(a).Some? && Number(b).Some? then Some(Int(Number(a).value * Number(b).value)) else None
  }

  // ----- aggregates -----

  function SumFrom(items: seq<Value>): Option<int> {
    if items == [] then Some(0)
    else
      var rest, last := SumFrom(items[..|items| - 1]), Number(items[|items| - 1]);
      if rest.Some? && last.Some? then Some(rest.value + last.value) else None
  }

  /** `min` or `max` over items compared by `<`; raises on an empty collection. */
  function Extreme(items: seq<Value>, least: bool): Option<Value> {
    if items == [] then None
    else if |items| == 1 then Some(items[0])
    else
      var rest, last := Extreme(items[..|items| - 1], least), items[|items| - 1];
      if rest.None? then None
      else
        var better := if least then Less(last, rest.value) else Less(rest.value, last);
        if better.None? then None else Some(if better.value then last else rest.value)
  }
}
