/** AuditSpec-Expr-1.0: the typed expression AST, its validator and its evaluator. Function calls and record
    fields are not part of this model. */
module Expression {
  import opened Wrappers
  import Canonical
  import opened PythonValues

  datatype Type = Boolean | Integer | String | ListOf(item: Type) | SetOf(item: Type) | OptionalOf(item: Type)

  datatype Op =
    | Not | And | Or | Eq | Neq | Lt | Lte | Gt | Gte | In | Contains | IsNull | Coalesce | IfThenElse
    | AddOp | SubOp | MulOp | Count | SumOp | Min | Max | AllEqual

  datatype Node =
    | Literal(value: Value, valueType: Type)
    | Variable(name: string, valueType: Type)
    | Collection(isSet: bool, elementType: Type, elements: seq<Node>, valueType: Type)
    | Operator(op: Op, args: seq<Node>, valueType: Type)
    | Quantifier(universal: bool, name: string, bound: Type, domain: Node, body: Node, valueType: Type)

  // ----- types of values -----

  predicate HasType(v: Value, t: Type) {
    match t
    case Boolean => v.Bool?
    case Integer => v.Int?
    case String => v.Str?
    case ListOf(item) => v.Coll? && v.kind.ListKind? && forall i :: 0 <= i < |v.items| ==> HasType(v.items[i], item)
    case SetOf(item) => v.Coll? && v.kind.FrozenKind? && forall i :: 0 <= i < |v.items| ==> HasType(v.items[i], item)
    case OptionalOf(item) => v.Null? || HasType(v, item)
  }

  predicate IsCollection(t: Type) {
    t.ListOf? || t.SetOf?
  }

  type Scope = map<string, Type>

  type Env = map<string, Value>

  ghost predicate Fits(env: Env, scope: Scope) {
    forall x :: x in scope ==> x in env && HasType(env[x], scope[x])
  }

  // ----- validation -----

  function OperatorType(op: Op, args: seq<Type>): Option<Type> {
    match op
    case Not => if args == [Boolean] then Some(Boolean) else None
    case And => if |args| >= 1 && (forall i :: 0 <= i < |args| ==> args[i] == Boolean) then Some(Boolean) else None
    case Or => if |args| >= 1 && (forall i :: 0 <= i < |args| ==> args[i] == Boolean) then Some(Boolean) else None
    case Eq => if |args| == 2 && args[0] == args[1] then Some(Boolean) else None
    case Neq => if |args| == 2 && args[0] == args[1] then Some(Boolean) else None
    case Lt => OrderingType(args)
    case Lte => OrderingType(args)
    case Gt => OrderingType(args)
    case Gte => OrderingType(args)
    case In => if |args| == 2 && IsCollection(args[1]) && args[1].item == args[0] then Some(Boolean) else None
    case Contains => if |args| == 2 && IsCollection(args[0]) && args[0].item == args[1] then Some(Boolean) else None
    case IsNull => if |args| == 1 && args[0].OptionalOf? then Some(Boolean) else None
    case Coalesce => if |args| == 2 && args[0].OptionalOf? && args[0].item == args[1] then Some(args[1]) else None
    case IfThenElse => if |args| == 3 && args[0] == Boolean && args[1] == args[2] then Some(args[1]) else None
    case AddOp => ArithmeticType(args)
    case SubOp => ArithmeticType(args)
    case MulOp => ArithmeticType(args)
    case Count => if |args| == 1 && IsCollection(args[0]) then Some(Integer) else None
    case SumOp => AggregateType(args)
    case Min => AggregateType(args)
    case Max => AggregateType(args)
    case AllEqual => if |args| == 1 && IsCollection(args[0]) then Some(Boolean) else None
  }

  function OrderingType(args: seq<Type>): Option<Type> {
    if |args| == 2 && args[0] == args[1] && (args[0].Integer? || args[0].String?) then Some(Boolean) else None
  }

  function ArithmeticType(args: seq<Type>): Option<Type> {
    if args == [Integer, Integer] then Some(Integer) else None
  }

  function AggregateType(args: seq<Type>): Option<Type> {
    if |args| == 1 && IsCollection(args[0]) && args[0].item.Integer? then Some(Integer) else None
  }

  /** The elements of a set node are sorted and unique by their canonical text. */
  predicate SortedUnique(elements: seq<Node>, text: Node -> Canonical.Text) {
    forall i, j :: 0 <= i < j < |elements| ==> Canonical.TextLess(text(elements[i]), text(elements[j]))
  }

  /** The validator's verdict on a node: its type, or refusal. `text` gives a node's canonical text. */
  function TypeOf(n: Node, scope: Scope, text: Node -> Canonical.Text): Option<Type>
    decreases n, 0
  {
    match n
    case Literal(value, t) => if HasType(value, t) then Some(t) else None
    case Variable(name, t) => if name in scope && scope[name] == t then Some(t) else None
    case Collection(isSet, elementType, elements, t) =>
      var expected := if isSet then SetOf(elementType) else ListOf(elementType);
      var types := TypesOf(elements, scope, text);
      if t == expected && types.Some? && (forall i :: 0 <= i < |types.value| ==> types.value[i] == elementType)
         && (isSet ==> SortedUnique(elements, text))
      then Some(expected) else None
    case Operator(op, args, t) =>
      var types := TypesOf(args, scope, text);
      if args != [] && types.Some? && OperatorType(op, types.value) == Some(t) then Some(t) else None
    case Quantifier(_, name, bound, domain, body, t) =>
      var over := TypeOf(domain, scope, text);
      if over.Some? && IsCollection(over.value) && over.value.item == bound && t == Boolean
         && TypeOf(body, scope[name := bound], text) == Some(Boolean)
      then Some(Boolean) else None
  }

  function TypesOf(ns: seq<Node>, scope: Scope, text: Node -> Canonical.Text): (r: Option<seq<Type>>)
    ensures r.Some? ==> |r.value| == |ns|
    decreases ns, 1
  {
    if ns == [] then Some([])
    else
      var init, last := TypesOf(ns[..|ns| - 1], scope, text), TypeOf(ns[|ns| - 1], scope, text);
      if init.Some? && last.Some? then Some(init.value + [last.value]) else None
  }

  function Nodes(n: Node): nat
    decreases n, 0
  {
    match n
    case Collection(_, _, elements, _) => 1 + NodesIn(elements)
    case Operator(_, args, _) => 1 + NodesIn(args)
    case Quantifier(_, _, _, domain, body, _) => 1 + Nodes(domain) + Nodes(body)
    case _ => 1
  }

  function NodesIn(ns: seq<Node>): nat
    decreases ns, 1
  {
    if ns == [] then 0 else NodesIn(ns[..|ns| - 1]) + Nodes(ns[|ns| - 1])
  }

  /** `_validate_node`: the type of a node and the number of nodes below it, or refusal. */
  method ValidateNode(n: Node, scope: Scope, text: Node -> Canonical.Text) returns (r: Option<(Type, nat)>)
    ensures r == if TypeOf(n, scope, text).Some? then Some((TypeOf(n, scope, text).value, Nodes(n))) else None
    decreases n, 0
  {
    match n
    case Literal(value, t) => r := if HasType(value, t) then Some((t, 1)) else None;
    case Variable(name, t) => r := if name in scope && scope[name] == t then Some((t, 1)) else None;
    case Collection(isSet, elementType, elements, t) =>
      var children := ValidateChildren(elements, scope, text);
      if children.None? || (exists i :: 0 <= i < |children.value.0| && children.value.0[i] != elementType) {
        return None;
      }
      var expected := if isSet then SetOf(elementType) else ListOf(elementType);
      r := if t == expected && (isSet ==> SortedUnique(elements, text)) then Some((expected, 1 + children.value.1)) else None;
    case Operator(op, args, t) =>
      if args == [] {
        return None;
      }
      var children := ValidateChildren(args, scope, text);
      if children.None? || OperatorType(op, children.value.0) != Some(t) {
        return None;
      }
      r := Some((t, 1 + children.value.1));
    case Quantifier(_, name, bound, domain, body, t) =>
      var over := ValidateNode(domain, scope, text);
      if over.None? || !IsCollection(over.value.0) || over.value.0.item != bound {
        return None;
      }
      var answer := ValidateNode(body, scope[name := bound], text);
      r := if answer.Some? && answer.value.0 == Boolean && t == Boolean then Some((Boolean, 1 + over.value.1 + answer.value.1)) else None;
  }

  method ValidateChildren(ns: seq<Node>, scope: Scope, text: Node -> Canonical.Text) returns (r: Option<(seq<Type>, nat)>)
    ensures r == if TypesOf(ns, scope, text).Some? then Some((TypesOf(ns, scope, text).value, NodesIn(ns))) else None
    decreases ns, 1
  {
    var types: seq<Type>, count: nat := [], 0;
    for i := 0 to |ns|
      invariant TypesOf(ns[..i], scope, text) == Some(types) && count == NodesIn(ns[..i])
    {
      assert ns[..i + 1][..|ns[..i + 1]| - 1] == ns[..i];
      var child := ValidateNode(ns[i], scope, text);
      if child.None? {
        PrefixRefused(ns, i + 1, scope, text);
        return None;
      }
      types, count := types + [child.value.0], count + child.value.1;
    }
    assert ns[..|ns|] == ns;
    r := Some((types, count));
  }

  lemma {:induction false} PrefixRefused(ns: seq<Node>, i: nat, scope: Scope, text: Node -> Canonical.Text)
    requires i <= |ns| && TypesOf(ns[..i], scope, text).None?
    ensures TypesOf(ns, scope, text).None?
    decreases |ns|
  {
    if i < |ns| {
      assert ns[..|ns| - 1][..i] == ns[..i];
      PrefixRefused(ns[..|ns| - 1], i, scope, text);
    } else {
      assert ns[..i] == ns;
    }
  }

  // ----- evaluation -----

  /** One operator applied to evaluated arguments. */
  function Apply(op: Op, args: seq<Value>): Option<Value> {
    match op
    case Not => if |args| == 1 then Some(Bool(!Truth(args[0]))) else None
    case And => Some(Bool(forall i :: 0 <= i < |args| ==> Truth(args[i])))
    case Or => Some(Bool(exists i :: 0 <= i < |args| && Truth(args[i])))
    case Eq => if |args| == 2 then Some(Bool(Equal(args[0], args[1]))) else None
    case Neq => if |args| == 2 then Some(Bool(!Equal(args[0], args[1]))) else None
    case Lt => if |args| == 2 then Answer(Less(args[0], args[1])) else None
    case Lte => if |args| == 2 then Answer(Negated(Less(args[1], args[0]))) else None
    case Gt => if |args| == 2 then Answer(Less(args[1], args[0])) else None
    case Gte => if |args| == 2 then Answer(Negated(Less(args[0], args[1]))) else None
    case In => if |args| == 2 then Answer(Member(args[0], args[1])) else None
    case Contains => if |args| == 2 then Answer(Member(args[1], args[0])) else None
    case IsNull => if |args| == 1 then Some(Bool(args[0].Null?)) else None
    case Coalesce => if |args| == 2 then Some(if args[0].Null? then args[1] else args[0]) else None
    case IfThenElse => if |args| == 3 then Some(if Truth(args[0]) then args[1] else args[2]) else None
    case AddOp => if |args| == 2 then Add(args[0], args[1]) else None
    case SubOp => if |args| == 2 then Subtract(args[0], args[1]) else None
    case MulOp => if |args| == 2 then Multiply(args[0], args[1]) else None
    case Count => if |args| == 1 && args[0].Coll? then Some(Int(|args[0].items|)) else None
    case SumOp => if |args| == 1 && args[0].Coll? && SumFrom(args[0].items).Some? then Some(Int(SumFrom(args[0].items).value)) else None
    case Min => if |args| == 1 && args[0].Coll? then Extreme(args[0].items, true) else None
    case Max => if |args| == 1 && args[0].Coll? then Extreme(args[0].items, false) else None
    case AllEqual =>
      if |args| == 1 && args[0].Coll? && MakeSet(SetKind, args[0].items).Some?
      then Some(Bool(|MakeSet(SetKind, args[0].items).value.items| <= 1)) else None
  }

  function Answer(r: Option<bool>): Option<Value> {
    if r.Some? then Some(Bool(r.value)) else None
  }

  function Negated(r: Option<bool>): Option<bool> {
    if r.Some? then Some(!r.value) else None
  }

  /** `_evaluate_node`: every argument is evaluated, also the branch not taken. */
  function Evaluate(n: Node, env: Env): Option<Value>
    decreases n, 0, 0
  {
    match n
    case Literal(value, _) => Some(value)
    case Variable(name, _) => if name in env then Some(env[name]) else None
    case Collection(isSet, _, elements, _) =>
      var items := EvaluateAll(elements, env);
      if items.None? then None
      else if isSet then MakeSet(FrozenKind, items.value)
      else Some(Coll(ListKind, items.value))
    case Operator(op, args, _) =>
      var values := EvaluateAll(args, env);
      if values.None? then None else Apply(op, values.value)
    case Quantifier(all, name, _, domain, body, _) =>
      var over := Evaluate(domain, env);
      if over.None? || !over.value.Coll? then None
      else
        var answers := EvaluateEach(body, name, over.value.items, env);
        if answers.None? then None
        else Some(Bool(if all then forall i :: 0 <= i < |answers.value| ==> answers.value[i]
                       else exists i :: 0 <= i < |answers.value| && answers.value[i]))
  }

  function EvaluateAll(ns: seq<Node>, env: Env): (r: Option<seq<Value>>)
    ensures r.Some? ==> |r.value| == |ns|
    decreases ns, 1, 0
  {
    if ns == [] then Some([])
    else
      var init, last := EvaluateAll(ns[..|ns| - 1], env), Evaluate(ns[|ns| - 1], env);
      if init.Some? && last.Some? then Some(init.value + [last.value]) else None
  }

  /** The body's answers as the bound variable runs over the items. */
  function EvaluateEach(body: Node, name: string, items: seq<Value>, env: Env): (r: Option<seq<bool>>)
    ensures r.Some? ==> |r.value| == |items|
    decreases body, 1, |items|
  {
    if items == [] then Some([])
    else
      var init := EvaluateEach(body, name, items[..|items| - 1], env);
      var last := Evaluate(body, env[name := items[|items| - 1]]);
      if init.Some? && last.Some? then Some(init.value + [Truth(last.value)]) else None
  }

  // ----- type soundness -----

  /** Values of the type can be put in a set. */
  predicate HashableType(t: Type) {
    match t
    case ListOf(_) => false
    case OptionalOf(item) => HashableType(item)
    case _ => true
  }

  lemma {:induction false} TypedHashable(v: Value, t: Type)
    requires HasType(v, t) && HashableType(t)
    ensures Hashable(v)
  {
    if t.OptionalOf? && !v.Null? { TypedHashable(v, t.item); }
  }

  /** No set of unhashable elements can be meant. */
  predicate SoundType(t: Type) {
    match t
    case ListOf(item) => SoundType(item)
    case SetOf(item) => HashableType(item) && SoundType(item)
    case OptionalOf(item) => SoundType(item)
    case _ => true
  }

  /** Sets, also the one `all_equal` builds, have hashable elements. */
  predicate HashableSets(n: Node) {
    && SoundType(n.valueType)
    && match n
       case Collection(_, _, elements, _) => forall i :: 0 <= i < |elements| ==> HashableSets(elements[i])
       case Operator(op, args, _) =>
         && (forall i :: 0 <= i < |args| ==> HashableSets(args[i]))
         && (op.AllEqual? && |args| == 1 && IsCollection(args[0].valueType) ==> HashableType(args[0].valueType.item))
       case Quantifier(_, _, _, domain, body, _) => HashableSets(domain) && HashableSets(body)
       case _ => true
  }

  /** Evaluation reaches a `min` or `max` of an empty collection. */
  ghost predicate EmptyExtremum(n: Node, env: Env)
    decreases n, 0, 0
  {
    match n
    case Literal(_, _) => false
    case Variable(_, _) => false
    case Collection(_, _, elements, _) => EmptyExtremumAmong(elements, env)
    case Operator(op, args, _) =>
      EmptyExtremumAmong(args, env) || ((op.Min? || op.Max?) && |args| == 1 && EvaluatesEmpty(args[0], env))
    case Quantifier(_, name, _, domain, body, _) =>
      EmptyExtremum(domain, env)
      || (Evaluate(domain, env).Some? && Evaluate(domain, env).value.Coll?
          && EmptyExtremumEach(body, name, Evaluate(domain, env).value.items, env))
  }

  ghost predicate EvaluatesEmpty(n: Node, env: Env) {
    Evaluate(n, env).Some? && Evaluate(n, env).value.Coll? && Evaluate(n, env).value.items == []
  }

  ghost predicate EmptyExtremumAmong(ns: seq<Node>, env: Env)
    decreases ns, 1, 0
  {
    exists i :: 0 <= i < |ns| && EmptyExtremum(ns[i], env)
  }

  ghost predicate EmptyExtremumEach(body: Node, name: string, items: seq<Value>, env: Env)
    decreases body, 1, 0
  {
    exists i :: 0 <= i < |items| && EmptyExtremum(body, env[name := items[i]])
  }

  lemma {:induction false} SumTyped(items: seq<Value>)
    requires forall i :: 0 <= i < |items| ==> items[i].Int?
    ensures SumFrom(items).Some?
  {
    if items != [] { SumTyped(items[..|items| - 1]); }
  }

  lemma {:induction false} ExtremeTyped(items: seq<Value>, least: bool)
    requires forall i :: 0 <= i < |items| ==> items[i].Int?
    ensures Extreme(items, least).None? <==> items == []
    ensures Extreme(items, least).Some? ==> Extreme(items, least).value.Int?
  {
    if |items| > 1 { ExtremeTyped(items[..|items| - 1], least); }
  }

  lemma {:induction false} DistinctTyped(items: seq<Value>, t: Type)
    requires forall i :: 0 <= i < |items| ==> HasType(items[i], t)
    ensures forall i :: 0 <= i < |Distinct(items)| ==> HasType(Distinct(items)[i], t)
  {
    if items != [] { DistinctTyped(items[..|items| - 1], t); }
  }

  ghost predicate AllHaveTypes(values: seq<Value>, types: seq<Type>) {
    |values| == |types| && forall i :: 0 <= i < |types| ==> HasType(values[i], types[i])
  }

  lemma CollectionItems(v: Value, t: Type)
    requires HasType(v, t) && IsCollection(t)
    ensures v.Coll? && forall i :: 0 <= i < |v.items| ==> HasType(v.items[i], t.item)
  {
  }

  lemma MemberSound(a: Value, c: Value, t: Type)
    requires IsCollection(t) && HasType(c, t) && HasType(a, t.item) && SoundType(t)
    ensures Member(a, c).Some?
  {
    if t.SetOf? { TypedHashable(a, t.item); }
  }

  lemma AllEqualSound(c: Value, t: Type)
    requires IsCollection(t) && HasType(c, t) && HashableType(t.item)
    ensures MakeSet(SetKind, c.items).Some?
  {
    forall i | 0 <= i < |c.items| ensures Hashable(c.items[i]) {
      TypedHashable(c.items[i], t.item);
    }
  }

  predicate Aggregates(op: Op) {
    op.Count? || op.SumOp? || op.Min? || op.Max? || op.AllEqual? || op.In? || op.Contains?
  }

  lemma ScalarOperatorSound(op: Op, args: seq<Value>, types: seq<Type>, t: Type)
    requires !Aggregates(op) && OperatorType(op, types) == Some(t) && AllHaveTypes(args, types)
    ensures Apply(op, args).Some? && HasType(Apply(op, args).value, t)
  {
  }

  lemma AggregateSound(op: Op, args: seq<Value>, types: seq<Type>, t: Type)
    requires Aggregates(op) && OperatorType(op, types) == Some(t) && AllHaveTypes(args, types)
    requires forall i :: 0 <= i < |types| ==> SoundType(types[i])
    requires op.AllEqual? ==> HashableType(types[0].item)
    ensures Apply(op, args).Some? ==> HasType(Apply(op, args).value, t)
    ensures Apply(op, args).None? <==> (op.Min? || op.Max?) && args[0].Coll? && args[0].items == []
  {
    match op
    case In => MemberSound(args[0], args[1], types[1]);
    case Contains => MemberSound(args[1], args[0], types[0]);
    case SumOp => CollectionItems(args[0], types[0]); SumTyped(args[0].items);
    case Min => CollectionItems(args[0], types[0]); ExtremeTyped(args[0].items, true);
    case Max => CollectionItems(args[0], types[0]); ExtremeTyped(args[0].items, false);
    case AllEqual => AllEqualSound(args[0], types[0]);
    case _ =>
  }

  lemma TypesAt(ns: seq<Node>, scope: Scope, text: Node -> Canonical.Text)
    requires TypesOf(ns, scope, text).Some?
    ensures forall i :: 0 <= i < |ns| ==> TypeOf(ns[i], scope, text) == Some(TypesOf(ns, scope, text).value[i])
    ensures forall i :: 0 <= i < |ns| ==> TypesOf(ns, scope, text).value[i] == ns[i].valueType
    decreases |ns|
  {
    if ns != [] {
      var init, last := ns[..|ns| - 1], ns[|ns| - 1];
      TypesAt(init, scope, text);
      var types := TypesOf(ns, scope, text).value;
      forall i | 0 <= i < |ns| ensures TypeOf(ns[i], scope, text) == Some(types[i]) {
        if i < |init| { assert init[i] == ns[i]; }
      }
      forall i | 0 <= i < |ns| ensures types[i] == ns[i].valueType {
        if i < |init| { assert init[i] == ns[i]; }
      }
    }
  }

  /** What soundness says of one node. */
  ghost predicate SoundAt(n: Node, env: Env) {
    && (Evaluate(n, env).Some? ==> HasType(Evaluate(n, env).value, n.valueType))
    && (Evaluate(n, env).None? <==> EmptyExtremum(n, env))
  }

  /** Type soundness: a validated expression in an environment that fits evaluates to a value of its declared
      type, unless and only unless it reaches a `min` or `max` of an empty collection. */
  lemma {:induction false} TypeSoundness(n: Node, scope: Scope, env: Env, text: Node -> Canonical.Text)
    requires TypeOf(n, scope, text).Some? && Fits(env, scope) && HashableSets(n)
    ensures SoundAt(n, env)
    decreases n, 0
  {
    match n
    case Literal(_, _) =>
    case Variable(_, _) =>
    case Collection(isSet, elementType, elements, t) =>
      SoundAll(elements, scope, env, text);
      CollectionSound(n, scope, env, text);
    case Operator(op, args, t) =>
      SoundAll(args, scope, env, text);
      OperatorSound(n, scope, env, text);
    case Quantifier(_, name, bound, domain, body, _) =>
      TypeSoundness(domain, scope, env, text);
      if Evaluate(domain, env).Some? {
        CollectionItems(Evaluate(domain, env).value, domain.valueType);
        SoundEach(body, name, bound, Evaluate(domain, env).value.items, scope, env, text);
      }
  }

  lemma {:induction false} SoundAll(ns: seq<Node>, scope: Scope, env: Env, text: Node -> Canonical.Text)
    requires TypesOf(ns, scope, text).Some? && Fits(env, scope)
    requires forall i :: 0 <= i < |ns| ==> HashableSets(ns[i])
    ensures EvaluateAll(ns, env).Some? ==> AllHaveTypes(EvaluateAll(ns, env).value, TypesOf(ns, scope, text).value)
    ensures EvaluateAll(ns, env).None? <==> EmptyExtremumAmong(ns, env)
    decreases ns, 1
  {
    if ns != [] {
      var n := |ns| - 1;
      var init, last := ns[..n], ns[n];
      SoundAll(init, scope, env, text);
      TypeSoundness(last, scope, env, text);
      TypesAt(ns, scope, text);
      AmongLast(ns, env);
    }
  }

  lemma AmongLast(ns: seq<Node>, env: Env)
    requires ns != []
    ensures EmptyExtremumAmong(ns, env) <==> EmptyExtremumAmong(ns[..|ns| - 1], env) || EmptyExtremum(ns[|ns| - 1], env)
  {
    var init := ns[..|ns| - 1];
    if EmptyExtremumAmong(init, env) {
      var i :| 0 <= i < |init| && EmptyExtremum(init[i], env);
      assert EmptyExtremum(ns[i], env);
    }
    if EmptyExtremumAmong(ns, env) {
      var i :| 0 <= i < |ns| && EmptyExtremum(ns[i], env);
      if i < |init| { assert EmptyExtremum(init[i], env); }
    }
  }

  lemma {:induction false} SoundEach(body: Node, name: string, bound: Type, items: seq<Value>, scope: Scope, env: Env, text: Node -> Canonical.Text)
    requires TypeOf(body, scope[name := bound], text) == Some(Boolean) && Fits(env, scope) && HashableSets(body)
    requires forall i :: 0 <= i < |items| ==> HasType(items[i], bound)
    ensures EvaluateEach(body, name, items, env).None? <==> EmptyExtremumEach(body, name, items, env)
    decreases body, 1, |items|
  {
    if items != [] {
      var n := |items| - 1;
      var init, last := items[..n], items[n];
      SoundEach(body, name, bound, init, scope, env, text);
      assert Fits(env[name := last], scope[name := bound]);
      TypeSoundness(body, scope[name := bound], env[name := last], text);
      EachLast(body, name, items, env);
    }
  }

  lemma EachLast(body: Node, name: string, items: seq<Value>, env: Env)
    requires items != []
    ensures EmptyExtremumEach(body, name, items, env) <==>
              EmptyExtremumEach(body, name, items[..|items| - 1], env) || EmptyExtremum(body, env[name := items[|items| - 1]])
  {
    var init := items[..|items| - 1];
    if EmptyExtremumEach(body, name, init, env) {
      var i :| 0 <= i < |init| && EmptyExtremum(body, env[name := init[i]]);
      assert EmptyExtremum(body, env[name := items[i]]);
    }
    if EmptyExtremumEach(body, name, items, env) {
      var i :| 0 <= i < |items| && EmptyExtremum(body, env[name := items[i]]);
      if i < |init| { assert EmptyExtremum(body, env[name := init[i]]); }
    }
  }

  lemma CollectionSound(n: Node, scope: Scope, env: Env, text: Node -> Canonical.Text)
    requires n.Collection? && TypeOf(n, scope, text).Some? && HashableSets(n)
    requires EvaluateAll(n.elements, env).Some? ==> AllHaveTypes(EvaluateAll(n.elements, env).value, TypesOf(n.elements, scope, text).value)
    requires EvaluateAll(n.elements, env).None? <==> EmptyExtremumAmong(n.elements, env)
    ensures SoundAt(n, env)
  {
    var items := EvaluateAll(n.elements, env);
    if items.Some? {
      assert forall i :: 0 <= i < |items.value| ==> HasType(items.value[i], n.elementType);
      if n.isSet {
        forall i | 0 <= i < |items.value| ensures Hashable(items.value[i]) {
          TypedHashable(items.value[i], n.elementType);
        }
        DistinctTyped(items.value, n.elementType);
      }
    }
  }

  lemma OperatorSound(n: Node, scope: Scope, env: Env, text: Node -> Canonical.Text)
    requires n.Operator? && TypeOf(n, scope, text).Some? && HashableSets(n)
    requires EvaluateAll(n.args, env).Some? ==> AllHaveTypes(EvaluateAll(n.args, env).value, TypesOf(n.args, scope, text).value)
    requires EvaluateAll(n.args, env).None? <==> EmptyExtremumAmong(n.args, env)
    ensures SoundAt(n, env)
  {
    if EvaluateAll(n.args, env).Some? {
      if Aggregates(n.op) {
        AggregateOperatorSound(n, scope, env, text);
      } else {
        ScalarOperatorSound(n.op, EvaluateAll(n.args, env).value, TypesOf(n.args, scope, text).value, n.valueType);
      }
    }
  }

  lemma AggregateOperatorSound(n: Node, scope: Scope, env: Env, text: Node -> Canonical.Text)
    requires n.Operator? && Aggregates(n.op) && TypeOf(n, scope, text).Some? && HashableSets(n)
    requires EvaluateAll(n.args, env).Some? && !EmptyExtremumAmong(n.args, env)
    requires AllHaveTypes(EvaluateAll(n.args, env).value, TypesOf(n.args, scope, text).value)
    ensures SoundAt(n, env)
  {
    var args, types := EvaluateAll(n.args, env).value, TypesOf(n.args, scope, text).value;
    SoundArguments(n, types, scope, text);
    AggregateSound(n.op, args, types, n.valueType);
    AggregateSoundAt(n, env);
  }

  lemma SoundArguments(n: Node, types: seq<Type>, scope: Scope, text: Node -> Canonical.Text)
    requires n.Operator? && Aggregates(n.op) && TypeOf(n, scope, text).Some? && HashableSets(n)
    requires TypesOf(n.args, scope, text) == Some(types)
    ensures OperatorType(n.op, types) == Some(n.valueType)
    ensures forall i :: 0 <= i < |types| ==> SoundType(types[i])
    ensures n.op.AllEqual? ==> HashableType(types[0].item)
  {
    TypesAt(n.args, scope, text);
    forall i | 0 <= i < |types| ensures SoundType(types[i]) {
      assert HashableSets(n.args[i]);
    }
  }

  lemma AggregateSoundAt(n: Node, env: Env)
    requires n.Operator? && EvaluateAll(n.args, env).Some? && !EmptyExtremumAmong(n.args, env) && n.args != []
    requires (n.op.Min? || n.op.Max?) ==> |n.args| == 1
    requires Apply(n.op, EvaluateAll(n.args, env).value).Some? ==> HasType(Apply(n.op, EvaluateAll(n.args, env).value).value, n.valueType)
    requires Apply(n.op, EvaluateAll(n.args, env).value).None? <==>
               (n.op.Min? || n.op.Max?) && EvaluateAll(n.args, env).value[0].Coll? && EvaluateAll(n.args, env).value[0].items == []
    ensures SoundAt(n, env)
  {
    if |n.args| == 1 { EvaluatedArgument(n.args, env); }
  }

  lemma EvaluatedArgument(ns: seq<Node>, env: Env)
    requires EvaluateAll(ns, env).Some? && |ns| == 1
    ensures Evaluate(ns[0], env) == Some(EvaluateAll(ns, env).value[0])
  {
    assert ns[..0] == [];
  }
}
