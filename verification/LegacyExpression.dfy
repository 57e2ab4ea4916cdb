/** The historical Python-like expression language: its evaluator, and its translation into the typed AST. */
module LegacyExpression {
  import opened Wrappers
  import opened PythonValues
  import opened Expression

  datatype UnaryOp = NotOp | Minus | Plus | OtherUnary

  datatype BinaryOp = BinaryPlus | BinaryMinus | BinaryTimes | OtherBinary

  datatype CompareOp = Equals | NotEquals | Below | AtMost | Above | AtLeast | Within | NotWithin | OtherCompare

  /** Python's expression syntax, as far as the translation distinguishes it. */
  datatype Legacy =
    | Constant(value: Value)
    | Name(id: string)
    | Display(kind: Kind, elts: seq<Legacy>)
    | BoolOp(conjunction: bool, values: seq<Legacy>)
    | Unary(uop: UnaryOp, operand: Legacy)
    | Binary(bop: BinaryOp, left: Legacy, right: Legacy)
    | Compare(first: Legacy, ops: seq<CompareOp>, comparators: seq<Legacy>)
    | IfExp(test: Legacy, body: Legacy, orelse: Legacy)
    | OtherSyntax

  // ----- the legacy evaluator -----

  /** `None` when the operator is unsupported or raises. */
  function CompareValues(op: CompareOp, a: Value, b: Value): Option<bool> {
    match op
    case Equals => Some(Equal(a, b))
    case NotEquals => Some(!Equal(a, b))
    case Below => Less(a, b)
    case AtMost => Negated(Less(b, a))
    case Above => Less(b, a)
    case AtLeast => Negated(Less(a, b))
    case Within => Member(a, b)
    case NotWithin => Negated(Member(a, b))
    case OtherCompare => None
  }

  function ApplyUnary(op: UnaryOp, v: Value): Option<Value> {
    match op
    case NotOp => Some(Bool(!Truth(v)))
    case Minus => if Number(v).Some? then Some(Int(-Number(v).value)) else None
    case Plus => if Number(v).Some? then Some(Int(Number(v).value)) else None
    case OtherUnary => None
  }

  function Arithmetic(op: BinaryOp, a: Value, b: Value): Option<Value> {
    match op
    case BinaryPlus => Add(a, b)
    case BinaryMinus => Subtract(a, b)
    case BinaryTimes => Multiply(a, b)
    case OtherBinary => None
  }

  /** `_eval` */
  function Eval(e: Legacy, env: Env): Option<Value>
    decreases e, 0
  {
    match e
    case Constant(v) => Some(v)
    case Name(id) => if id in env then Some(env[id]) else None
    case Display(kind, elts) =>
      var items := EvalEach(elts, env);
      if items.None? || kind.FrozenKind? then None
      else if kind.SetKind? then MakeSet(SetKind, items.value)
      else Some(Coll(kind, items.value))
    case BoolOp(conjunction, values) =>
      var vs := EvalEach(values, env);
      if vs.None? then None
      else Some(Bool(if conjunction then forall i :: 0 <= i < |vs.value| ==> Truth(vs.value[i])
                     else exists i :: 0 <= i < |vs.value| && Truth(vs.value[i])))
    case Unary(op, operand) =>
      var v := Eval(operand, env);
      if v.None? then None else ApplyUnary(op, v.value)
    case Binary(op, left, right) =>
      var a, b := Eval(left, env), Eval(right, env);
      if a.None? || b.None? then None else Arithmetic(op, a.value, b.value)
    case Compare(first, ops, comparators) =>
      var left := Eval(first, env);
      if left.None? then None else EvalChain(left.value, ops, comparators, env)
    case IfExp(test, body, orelse) =>
      var t := Eval(test, env);
      if t.None? then None else if Truth(t.value) then Eval(body, env) else Eval(orelse, env)
    case OtherSyntax => None
  }

  function EvalEach(es: seq<Legacy>, env: Env): (r: Option<seq<Value>>)
    ensures r.Some? ==> |r.value| == |es|
    decreases es, 1
  {
    if es == [] then Some([])
    else
      var init, last := EvalEach(es[..|es| - 1], env), Eval(es[|es| - 1], env);
      if init.Some? && last.Some? then Some(init.value + [last.value]) else None
  }

  /** A chain stops at the first comparison that fails; later comparators are not evaluated. */
  function EvalChain(left: Value, ops: seq<CompareOp>, comparators: seq<Legacy>, env: Env): Option<Value>
    decreases comparators, 1
  {
    if ops == [] || comparators == [] then Some(Bool(true))
    else
      var right := Eval(comparators[0], env);
      if right.None? then None
      else if ops[0].OtherCompare? then Some(Bool(false))
      else
        var holds := CompareValues(ops[0], left, right.value);
        if holds.None? then None
        else if !holds.value then Some(Bool(false))
        else EvalChain(right.value, ops[1..], comparators[1..], env)
  }

  /** The `Compare` case of `_eval`: `left` moves along the chain. */
  method RunChain(first: Value, ops: seq<CompareOp>, comparators: seq<Legacy>, env: Env) returns (r: Option<Value>)
    ensures r == EvalChain(first, ops, comparators, env)
  {
    var left := first;
    var n := if |ops| < |comparators| then |ops| else |comparators|;
    for i := 0 to n
      invariant EvalChain(first, ops, comparators, env) == EvalChain(left, ops[i..], comparators[i..], env)
    {
      assert ops[i..][1..] == ops[i + 1..] && comparators[i..][1..] == comparators[i + 1..];
      var right := Eval(comparators[i], env);
      if right.None? {
        return None;
      }
      if ops[i].OtherCompare? {
        return Some(Bool(false));
      }
      var holds := CompareValues(ops[i], left, right.value);
      if holds.None? {
        return None;
      }
      if !holds.value {
        return Some(Bool(false));
      }
      left := right.value;
    }
    r := Some(Bool(true));
  }

  // ----- translation -----

  function ComparisonOp(op: CompareOp): Option<Op> {
    match op
    case Equals => Some(Eq)
    case NotEquals => Some(Neq)
    case Below => Some(Lt)
    case AtMost => Some(Lte)
    case Above => Some(Gt)
    case AtLeast => Some(Gte)
    case Within => Some(In)
    case NotWithin => Some(In)
    case OtherCompare => None
  }

  function Comparison(op: CompareOp, left: Node, right: Node): Option<Node> {
    var core := ComparisonOp(op);
    if core.None? then None
    else
      var plain := Operator(core.value, [left, right], Boolean);
      Some(if op.NotWithin? then Operator(Not, [plain], Boolean) else plain)
  }

  function ArithmeticOp(op: BinaryOp): Op
    requires !op.OtherBinary?
  {
    match op
    case BinaryPlus => AddOp
    case BinaryMinus => SubOp
    case BinaryTimes => MulOp
  }

  function UnaryNode(op: UnaryOp, n: Node): Option<Node> {
    match op
    case NotOp => Some(Operator(Not, [n], Boolean))
    case Minus => Some(Operator(SubOp, [Literal(Int(0), Integer), n], Integer))
    case Plus => Some(n)
    case OtherUnary => None
  }

  /** `_translate_python` */
  function Translate(e: Legacy, scope: Scope): Option<Node>
    decreases e, 0
  {
    match e
    case Constant(v) =>
      (match v
       case Bool(_) => Some(Literal(v, Boolean))
       case Int(_) => Some(Literal(v, Integer))
       case Str(_) => Some(Literal(v, String))
       case _ => None)
    case Name(id) => if id in scope then Some(Variable(id, scope[id])) else None
    case Display(kind, elts) =>
      var elements := TranslateEach(elts, scope);
      if elements.None? || elts == [] || kind.FrozenKind? then None
      else
        var element := elements.value[0].valueType;
        Some(Collection(kind.SetKind?, element, elements.value, if kind.SetKind? then SetOf(element) else ListOf(element)))
    case BoolOp(conjunction, values) =>
      var args := TranslateEach(values, scope);
      if args.None? then None else Some(Operator(if conjunction then And else Or, args.value, Boolean))
    case Unary(op, operand) =>
      var n := Translate(operand, scope);
      if n.None? then None else UnaryNode(op, n.value)
    case Binary(op, left, right) =>
      var a, b := Translate(left, scope), Translate(right, scope);
      if a.None? || b.None? || op.OtherBinary? then None else Some(Operator(ArithmeticOp(op), [a.value, b.value], Integer))
    case Compare(first, ops, comparators) =>
      var left := Translate(first, scope);
      var comparisons := if left.None? then None else TranslateChain(left.value, ops, comparators, scope);
      if comparisons.None? then None
      else if |comparisons.value| == 1 then Some(comparisons.value[0])
      else Some(Operator(And, comparisons.value, Boolean))
    case IfExp(test, body, orelse) =>
      var b, t, o := Translate(body, scope), Translate(test, scope), Translate(orelse, scope);
      if b.None? || t.None? || o.None? then None
      else Some(Operator(IfThenElse, [t.value, b.value, o.value], b.value.valueType))
    case OtherSyntax => None
  }

  function TranslateEach(es: seq<Legacy>, scope: Scope): (r: Option<seq<Node>>)
    ensures r.Some? ==> |r.value| == |es|
    decreases es, 1
  {
    if es == [] then Some([])
    else
      var init, last := TranslateEach(es[..|es| - 1], scope), Translate(es[|es| - 1], scope);
      if init.Some? && last.Some? then Some(init.value + [last.value]) else None
  }

  /** Each comparison of the chain becomes its own node; inner operands are translated into two of them. */
  function TranslateChain(left: Node, ops: seq<CompareOp>, comparators: seq<Legacy>, scope: Scope): Option<seq<Node>>
    decreases comparators, 1
  {
    if ops == [] || comparators == [] then Some([])
    else
      var right := Translate(comparators[0], scope);
      var one := if right.None? then None else Comparison(ops[0], left, right.value);
      var rest := if one.None? then None else TranslateChain(right.value, ops[1..], comparators[1..], scope);
      if rest.None? then None else Some([one.value] + rest.value)
  }
}
