/** The translation of legacy expressions preserves meaning on a fragment; outside it, exactly when is said. */
module Translation {
  import opened Wrappers
  import Canonical
  import opened PythonValues
  import opened Expression
  import opened LegacyExpression

  // ----- corresponding values -----

  /** The typed evaluator has no tuples, and its sets are frozen. */
  function Erase(v: Value): Value {
    match v
    case Coll(k, items) =>
      Coll(if IsSet(k) then FrozenKind else ListKind, seq(|items|, i requires 0 <= i < |items| => Erase(items[i])))
    case _ => v
  }

  predicate Plain(t: Type) {
    t.Boolean? || t.Integer? || t.String?
  }

  lemma PlainErase(v: Value, t: Type)
    requires HasType(Erase(v), t) && Plain(t)
    ensures Erase(v) == v && HasType(v, t)
  {
  }

  lemma {:induction false} TypedErase(v: Value, t: Type)
    requires HasType(v, t)
    ensures Erase(v) == v
  {
    match t
    case ListOf(item) => TypedEraseItems(v, item);
    case SetOf(item) => TypedEraseItems(v, item);
    case OptionalOf(item) => if !v.Null? { TypedErase(v, item); }
    case _ =>
  }

  lemma {:induction false} TypedEraseItems(v: Value, item: Type)
    requires v.Coll? && (v.kind.ListKind? || v.kind.FrozenKind?)
    requires forall i :: 0 <= i < |v.items| ==> HasType(v.items[i], item)
    ensures Erase(v) == v
  {
    forall i | 0 <= i < |v.items| ensures Erase(v.items[i]) == v.items[i] {
      TypedErase(v.items[i], item);
    }
    assert Erase(v).items == v.items;
  }

  // ----- tuples and lists -----

  /** Where both have a sequence, both have a tuple or both have a list; sets match element by element. */
  predicate SameShape(a: Value, b: Value)
    decreases a, 0
  {
    if !a.Coll? || !b.Coll? then true
    else if IsSet(a.kind) && IsSet(b.kind) then forall i :: 0 <= i < |a.items| ==> Matched(a.items[i], b.items)
    else a.kind == b.kind && |a.items| == |b.items| && forall i :: 0 <= i < |a.items| ==> SameShape(a.items[i], b.items[i])
  }

  /** Some item corresponds to the same value and has the same shape. */
  predicate Matched(v: Value, items: seq<Value>)
    decreases v, 1
  {
    exists j :: 0 <= j < |items| && Equal(Erase(v), Erase(items[j])) && SameShape(v, items[j])
  }

  /** Values are equal exactly when the corresponding values are and no tuple faces a list. */
  lemma {:induction false} EqualityExactly(a: Value, b: Value)
    ensures Equal(a, b) <==> Equal(Erase(a), Erase(b)) && SameShape(a, b)
    decreases a, 0
  {
    if a.Coll? && b.Coll? {
      if IsSet(a.kind) && IsSet(b.kind) {
        forall i | 0 <= i < |a.items|
          ensures Among(a.items[i], b.items) <==> Matched(a.items[i], b.items)
          ensures Matched(a.items[i], b.items) ==> Among(Erase(a.items[i]), EraseAll(b.items)) {
          MatchExactly(a.items[i], b.items);
        }
        SetEquality(a, b);
        SetEquality(Erase(a), Erase(b));
        assert Erase(a).items == EraseAll(a.items) && Erase(b).items == EraseAll(b.items);
      } else {
        forall i | 0 <= i < |a.items| && i < |b.items|
          ensures Equal(a.items[i], b.items[i]) <==>
                    Equal(Erase(a.items[i]), Erase(b.items[i])) && SameShape(a.items[i], b.items[i]) {
          EqualityExactly(a.items[i], b.items[i]);
        }
        assert Erase(a).items == EraseAll(a.items) && Erase(b).items == EraseAll(b.items);
        SequenceEquality(Erase(a), Erase(b));
      }
    }
  }

  lemma SetEquality(a: Value, b: Value)
    requires a.Coll? && b.Coll? && IsSet(a.kind) && IsSet(b.kind)
    ensures Equal(a, b) <==> |a.items| == |b.items| && forall i :: 0 <= i < |a.items| ==> Among(a.items[i], b.items)
  {
  }

  lemma SequenceEquality(a: Value, b: Value)
    requires a.Coll? && b.Coll? && !(IsSet(a.kind) && IsSet(b.kind))
    ensures Equal(a, b) <==> a.kind == b.kind && |a.items| == |b.items| && forall i :: 0 <= i < |a.items| ==> Equal(a.items[i], b.items[i])
  {
  }

  lemma {:induction false} MatchExactly(v: Value, items: seq<Value>)
    ensures Among(v, items) <==> Matched(v, items)
    ensures Matched(v, items) ==> Among(Erase(v), EraseAll(items))
    decreases v, 1
  {
    forall j | 0 <= j < |items|
      ensures Equal(v, items[j]) <==> Equal(Erase(v), Erase(items[j])) && SameShape(v, items[j]) {
      EqualityExactly(v, items[j]);
    }
    if Matched(v, items) {
      var j :| 0 <= j < |items| && Equal(Erase(v), Erase(items[j])) && SameShape(v, items[j]);
      assert Equal(Erase(v), EraseAll(items)[j]);
    }
  }

  function EraseAll(items: seq<Value>): (r: seq<Value>)
    ensures |r| == |items| && forall i :: 0 <= i < |r| ==> r[i] == Erase(items[i])
  {
    seq(|items|, i requires 0 <= i < |items| => Erase(items[i]))
  }

  predicate WithoutTuples(v: Value) {
    v.Coll? ==> !v.kind.TupleKind? && forall i :: 0 <= i < |v.items| ==> WithoutTuples(v.items[i])
  }

  lemma {:induction false} ErasedWithoutTuples(v: Value)
    ensures WithoutTuples(Erase(v))
  {
    if v.Coll? {
      forall i | 0 <= i < |v.items| ensures WithoutTuples(Erase(v).items[i]) {
        ErasedWithoutTuples(v.items[i]);
      }
    }
  }

  lemma {:induction false} ShapeWithoutTuples(a: Value, b: Value)
    requires WithoutTuples(a) && WithoutTuples(b) && Equal(Erase(a), Erase(b))
    ensures SameShape(a, b)
    decreases a
  {
    if a.Coll? && b.Coll? {
      var ea, eb := Erase(a), Erase(b);
      if IsSet(a.kind) && IsSet(b.kind) {
        forall i | 0 <= i < |a.items| ensures Matched(a.items[i], b.items) {
          assert Equal(ea, eb) && ea.items[i] == Erase(a.items[i]);
          var j :| 0 <= j < |eb.items| && Equal(ea.items[i], eb.items[j]);
          assert eb.items[j] == Erase(b.items[j]);
          ShapeWithoutTuples(a.items[i], b.items[j]);
        }
      } else {
        forall i | 0 <= i < |a.items| ensures SameShape(a.items[i], b.items[i]) {
          assert Equal(ea.items[i], eb.items[i]);
          ShapeWithoutTuples(a.items[i], b.items[i]);
        }
      }
    }
  }

  lemma EqualWithoutTuples(a: Value, b: Value)
    requires WithoutTuples(a) && WithoutTuples(b)
    ensures Equal(Erase(a), Erase(b)) == Equal(a, b)
  {
    EqualityExactly(a, b);
    if Equal(Erase(a), Erase(b)) { ShapeWithoutTuples(a, b); }
  }

  ghost predicate AllWithoutTuples(items: seq<Value>) {
    forall i :: 0 <= i < |items| ==> WithoutTuples(items[i])
  }

  lemma HoldsErased(items: seq<Value>, v: Value)
    requires AllWithoutTuples(items) && WithoutTuples(v)
    ensures Holds(EraseAll(items), Erase(v)) == Holds(items, v)
  {
    forall i | 0 <= i < |items| ensures Equal(EraseAll(items)[i], Erase(v)) == Equal(items[i], v) {
      EqualWithoutTuples(items[i], v);
    }
  }

  lemma MemberErased(a: Value, c: Value)
    requires WithoutTuples(a) && WithoutTuples(c) && c.Coll?
    ensures Member(Erase(a), Erase(c)) == Member(a, c)
  {
    HoldsErased(c.items, a);
    assert Erase(c).items == EraseAll(c.items);
  }

  lemma {:induction false} DistinctErased(items: seq<Value>)
    requires AllWithoutTuples(items)
    ensures AllWithoutTuples(Distinct(items)) && Distinct(EraseAll(items)) == EraseAll(Distinct(items))
  {
    if items != [] {
      var n := |items| - 1;
      DistinctErased(items[..n]);
      assert EraseAll(items)[..n] == EraseAll(items[..n]);
      HoldsErased(Distinct(items[..n]), items[n]);
      assert EraseAll(Distinct(items[..n]) + [items[n]]) == EraseAll(Distinct(items[..n])) + [Erase(items[n])];
    }
  }

  // ----- the fragment -----

  function TypeIn(e: Legacy, scope: Scope): Option<Type> {
    var n := Translate(e, scope);
    if n.None? then None else Some(n.value.valueType)
  }

  predicate PlainOperand(e: Legacy, scope: Scope) {
    TypeIn(e, scope).Some? && Plain(TypeIn(e, scope).value)
  }

  /** No tuple display can end up in the value. */
  predicate TupleFree(e: Legacy) {
    match e
    case Constant(v) => WithoutTuples(v)
    case Display(kind, elts) => !kind.TupleKind? && forall k :: 0 <= k < |elts| ==> TupleFree(elts[k])
    case Binary(_, left, right) => TupleFree(left) && TupleFree(right)
    case IfExp(_, body, orelse) => TupleFree(body) && TupleFree(orelse)
    case _ => true
  }

  /** The value is not that of a set display. */
  predicate NoSetDisplay(e: Legacy) {
    match e
    case Constant(v) => !(v.Coll? && v.kind.SetKind?)
    case Display(kind, _) => !kind.SetKind?
    case IfExp(_, body, orelse) => NoSetDisplay(body) && NoSetDisplay(orelse)
    case _ => true
  }

  predicate ComparesValues(op: CompareOp) {
    op.Equals? || op.NotEquals? || op.Within? || op.NotWithin?
  }

  /** Operands tested for equality or membership have no tuples. */
  predicate FreeLinks(first: Legacy, ops: seq<CompareOp>, comparators: seq<Legacy>)
    decreases |comparators|
  {
    ops != [] && comparators != [] ==>
      && (ComparesValues(ops[0]) ==> TupleFree(first) && TupleFree(comparators[0]))
      && FreeLinks(comparators[0], ops[1..], comparators[1..])
  }

  function Children(e: Legacy): (r: seq<Legacy>)
    ensures forall k :: 0 <= k < |r| ==> r[k] < e
  {
    match e
    case Display(_, elts) => elts
    case BoolOp(_, values) => values
    case Unary(_, operand) => [operand]
    case Binary(_, left, right) => [left, right]
    case Compare(first, _, comparators) => [first] + comparators
    case IfExp(test, body, orelse) => [test, body, orelse]
    case _ => []
  }

  predicate Allowed(e: Legacy, scope: Scope) {
    match e
    case Display(kind, elts) =>
      kind.SetKind? ==> forall k :: 0 <= k < |elts| ==> TupleFree(elts[k]) && NoSetDisplay(elts[k])
    case Unary(op, operand) => op.Plus? ==> TypeIn(operand, scope) == Some(Integer)
    case Compare(first, ops, comparators) => FreeLinks(first, ops, comparators)
    case _ => true
  }

  /** No tuple display inside an operand of an equality or membership test, or inside an element of a set;
      no set display as an element of a set; and unary plus only on integers. */
  predicate InFragment(e: Legacy, scope: Scope) {
    Allowed(e, scope) && forall k :: 0 <= k < |Children(e)| ==> InFragment(Children(e)[k], scope)
  }

  lemma ChildInFragment(e: Legacy, c: Legacy, k: nat, scope: Scope)
    requires InFragment(e, scope) && k < |Children(e)| && Children(e)[k] == c
    ensures InFragment(c, scope)
  {
  }

  // ----- evaluating lists of nodes -----

  ghost predicate EvaluatesTo(ns: seq<Node>, vs: seq<Value>, env: Env) {
    |ns| == |vs| && forall i :: 0 <= i < |ns| ==> Evaluate(ns[i], env) == Some(vs[i])
  }

  lemma {:induction false} EvaluateAllAt(ns: seq<Node>, vs: seq<Value>, env: Env)
    requires EvaluatesTo(ns, vs, env)
    ensures EvaluateAll(ns, env) == Some(vs)
  {
    if ns != [] {
      var n := |ns| - 1;
      EvaluateAllAt(ns[..n], vs[..n], env);
      assert vs == vs[..n] + [vs[n]];
    }
  }

  /** The node evaluates to what the legacy value corresponds to, and to a value of its type. */
  ghost predicate Means(n: Node, v: Value, env: Env) {
    Evaluate(n, env) == Some(Erase(v)) && HasType(Erase(v), n.valueType)
  }

  /** Some part of the expression raises, be it evaluated or not. */
  ghost predicate Raises(e: Legacy, env: Env)
    decreases e, 0
  {
    Eval(e, env).None? ||
    match e
    case Display(_, elts) => RaisesAmong(elts, env)
    case BoolOp(_, values) => RaisesAmong(values, env)
    case Unary(_, operand) => Raises(operand, env)
    case Binary(_, left, right) => Raises(left, env) || Raises(right, env)
    case Compare(first, ops, comparators) => Raises(first, env) || RaisesAlong(first, ops, comparators, env)
    case IfExp(test, body, orelse) => Raises(test, env) || Raises(body, env) || Raises(orelse, env)
    case _ => false
  }

  ghost predicate RaisesAmong(es: seq<Legacy>, env: Env)
    decreases es, 1
  {
    es != [] && (RaisesAmong(es[..|es| - 1], env) || Raises(es[|es| - 1], env))
  }

  /** A comparator of the chain raises, or a comparison of its operands does. */
  ghost predicate RaisesAlong(left: Legacy, ops: seq<CompareOp>, comparators: seq<Legacy>, env: Env)
    decreases comparators, 1
  {
    ops != [] && comparators != [] &&
    (Raises(comparators[0], env) || LinkRaises(ops[0], left, comparators[0], env)
     || RaisesAlong(comparators[0], ops[1..], comparators[1..], env))
  }

  ghost predicate LinkRaises(op: CompareOp, left: Legacy, right: Legacy, env: Env) {
    Eval(left, env).Some? && Eval(right, env).Some? && CompareValues(op, Eval(left, env).value, Eval(right, env).value).None?
  }

  /** The node raises exactly when some part of the expression does, and else means its value. */
  ghost predicate Agrees(e: Legacy, n: Node, env: Env) {
    if Raises(e, env) then Evaluate(n, env).None? else Eval(e, env).Some? && Means(n, Eval(e, env).value, env)
  }

  lemma {:induction false} NoneAmong(ns: seq<Node>, i: nat, env: Env)
    requires i < |ns| && Evaluate(ns[i], env).None?
    ensures EvaluateAll(ns, env).None?
  {
    var n := |ns| - 1;
    if i < n {
      assert ns[..n][i] == ns[i];
      NoneAmong(ns[..n], i, env);
    }
  }

  lemma ArgumentTypes(op: Op, args: seq<Node>, t: Type, scope: Scope, text: Node -> Canonical.Text)
    requires TypeOf(Operator(op, args, t), scope, text).Some?
    ensures TypesOf(args, scope, text).Some? && OperatorType(op, TypesOf(args, scope, text).value) == Some(t)
    ensures forall i :: 0 <= i < |args| ==> TypeOf(args[i], scope, text) == Some(args[i].valueType)
    ensures forall i :: 0 <= i < |args| ==> TypesOf(args, scope, text).value[i] == args[i].valueType
  {
    TypesAt(args, scope, text);
  }

  lemma SingleType(op: Op, a: Node, t: Type, scope: Scope, text: Node -> Canonical.Text)
    requires TypeOf(Operator(op, [a], t), scope, text).Some?
    ensures TypeOf(a, scope, text) == Some(a.valueType) && OperatorType(op, [a.valueType]) == Some(t)
  {
    ArgumentTypes(op, [a], t, scope, text);
    assert [a][0] == a && TypesOf([a], scope, text).value == [a.valueType];
  }

  lemma PairTypes(op: Op, a: Node, b: Node, t: Type, scope: Scope, text: Node -> Canonical.Text)
    requires TypeOf(Operator(op, [a, b], t), scope, text).Some?
    ensures TypeOf(a, scope, text) == Some(a.valueType) && TypeOf(b, scope, text) == Some(b.valueType)
    ensures OperatorType(op, [a.valueType, b.valueType]) == Some(t)
  {
    ArgumentTypes(op, [a, b], t, scope, text);
    assert [a, b][0] == a && [a, b][1] == b && TypesOf([a, b], scope, text).value == [a.valueType, b.valueType];
  }

  lemma TripleTypes(op: Op, a: Node, b: Node, c: Node, t: Type, scope: Scope, text: Node -> Canonical.Text)
    requires TypeOf(Operator(op, [a, b, c], t), scope, text).Some?
    ensures TypeOf(a, scope, text) == Some(a.valueType) && TypeOf(b, scope, text) == Some(b.valueType)
    ensures TypeOf(c, scope, text) == Some(c.valueType)
    ensures OperatorType(op, [a.valueType, b.valueType, c.valueType]) == Some(t)
  {
    var ns := [a, b, c];
    ArgumentTypes(op, ns, t, scope, text);
    assert ns[0] == a && ns[1] == b && ns[2] == c;
    assert TypesOf(ns, scope, text).value == [a.valueType, b.valueType, c.valueType];
  }

  // ----- values of tuple-free expressions -----

  lemma TypedWithoutTuples(v: Value, t: Type)
    requires HasType(v, t)
    ensures WithoutTuples(v) && !(v.Coll? && v.kind.SetKind?)
  {
    TypedErase(v, t);
    ErasedWithoutTuples(v);
  }

  lemma {:induction false} TupleFreeValue(e: Legacy, scope: Scope, env: Env)
    requires TupleFree(e) && Translate(e, scope).Some? && Fits(env, scope) && Eval(e, env).Some?
    ensures WithoutTuples(Eval(e, env).value)
    decreases e, 0
  {
    match e
    case Name(id) => TypedWithoutTuples(env[id], scope[id]);
    case Display(kind, elts) =>
      TupleFreeValues(elts, scope, env);
      DistinctErased(EvalEach(elts, env).value);
    case Binary(_, left, right) =>
      TupleFreeValue(left, scope, env);
      TupleFreeValue(right, scope, env);
    case Compare(first, ops, comparators) => ChainBoolean(Eval(first, env).value, ops, comparators, env);
    case IfExp(_, body, orelse) =>
      if Eval(e, env) == Eval(body, env) { TupleFreeValue(body, scope, env); } else { TupleFreeValue(orelse, scope, env); }
    case _ =>
  }

  lemma {:induction false} TupleFreeValues(es: seq<Legacy>, scope: Scope, env: Env)
    requires forall k :: 0 <= k < |es| ==> TupleFree(es[k])
    requires TranslateEach(es, scope).Some? && Fits(env, scope) && EvalEach(es, env).Some?
    ensures AllWithoutTuples(EvalEach(es, env).value)
    decreases es, 1
  {
    if es != [] {
      TupleFreeValues(es[..|es| - 1], scope, env);
      TupleFreeValue(es[|es| - 1], scope, env);
    }
  }

  lemma {:induction false} ChainBoolean(left: Value, ops: seq<CompareOp>, comparators: seq<Legacy>, env: Env)
    ensures EvalChain(left, ops, comparators, env).Some? ==> EvalChain(left, ops, comparators, env).value.Bool?
    decreases |comparators|
  {
    if ops != [] && comparators != [] && Eval(comparators[0], env).Some? {
      ChainBoolean(Eval(comparators[0], env).value, ops[1..], comparators[1..], env);
    }
  }

  ghost predicate IsSetObject(v: Value) {
    v.Coll? && v.kind.SetKind?
  }

  lemma {:induction false} NoSetValue(e: Legacy, scope: Scope, env: Env)
    requires NoSetDisplay(e) && Translate(e, scope).Some? && Fits(env, scope) && Eval(e, env).Some?
    ensures !IsSetObject(Eval(e, env).value)
  {
    match e
    case Name(id) => TypedWithoutTuples(env[id], scope[id]);
    case Compare(first, ops, comparators) => ChainBoolean(Eval(first, env).value, ops, comparators, env);
    case IfExp(_, body, orelse) =>
      if Eval(e, env) == Eval(body, env) { NoSetValue(body, scope, env); } else { NoSetValue(orelse, scope, env); }
    case _ =>
  }

  lemma {:induction false} NoSetValues(es: seq<Legacy>, scope: Scope, env: Env)
    requires forall k :: 0 <= k < |es| ==> NoSetDisplay(es[k])
    requires TranslateEach(es, scope).Some? && Fits(env, scope) && EvalEach(es, env).Some?
    ensures forall i :: 0 <= i < |es| ==> !IsSetObject(EvalEach(es, env).value[i])
    decreases |es|
  {
    if es != [] {
      NoSetValues(es[..|es| - 1], scope, env);
      NoSetValue(es[|es| - 1], scope, env);
    }
  }

  // ----- comparisons -----

  /** One comparison, as one node. */
  lemma ComparisonMeans(op: CompareOp, left: Node, right: Node, a: Value, b: Value, scope: Scope, env: Env, text: Node -> Canonical.Text)
    requires Comparison(op, left, right).Some? && TypeOf(Comparison(op, left, right).value, scope, text).Some?
    requires Means(left, a, env) && Means(right, b, env)
    requires ComparesValues(op) ==> WithoutTuples(a) && WithoutTuples(b)
    ensures Evaluate(Comparison(op, left, right).value, env) == Answer(CompareValues(op, a, b))
  {
    ComparisonOperands(op, left, right, scope, text);
    EvaluateAllAt([left, right], [Erase(a), Erase(b)], env);
    ComparedValues(op, left.valueType, right.valueType, a, b);
    NodeCompares(op, left, right, a, b, env);
  }

  /** What the node of a comparison computes from the operands. */
  lemma NodeCompares(op: CompareOp, left: Node, right: Node, a: Value, b: Value, env: Env)
    requires Comparison(op, left, right).Some?
    requires EvaluateAll([left, right], env) == Some([Erase(a), Erase(b)])
    ensures Evaluate(Comparison(op, left, right).value, env) == Answer(CompareValues(op, Erase(a), Erase(b)))
  {
    if op.NotWithin? {
      var plain := Operator(In, [left, right], Boolean);
      var member := Member(Erase(a), Erase(b));
      assert Evaluate(plain, env) == Answer(member);
      if member.Some? {
        EvaluateAllAt([plain], [Bool(member.value)], env);
      } else {
        NoneAmong([plain], 0, env);
      }
    }
  }

  lemma ComparedValues(op: CompareOp, s: Type, t: Type, a: Value, b: Value)
    requires ComparisonOp(op).Some? && OperatorType(ComparisonOp(op).value, [s, t]).Some?
    requires HasType(Erase(a), s) && HasType(Erase(b), t) && (ComparesValues(op) ==> WithoutTuples(a) && WithoutTuples(b))
    ensures CompareValues(op, Erase(a), Erase(b)) == CompareValues(op, a, b)
  {
    if op.Within? || op.NotWithin? {
      MemberErased(a, b);
    } else if ComparesValues(op) {
      EqualWithoutTuples(a, b);
    } else {
      PlainErase(a, s);
      PlainErase(b, t);
    }
  }

  // ----- preservation -----

  /** A legacy expression of the fragment whose translation validates, and an environment that fits. */
  ghost predicate Ready(e: Legacy, scope: Scope, env: Env, text: Node -> Canonical.Text) {
    && Translate(e, scope).Some? && TypeOf(Translate(e, scope).value, scope, text).Some?
    && Fits(env, scope) && InFragment(e, scope)
  }

  ghost predicate AllReady(es: seq<Legacy>, scope: Scope, env: Env, text: Node -> Canonical.Text) {
    forall i :: 0 <= i < |es| ==> Ready(es[i], scope, env, text)
  }

  /** Translation preserves meaning: the translation raises exactly when some part of the legacy expression
      raises, and otherwise evaluates to the corresponding value. */
  lemma {:induction false} TranslationPreserves(e: Legacy, scope: Scope, env: Env, text: Node -> Canonical.Text)
    requires Ready(e, scope, env, text)
    ensures Agrees(e, Translate(e, scope).value, env)
    decreases e, 1
  {
    match e
    case Constant(v) =>
    case Name(id) => TypedErase(env[id], scope[id]);
    case Display(kind, elts) => DisplayPreserves(kind, elts, scope, env, text);
    case BoolOp(conjunction, values) => BoolOpPreserves(conjunction, values, scope, env, text);
    case Unary(op, operand) =>
      UnaryParts(op, operand, scope, env, text);
      TranslationPreserves(operand, scope, env, text);
      UnaryMeans(op, operand, Translate(operand, scope).value, scope, env, text);
    case Binary(op, left, right) =>
      BinaryParts(op, left, right, scope, env, text);
      TranslationPreserves(left, scope, env, text);
      TranslationPreserves(right, scope, env, text);
      ArithmeticMeans(op, left, right, Translate(left, scope).value, Translate(right, scope).value, env);
    case Compare(first, ops, comparators) => ComparePreserves(first, ops, comparators, scope, env, text);
    case IfExp(test, body, orelse) =>
      IfParts(test, body, orelse, scope, env, text);
      TranslationPreserves(test, scope, env, text);
      TranslationPreserves(body, scope, env, text);
      TranslationPreserves(orelse, scope, env, text);
      ChoiceMeans(test, body, orelse, Translate(test, scope).value, Translate(body, scope).value, Translate(orelse, scope).value, env);
    case OtherSyntax =>
  }

  lemma {:induction false} TranslateEachAt(es: seq<Legacy>, scope: Scope)
    requires TranslateEach(es, scope).Some?
    ensures forall i :: 0 <= i < |es| ==> Translate(es[i], scope) == Some(TranslateEach(es, scope).value[i])
  {
    if es != [] {
      var n := |es| - 1;
      TranslateEachAt(es[..n], scope);
      forall i | 0 <= i < |es| ensures Translate(es[i], scope) == Some(TranslateEach(es, scope).value[i]) {
        if i < n { assert es[..n][i] == es[i]; }
      }
    }
  }

  lemma {:induction false} EachPreserves(es: seq<Legacy>, scope: Scope, env: Env, text: Node -> Canonical.Text)
    requires TranslateEach(es, scope).Some? && AllReady(es, scope, env, text)
    ensures RaisesAmong(es, env) ==> EvaluateAll(TranslateEach(es, scope).value, env).None?
    ensures !RaisesAmong(es, env) ==> EvalEach(es, env).Some? && AllMean(TranslateEach(es, scope).value, EvalEach(es, env).value, env)
    decreases es, 1
  {
    if es != [] {
      var n := |es| - 1;
      assert AllReady(es[..n], scope, env, text);
      EachPreserves(es[..n], scope, env, text);
      assert Ready(es[n], scope, env, text);
      TranslationPreserves(es[n], scope, env, text);
      var ns := TranslateEach(es, scope).value;
      assert ns[..n] == TranslateEach(es[..n], scope).value && ns[n] == Translate(es[n], scope).value;
    }
  }

  ghost predicate AllMean(ns: seq<Node>, vs: seq<Value>, env: Env) {
    |ns| == |vs| && forall i :: 0 <= i < |ns| ==> Means(ns[i], vs[i], env)
  }

  lemma UnaryMeans(op: UnaryOp, e: Legacy, n: Node, scope: Scope, env: Env, text: Node -> Canonical.Text)
    requires UnaryNode(op, n).Some? && TypeOf(UnaryNode(op, n).value, scope, text).Some? && Agrees(e, n, env)
    requires op.Plus? ==> n.valueType == Integer
    ensures Agrees(Unary(op, e), UnaryNode(op, n).value, env)
  {
    if Raises(e, env) {
      UnaryRaises(op, n, env);
    } else {
      UnaryValue(op, Eval(e, env).value, n, scope, env, text);
    }
  }

  lemma UnaryRaises(op: UnaryOp, n: Node, env: Env)
    requires UnaryNode(op, n).Some? && Evaluate(n, env).None?
    ensures Evaluate(UnaryNode(op, n).value, env).None?
  {
    if op.NotOp? { NoneAmong([n], 0, env); }
    if op.Minus? { NoneAmong([Literal(Int(0), Integer), n], 1, env); }
  }

  lemma UnaryValue(op: UnaryOp, v: Value, n: Node, scope: Scope, env: Env, text: Node -> Canonical.Text)
    requires UnaryNode(op, n).Some? && TypeOf(UnaryNode(op, n).value, scope, text).Some? && Means(n, v, env)
    requires op.Plus? ==> n.valueType == Integer
    ensures ApplyUnary(op, v).Some? && Means(UnaryNode(op, n).value, ApplyUnary(op, v).value, env)
  {
    match op
    case NotOp =>
      SingleType(Not, n, Boolean, scope, text);
      PlainErase(v, Boolean);
      EvaluateAllAt([n], [v], env);
    case Minus =>
      var zero := Literal(Int(0), Integer);
      PairTypes(SubOp, zero, n, Integer, scope, text);
      PlainErase(v, Integer);
      EvaluateAllAt([zero, n], [Int(0), v], env);
    case Plus =>
      PlainErase(v, Integer);
    case OtherUnary =>
  }

  lemma UnaryOperand(op: UnaryOp, n: Node, scope: Scope, text: Node -> Canonical.Text)
    requires UnaryNode(op, n).Some? && TypeOf(UnaryNode(op, n).value, scope, text).Some?
    ensures TypeOf(n, scope, text).Some?
  {
    match op
    case NotOp => SingleType(Not, n, Boolean, scope, text);
    case Minus => PairTypes(SubOp, Literal(Int(0), Integer), n, Integer, scope, text);
    case Plus =>
    case OtherUnary =>
  }

  lemma UnaryParts(op: UnaryOp, operand: Legacy, scope: Scope, env: Env, text: Node -> Canonical.Text)
    requires Ready(Unary(op, operand), scope, env, text)
    ensures Ready(operand, scope, env, text)
  {
    ChildInFragment(Unary(op, operand), operand, 0, scope);
    UnaryOperand(op, Translate(operand, scope).value, scope, text);
  }

  lemma ArithmeticMeans(op: BinaryOp, left: Legacy, right: Legacy, a: Node, b: Node, env: Env)
    requires !op.OtherBinary? && a.valueType == Integer && b.valueType == Integer && Agrees(left, a, env) && Agrees(right, b, env)
    ensures Agrees(Binary(op, left, right), Operator(ArithmeticOp(op), [a, b], Integer), env)
  {
    if Raises(left, env) {
      NoneAmong([a, b], 0, env);
    } else if Raises(right, env) {
      NoneAmong([a, b], 1, env);
    } else {
      var v, w := Eval(left, env).value, Eval(right, env).value;
      PlainErase(v, Integer);
      PlainErase(w, Integer);
      EvaluateAllAt([a, b], [v, w], env);
    }
  }

  lemma BinaryParts(op: BinaryOp, left: Legacy, right: Legacy, scope: Scope, env: Env, text: Node -> Canonical.Text)
    requires Ready(Binary(op, left, right), scope, env, text)
    ensures Ready(left, scope, env, text) && Ready(right, scope, env, text) && !op.OtherBinary?
    ensures Translate(left, scope).value.valueType == Integer && Translate(right, scope).value.valueType == Integer
  {
    ChildInFragment(Binary(op, left, right), left, 0, scope);
    ChildInFragment(Binary(op, left, right), right, 1, scope);
    PairTypes(ArithmeticOp(op), Translate(left, scope).value, Translate(right, scope).value, Integer, scope, text);
  }

  lemma ChoiceMeans(test: Legacy, body: Legacy, orelse: Legacy, t: Node, b: Node, o: Node, env: Env)
    requires t.valueType == Boolean && b.valueType == o.valueType
    requires Agrees(test, t, env) && Agrees(body, b, env) && Agrees(orelse, o, env)
    ensures Agrees(IfExp(test, body, orelse), Operator(IfThenElse, [t, b, o], b.valueType), env)
  {
    if Raises(test, env) || Raises(body, env) || Raises(orelse, env) {
      SomeRaisesOfThree(t, b, o, env);
    } else {
      ChoiceValue(t, b, o, Eval(test, env).value, Eval(body, env).value, Eval(orelse, env).value, env);
    }
  }

  lemma SomeRaisesOfThree(t: Node, b: Node, o: Node, env: Env)
    requires Evaluate(t, env).None? || Evaluate(b, env).None? || Evaluate(o, env).None?
    ensures EvaluateAll([t, b, o], env).None?
  {
    NoneAmong([t, b, o], if Evaluate(t, env).None? then 0 else if Evaluate(b, env).None? then 1 else 2, env);
  }

  lemma ChoiceValue(t: Node, b: Node, o: Node, u: Value, v: Value, w: Value, env: Env)
    requires t.valueType == Boolean && b.valueType == o.valueType && Means(t, u, env) && Means(b, v, env) && Means(o, w, env)
    ensures Means(Operator(IfThenElse, [t, b, o], b.valueType), if Truth(u) then v else w, env)
  {
    PlainErase(u, Boolean);
    EvaluateAllAt([t, b, o], [Erase(u), Erase(v), Erase(w)], env);
  }

  lemma IfParts(test: Legacy, body: Legacy, orelse: Legacy, scope: Scope, env: Env, text: Node -> Canonical.Text)
    requires Ready(IfExp(test, body, orelse), scope, env, text)
    ensures Ready(test, scope, env, text) && Ready(body, scope, env, text) && Ready(orelse, scope, env, text)
    ensures Translate(test, scope).value.valueType == Boolean
    ensures Translate(body, scope).value.valueType == Translate(orelse, scope).value.valueType
  {
    var e := IfExp(test, body, orelse);
    ChildInFragment(e, test, 0, scope);
    ChildInFragment(e, body, 1, scope);
    ChildInFragment(e, orelse, 2, scope);
    var b := Translate(body, scope).value;
    TripleTypes(IfThenElse, Translate(test, scope).value, b, Translate(orelse, scope).value, b.valueType, scope, text);
  }

  lemma BoolOpParts(conjunction: bool, values: seq<Legacy>, scope: Scope, env: Env, text: Node -> Canonical.Text)
    requires Ready(BoolOp(conjunction, values), scope, env, text)
    ensures TranslateEach(values, scope).Some? && AllReady(values, scope, env, text)
    ensures forall i :: 0 <= i < |values| ==> TranslateEach(values, scope).value[i].valueType == Boolean
  {
    var args := TranslateEach(values, scope).value;
    var op := if conjunction then And else Or;
    BooleanArguments(op, args, scope, text);
    TranslateEachAt(values, scope);
    ArgumentTypes(op, args, Boolean, scope, text);
    forall i | 0 <= i < |values| ensures Ready(values[i], scope, env, text) {
      ChildInFragment(BoolOp(conjunction, values), values[i], i, scope);
      assert TypeOf(args[i], scope, text).Some?;
    }
  }

  lemma BoolOpPreserves(conjunction: bool, values: seq<Legacy>, scope: Scope, env: Env, text: Node -> Canonical.Text)
    requires Ready(BoolOp(conjunction, values), scope, env, text)
    ensures Agrees(BoolOp(conjunction, values), Translate(BoolOp(conjunction, values), scope).value, env)
    decreases BoolOp(conjunction, values), 0
  {
    BoolOpParts(conjunction, values, scope, env, text);
    EachPreserves(values, scope, env, text);
    if !RaisesAmong(values, env) {
      BooleansMean(if conjunction then And else Or, TranslateEach(values, scope).value, EvalEach(values, env).value, env);
    }
  }

  lemma BooleanArguments(op: Op, args: seq<Node>, scope: Scope, text: Node -> Canonical.Text)
    requires (op.And? || op.Or?) && TypeOf(Operator(op, args, Boolean), scope, text).Some?
    ensures TypesOf(args, scope, text).Some?
    ensures forall i :: 0 <= i < |args| ==> args[i].valueType == Boolean
  {
    ArgumentTypes(op, args, Boolean, scope, text);
  }

  lemma BooleansMean(op: Op, args: seq<Node>, vs: seq<Value>, env: Env)
    requires op.And? || op.Or?
    requires AllMean(args, vs, env) && forall i :: 0 <= i < |args| ==> args[i].valueType == Boolean
    ensures Evaluate(Operator(op, args, Boolean), env) == Apply(op, vs)
  {
    forall i | 0 <= i < |vs| ensures Evaluate(args[i], env) == Some(vs[i]) {
      PlainErase(vs[i], Boolean);
    }
    EvaluateAllAt(args, vs, env);
  }

  lemma DisplayParts(kind: Kind, elts: seq<Legacy>, scope: Scope, env: Env, text: Node -> Canonical.Text)
    requires Ready(Display(kind, elts), scope, env, text)
    ensures TranslateEach(elts, scope).Some? && elts != [] && AllReady(elts, scope, env, text)
    ensures var ns := TranslateEach(elts, scope).value; forall i :: 0 <= i < |elts| ==> ns[i].valueType == ns[0].valueType
  {
    var ns := TranslateEach(elts, scope).value;
    TypesAt(ns, scope, text);
    TranslateEachAt(elts, scope);
    forall i | 0 <= i < |elts| ensures Ready(elts[i], scope, env, text) {
      ChildInFragment(Display(kind, elts), elts[i], i, scope);
      assert TypeOf(ns[i], scope, text).Some?;
    }
  }

  /** The items that nodes of one type mean, evaluated together. */
  lemma ItemsMean(ns: seq<Node>, items: seq<Value>, t: Type, env: Env)
    requires AllMean(ns, items, env) && forall i :: 0 <= i < |ns| ==> ns[i].valueType == t
    ensures EvaluateAll(ns, env) == Some(EraseAll(items))
    ensures forall i :: 0 <= i < |items| ==> HasType(EraseAll(items)[i], t)
  {
    forall i | 0 <= i < |items| ensures HasType(EraseAll(items)[i], t) && Evaluate(ns[i], env) == Some(EraseAll(items)[i]) {
      assert Means(ns[i], items[i], env);
    }
    EvaluateAllAt(ns, EraseAll(items), env);
  }

  /** Without tuples and set objects among them, items form a set on one side exactly when they do on the other. */
  lemma SetErased(items: seq<Value>, t: Type)
    requires AllWithoutTuples(items) && forall i :: 0 <= i < |items| ==> !IsSetObject(items[i])
    requires forall i :: 0 <= i < |items| ==> HasType(EraseAll(items)[i], t)
    ensures MakeSet(SetKind, items).None? <==> MakeSet(FrozenKind, EraseAll(items)).None?
    ensures MakeSet(SetKind, items).Some? ==>
      var s := Erase(MakeSet(SetKind, items).value); MakeSet(FrozenKind, EraseAll(items)) == Some(s) && HasType(s, SetOf(t))
  {
    forall i | 0 <= i < |items| ensures Hashable(EraseAll(items)[i]) <==> Hashable(items[i]) {
    }
    DistinctErased(items);
    DistinctTyped(EraseAll(items), t);
    assert Erase(Coll(SetKind, Distinct(items))).items == EraseAll(Distinct(items));
  }

  lemma DisplayPreserves(kind: Kind, elts: seq<Legacy>, scope: Scope, env: Env, text: Node -> Canonical.Text)
    requires Ready(Display(kind, elts), scope, env, text)
    ensures Agrees(Display(kind, elts), Translate(Display(kind, elts), scope).value, env)
    decreases Display(kind, elts), 0
  {
    DisplayParts(kind, elts, scope, env, text);
    EachPreserves(elts, scope, env, text);
    DisplayMeans(kind, elts, scope, env);
  }

  lemma DisplayMeans(kind: Kind, elts: seq<Legacy>, scope: Scope, env: Env)
    requires Translate(Display(kind, elts), scope).Some? && Allowed(Display(kind, elts), scope) && Fits(env, scope)
    requires var ns := TranslateEach(elts, scope).value;
      && (forall i :: 0 <= i < |elts| ==> ns[i].valueType == ns[0].valueType)
      && (RaisesAmong(elts, env) ==> EvaluateAll(ns, env).None?)
      && (!RaisesAmong(elts, env) ==> EvalEach(elts, env).Some? && AllMean(ns, EvalEach(elts, env).value, env))
    ensures Agrees(Display(kind, elts), Translate(Display(kind, elts), scope).value, env)
  {
    if !RaisesAmong(elts, env) {
      var ns, items := TranslateEach(elts, scope).value, EvalEach(elts, env).value;
      ItemsMean(ns, items, ns[0].valueType, env);
      if kind.SetKind? {
        TupleFreeValues(elts, scope, env);
        NoSetValues(elts, scope, env);
        SetErased(items, ns[0].valueType);
        SetDisplayOutcomes(elts, items, ns, scope, env);
      } else {
        SequenceDisplay(kind, elts, items, ns, env);
      }
    }
  }

  lemma SequenceDisplay(kind: Kind, elts: seq<Legacy>, items: seq<Value>, ns: seq<Node>, env: Env)
    requires EvalEach(elts, env) == Some(items) && !RaisesAmong(elts, env) && ns != [] && !IsSet(kind)
    requires EvaluateAll(ns, env) == Some(EraseAll(items))
    requires forall i :: 0 <= i < |items| ==> HasType(EraseAll(items)[i], ns[0].valueType)
    ensures var t := ns[0].valueType; Agrees(Display(kind, elts), Collection(false, t, ns, ListOf(t)), env)
  {
    assert Erase(Coll(kind, items)) == Coll(ListKind, EraseAll(items));
  }

  lemma ComparisonOperands(op: CompareOp, left: Node, right: Node, scope: Scope, text: Node -> Canonical.Text)
    requires Comparison(op, left, right).Some? && TypeOf(Comparison(op, left, right).value, scope, text).Some?
    ensures TypeOf(left, scope, text).Some? && TypeOf(right, scope, text).Some?
    ensures OperatorType(ComparisonOp(op).value, [left.valueType, right.valueType]).Some?
  {
    var plain := Operator(ComparisonOp(op).value, [left, right], Boolean);
    if op.NotWithin? { SingleType(Not, plain, Boolean, scope, text); }
    PairTypes(plain.op, left, right, Boolean, scope, text);
  }

  ghost predicate AllHold(bs: seq<bool>) {
    forall i :: 0 <= i < |bs| ==> bs[i]
  }

  ghost predicate AllValid(ns: seq<Node>, scope: Scope, text: Node -> Canonical.Text) {
    forall i :: 0 <= i < |ns| ==> TypeOf(ns[i], scope, text).Some?
  }

  /** The nodes evaluate to the given Booleans. */
  ghost predicate EvaluateToBooleans(ns: seq<Node>, bs: seq<bool>, env: Env) {
    |bs| == |ns| && forall i :: 0 <= i < |ns| ==> Evaluate(ns[i], env) == Some(Bool(bs[i]))
  }

  ghost predicate AllInFragment(es: seq<Legacy>, scope: Scope) {
    forall i :: 0 <= i < |es| ==> InFragment(es[i], scope)
  }

  ghost predicate ChainReady(first: Legacy, ops: seq<CompareOp>, comparators: seq<Legacy>, scope: Scope, env: Env, text: Node -> Canonical.Text) {
    && Translate(first, scope).Some? && Fits(env, scope)
    && TranslateChain(Translate(first, scope).value, ops, comparators, scope).Some?
    && AllValid(TranslateChain(Translate(first, scope).value, ops, comparators, scope).value, scope, text)
    && FreeLinks(first, ops, comparators) && AllInFragment(comparators, scope)
  }

  lemma ChainUnfolds(left: Node, ops: seq<CompareOp>, comparators: seq<Legacy>, scope: Scope)
    requires TranslateChain(left, ops, comparators, scope).Some? && ops != [] && comparators != []
    ensures var right := Translate(comparators[0], scope);
      && right.Some? && Comparison(ops[0], left, right.value).Some?
      && TranslateChain(right.value, ops[1..], comparators[1..], scope).Some?
      && TranslateChain(left, ops, comparators, scope).value ==
           [Comparison(ops[0], left, right.value).value] + TranslateChain(right.value, ops[1..], comparators[1..], scope).value
  {
  }

  lemma AllValidCons(n: Node, rest: seq<Node>, scope: Scope, text: Node -> Canonical.Text)
    requires AllValid([n] + rest, scope, text)
    ensures TypeOf(n, scope, text).Some? && AllValid(rest, scope, text)
  {
    var ns := [n] + rest;
    assert ns[0] == n;
    forall i | 0 <= i < |rest| ensures TypeOf(rest[i], scope, text).Some? {
      assert rest[i] == ns[i + 1];
    }
  }

  lemma ChainParts(first: Legacy, ops: seq<CompareOp>, comparators: seq<Legacy>, scope: Scope, env: Env, text: Node -> Canonical.Text)
    requires ChainReady(first, ops, comparators, scope, env, text) && ops != [] && comparators != []
    ensures TypeOf(Translate(first, scope).value, scope, text).Some? && Ready(comparators[0], scope, env, text)
    ensures var left, right := Translate(first, scope).value, Translate(comparators[0], scope).value;
      && Comparison(ops[0], left, right).Some? && TypeOf(Comparison(ops[0], left, right).value, scope, text).Some?
      && (ComparesValues(ops[0]) ==> TupleFree(first) && TupleFree(comparators[0]))
      && ChainReady(comparators[0], ops[1..], comparators[1..], scope, env, text)
  {
    var left := Translate(first, scope).value;
    ChainUnfolds(left, ops, comparators, scope);
    var right := Translate(comparators[0], scope).value;
    AllValidCons(Comparison(ops[0], left, right).value, TranslateChain(right, ops[1..], comparators[1..], scope).value, scope, text);
    ComparisonOperands(ops[0], left, right, scope, text);
    assert InFragment(comparators[0], scope);
  }

  /** One link of a chain: its node raises exactly when a comparator or the comparison does. */
  lemma LinkMeans(op: CompareOp, first: Legacy, second: Legacy, scope: Scope, env: Env, text: Node -> Canonical.Text)
    requires Translate(first, scope).Some? && Translate(second, scope).Some? && Fits(env, scope)
    requires var n := Comparison(op, Translate(first, scope).value, Translate(second, scope).value);
      n.Some? && TypeOf(n.value, scope, text).Some?
    requires ComparesValues(op) ==> TupleFree(first) && TupleFree(second)
    requires !Raises(first, env) && Agrees(first, Translate(first, scope).value, env)
    requires Agrees(second, Translate(second, scope).value, env)
    ensures var n := Comparison(op, Translate(first, scope).value, Translate(second, scope).value).value;
      Evaluate(n, env) == if Raises(second, env) then None
                          else Answer(CompareValues(op, Eval(first, env).value, Eval(second, env).value))
  {
    var left, right := Translate(first, scope).value, Translate(second, scope).value;
    if Raises(second, env) {
      LinkRaised(op, left, right, env);
    } else {
      if ComparesValues(op) {
        TupleFreeValue(first, scope, env);
        TupleFreeValue(second, scope, env);
      }
      ComparisonMeans(op, left, right, Eval(first, env).value, Eval(second, env).value, scope, env, text);
    }
  }

  lemma LinkRaised(op: CompareOp, left: Node, right: Node, env: Env)
    requires Comparison(op, left, right).Some? && (Evaluate(left, env).None? || Evaluate(right, env).None?)
    ensures Evaluate(Comparison(op, left, right).value, env).None?
  {
    NoneAmong([left, right], if Evaluate(left, env).None? then 0 else 1, env);
    if op.NotWithin? { NoneAmong([Operator(In, [left, right], Boolean)], 0, env); }
  }

  /** The legacy chain stops early and the translated conjunction does not, but unless something along the
      chain raises they agree. */
  lemma {:induction false} ChainPreserves(first: Legacy, ops: seq<CompareOp>, comparators: seq<Legacy>,
                                          scope: Scope, env: Env, text: Node -> Canonical.Text) returns (bs: seq<bool>)
    requires ChainReady(first, ops, comparators, scope, env, text)
    requires !Raises(first, env) && Agrees(first, Translate(first, scope).value, env)
    ensures var cs := TranslateChain(Translate(first, scope).value, ops, comparators, scope).value;
      if RaisesAlong(first, ops, comparators, env) then SomeRaises(cs, env)
      else EvaluateToBooleans(cs, bs, env) && EvalChain(Eval(first, env).value, ops, comparators, env) == Some(Bool(AllHold(bs)))
    decreases comparators, 2
  {
    bs := [];
    if ops != [] && comparators != [] {
      var second := comparators[0];
      ChainParts(first, ops, comparators, scope, env, text);
      TranslationPreserves(second, scope, env, text);
      LinkMeans(ops[0], first, second, scope, env, text);
      ChainUnfolds(Translate(first, scope).value, ops, comparators, scope);
      if Raises(second, env) || LinkRaises(ops[0], first, second, env) {
        SomeRaisesFirst(TranslateChain(Translate(first, scope).value, ops, comparators, scope).value, env);
      } else {
        var later := ChainPreserves(second, ops[1..], comparators[1..], scope, env, text);
        bs := ChainComposes(first, ops, comparators, scope, env, later);
      }
    }
  }

  ghost predicate SomeRaises(ns: seq<Node>, env: Env) {
    exists i :: 0 <= i < |ns| && Evaluate(ns[i], env).None?
  }

  lemma SomeRaisesFirst(ns: seq<Node>, env: Env)
    requires ns != [] && Evaluate(ns[0], env).None?
    ensures SomeRaises(ns, env)
  {
  }

  lemma SomeRaisesLater(n: Node, rest: seq<Node>, env: Env)
    requires SomeRaises(rest, env)
    ensures SomeRaises([n] + rest, env)
  {
    var i :| 0 <= i < |rest| && Evaluate(rest[i], env).None?;
    assert ([n] + rest)[i + 1] == rest[i];
  }

  lemma ChainComposes(first: Legacy, ops: seq<CompareOp>, comparators: seq<Legacy>,
                      scope: Scope, env: Env, later: seq<bool>) returns (bs: seq<bool>)
    requires Translate(first, scope).Some? && Eval(first, env).Some? && ops != [] && comparators != []
    requires TranslateChain(Translate(first, scope).value, ops, comparators, scope).Some?
    requires Translate(comparators[0], scope).Some? && Comparison(ops[0], Translate(first, scope).value, Translate(comparators[0], scope).value).Some?
    requires !Raises(comparators[0], env) && !LinkRaises(ops[0], first, comparators[0], env)
    requires Evaluate(Comparison(ops[0], Translate(first, scope).value, Translate(comparators[0], scope).value).value, env)
               == Answer(CompareValues(ops[0], Eval(first, env).value, Eval(comparators[0], env).value))
    requires TranslateChain(Translate(comparators[0], scope).value, ops[1..], comparators[1..], scope).Some?
    requires var cs := TranslateChain(Translate(comparators[0], scope).value, ops[1..], comparators[1..], scope).value;
      if RaisesAlong(comparators[0], ops[1..], comparators[1..], env) then SomeRaises(cs, env)
      else EvaluateToBooleans(cs, later, env) && EvalChain(Eval(comparators[0], env).value, ops[1..], comparators[1..], env) == Some(Bool(AllHold(later)))
    ensures var cs := TranslateChain(Translate(first, scope).value, ops, comparators, scope).value;
      if RaisesAlong(first, ops, comparators, env) then SomeRaises(cs, env)
      else EvaluateToBooleans(cs, bs, env) && EvalChain(Eval(first, env).value, ops, comparators, env) == Some(Bool(AllHold(bs)))
  {
    var left, right := Translate(first, scope).value, Translate(comparators[0], scope).value;
    var a, b := Eval(first, env).value, Eval(comparators[0], env).value;
    ChainUnfolds(left, ops, comparators, scope);
    bs := [CompareValues(ops[0], a, b).value] + later;
    if RaisesAlong(comparators[0], ops[1..], comparators[1..], env) {
      SomeRaisesLater(Comparison(ops[0], left, right).value, TranslateChain(right, ops[1..], comparators[1..], scope).value, env);
    } else {
      ChainStep(a, b, ops, comparators, env);
      ChainResult(bs, CompareValues(ops[0], a, b).value, later);
    }
  }

  lemma ChainStep(a: Value, b: Value, ops: seq<CompareOp>, comparators: seq<Legacy>, env: Env)
    requires ops != [] && comparators != [] && !ops[0].OtherCompare?
    requires Eval(comparators[0], env) == Some(b) && CompareValues(ops[0], a, b).Some?
    ensures EvalChain(a, ops, comparators, env) ==
              if CompareValues(ops[0], a, b).value then EvalChain(b, ops[1..], comparators[1..], env) else Some(Bool(false))
  {
  }

  lemma ChainResult(bs: seq<bool>, head: bool, later: seq<bool>)
    requires bs == [head] + later
    ensures AllHold(bs) <==> head && AllHold(later)
  {
    if AllHold(bs) {
      forall i | 0 <= i < |later| ensures later[i] {
        assert bs[i + 1];
      }
      assert bs[0];
    }
  }

  lemma CompareParts(first: Legacy, ops: seq<CompareOp>, comparators: seq<Legacy>, scope: Scope, env: Env, text: Node -> Canonical.Text)
    requires Ready(Compare(first, ops, comparators), scope, env, text)
    ensures Ready(first, scope, env, text) && ChainReady(first, ops, comparators, scope, env, text) && ops != [] && comparators != []
  {
    var e := Compare(first, ops, comparators);
    ChildInFragment(e, first, 0, scope);
    forall i | 0 <= i < |comparators| ensures InFragment(comparators[i], scope) {
      ChildInFragment(e, comparators[i], i + 1, scope);
    }
    var cs := TranslateChain(Translate(first, scope).value, ops, comparators, scope).value;
    if |cs| != 1 { ArgumentTypes(And, cs, Boolean, scope, text); }
    assert AllValid(cs, scope, text) && cs != [];
    ChainParts(first, ops, comparators, scope, env, text);
  }

  lemma ComparePreserves(first: Legacy, ops: seq<CompareOp>, comparators: seq<Legacy>, scope: Scope, env: Env, text: Node -> Canonical.Text)
    requires Ready(Compare(first, ops, comparators), scope, env, text)
    ensures Agrees(Compare(first, ops, comparators), Translate(Compare(first, ops, comparators), scope).value, env)
    decreases Compare(first, ops, comparators), 0
  {
    CompareParts(first, ops, comparators, scope, env, text);
    TranslationPreserves(first, scope, env, text);
    var cs := TranslateChain(Translate(first, scope).value, ops, comparators, scope).value;
    if Raises(first, env) {
      FirstRaises(first, ops, comparators, scope, env);
    } else {
      var bs := ChainPreserves(first, ops, comparators, scope, env, text);
      if RaisesAlong(first, ops, comparators, env) {
        ConjunctionRaises(cs, env);
      } else {
        ConjunctionMeans(cs, bs, env);
        ComparisonType(first, ops, comparators, scope);
      }
    }
  }

  lemma ConjunctionRaises(cs: seq<Node>, env: Env)
    requires SomeRaises(cs, env)
    ensures Evaluate(Operator(And, cs, Boolean), env).None? && (|cs| == 1 ==> Evaluate(cs[0], env).None?)
  {
    var i :| 0 <= i < |cs| && Evaluate(cs[i], env).None?;
    NoneAmong(cs, i, env);
  }

  lemma FirstRaises(first: Legacy, ops: seq<CompareOp>, comparators: seq<Legacy>, scope: Scope, env: Env)
    requires Translate(Compare(first, ops, comparators), scope).Some? && ops != [] && comparators != []
    requires Evaluate(Translate(first, scope).value, env).None?
    ensures Evaluate(Translate(Compare(first, ops, comparators), scope).value, env).None?
  {
    var left := Translate(first, scope).value;
    ChainUnfolds(left, ops, comparators, scope);
    var right := Translate(comparators[0], scope).value;
    LinkRaised(ops[0], left, right, env);
    var cs := TranslateChain(left, ops, comparators, scope).value;
    SomeRaisesFirst(cs, env);
    ConjunctionRaises(cs, env);
  }

  lemma ComparisonType(first: Legacy, ops: seq<CompareOp>, comparators: seq<Legacy>, scope: Scope)
    requires Translate(Compare(first, ops, comparators), scope).Some?
    ensures Translate(Compare(first, ops, comparators), scope).value.valueType == Boolean
  {
    var cs := TranslateChain(Translate(first, scope).value, ops, comparators, scope).value;
    if |cs| == 1 { ChainUnfolds(Translate(first, scope).value, ops, comparators, scope); }
  }

  lemma ConjunctionMeans(cs: seq<Node>, bs: seq<bool>, env: Env)
    requires EvaluateToBooleans(cs, bs, env)
    ensures Evaluate(Operator(And, cs, Boolean), env) == Some(Bool(AllHold(bs)))
    ensures |cs| == 1 ==> Evaluate(cs[0], env) == Some(Bool(AllHold(bs)))
  {
    var vs := seq(|bs|, i requires 0 <= i < |bs| => Bool(bs[i]));
    EvaluateAllAt(cs, vs, env);
    assert forall i :: 0 <= i < |vs| ==> Truth(vs[i]) == bs[i];
  }

  /** For a Boolean, integer or string the results are equal. */
  lemma PlainResultsEqual(e: Legacy, scope: Scope, env: Env, text: Node -> Canonical.Text)
    requires Ready(e, scope, env, text) && PlainOperand(e, scope)
    ensures Evaluate(Translate(e, scope).value, env) == if Raises(e, env) then None else Eval(e, env)
  {
    TranslationPreserves(e, scope, env, text);
    if !Raises(e, env) { PlainErase(Eval(e, env).value, TypeIn(e, scope).value); }
  }

  // ----- outside the fragment -----

  /** A single comparison of operands that do not raise. */
  lemma SingleComparison(op: CompareOp, left: Legacy, right: Legacy, scope: Scope, env: Env, text: Node -> Canonical.Text)
    requires Ready(left, scope, env, text) && Ready(right, scope, env, text) && !op.OtherCompare?
    requires !Raises(left, env) && !Raises(right, env)
    ensures Eval(left, env).Some? && Eval(right, env).Some?
    ensures var a, b, e := Eval(left, env).value, Eval(right, env).value, Compare(left, [op], [right]);
      && Translate(e, scope) == Comparison(op, Translate(left, scope).value, Translate(right, scope).value)
      && Eval(e, env) == Answer(CompareValues(op, a, b))
      && Translate(e, scope).Some? && Evaluate(Translate(e, scope).value, env) == Answer(CompareValues(op, Erase(a), Erase(b)))
  {
    TranslationPreserves(left, scope, env, text);
    TranslationPreserves(right, scope, env, text);
    var a, b, e := Eval(left, env).value, Eval(right, env).value, Compare(left, [op], [right]);
    var l, r := Translate(left, scope).value, Translate(right, scope).value;
    EvaluateAllAt([l, r], [Erase(a), Erase(b)], env);
    NodeCompares(op, l, r, a, b, env);
    SingleTranslated(left, [op], [right], scope);
    SingleEvaluated(a, [op], [right], env);
    CompareEvaluated(left, [op], [right], env);
  }

  lemma SingleTranslated(left: Legacy, ops: seq<CompareOp>, rights: seq<Legacy>, scope: Scope)
    requires |ops| == 1 && |rights| == 1 && Translate(left, scope).Some? && Translate(rights[0], scope).Some? && !ops[0].OtherCompare?
    ensures Translate(Compare(left, ops, rights), scope) ==
              Comparison(ops[0], Translate(left, scope).value, Translate(rights[0], scope).value)
  {
    ChainOfOne(Translate(left, scope).value, ops, rights, scope);
  }

  lemma ChainOfOne(l: Node, ops: seq<CompareOp>, rights: seq<Legacy>, scope: Scope)
    requires |ops| == 1 && |rights| == 1 && Translate(rights[0], scope).Some? && !ops[0].OtherCompare?
    ensures TranslateChain(l, ops, rights, scope) == Some([Comparison(ops[0], l, Translate(rights[0], scope).value).value])
  {
    var r := Translate(rights[0], scope).value;
    var one := Comparison(ops[0], l, r).value;
    NoMoreLinks(r, ops[1..], rights[1..], scope);
    assert [one] + [] == [one];
  }

  lemma NoMoreLinks(l: Node, ops: seq<CompareOp>, rights: seq<Legacy>, scope: Scope)
    requires ops == []
    ensures TranslateChain(l, ops, rights, scope) == Some([])
  {
  }

  lemma SingleEvaluated(a: Value, ops: seq<CompareOp>, comparators: seq<Legacy>, env: Env)
    requires |ops| == 1 && |comparators| == 1 && Eval(comparators[0], env).Some? && !ops[0].OtherCompare?
    ensures EvalChain(a, ops, comparators, env) == Answer(CompareValues(ops[0], a, Eval(comparators[0], env).value))
  {
    var b := Eval(comparators[0], env).value;
    ChainEnds(b, ops[1..], comparators[1..], env);
  }

  lemma ChainEnds(a: Value, ops: seq<CompareOp>, comparators: seq<Legacy>, env: Env)
    requires ops == []
    ensures EvalChain(a, ops, comparators, env) == Some(Bool(true))
  {
  }

  lemma CompareEvaluated(first: Legacy, ops: seq<CompareOp>, comparators: seq<Legacy>, env: Env)
    requires Eval(first, env).Some?
    ensures Eval(Compare(first, ops, comparators), env) == EvalChain(Eval(first, env).value, ops, comparators, env)
  {
  }

  /** An equality test changes its answer exactly when the corresponding values are equal and a tuple faces
      a list somewhere. */
  lemma EqualityChangesExactly(op: CompareOp, left: Legacy, right: Legacy, scope: Scope, env: Env, text: Node -> Canonical.Text)
    requires Ready(left, scope, env, text) && Ready(right, scope, env, text) && (op.Equals? || op.NotEquals?)
    requires !Raises(left, env) && !Raises(right, env)
    ensures Eval(left, env).Some? && Eval(right, env).Some?
    ensures var a, b, e := Eval(left, env).value, Eval(right, env).value, Compare(left, [op], [right]);
      Translate(e, scope).Some? &&
      (Evaluate(Translate(e, scope).value, env) != Eval(e, env) <==> Equal(Erase(a), Erase(b)) && !SameShape(a, b))
  {
    SingleComparison(op, left, right, scope, env, text);
    EqualityExactly(Eval(left, env).value, Eval(right, env).value);
  }

  /** The collection has items that correspond to the same value as `a`, but none of the same shape. */
  ghost predicate OnlyLookalikes(a: Value, items: seq<Value>) {
    && (exists i :: 0 <= i < |items| && Equal(Erase(items[i]), Erase(a)))
    && (forall i :: 0 <= i < |items| && Equal(Erase(items[i]), Erase(a)) ==> !SameShape(items[i], a))
  }

  lemma LookalikesExactly(a: Value, items: seq<Value>)
    ensures OnlyLookalikes(a, items) <==> Holds(EraseAll(items), Erase(a)) && !Holds(items, a)
    ensures Holds(items, a) ==> Holds(EraseAll(items), Erase(a))
  {
    forall i | 0 <= i < |items|
      ensures Equal(items[i], a) <==> Equal(EraseAll(items)[i], Erase(a)) && SameShape(items[i], a) {
      EqualityExactly(items[i], a);
    }
    if i :| 0 <= i < |items| && Equal(Erase(items[i]), Erase(a)) {
      assert Equal(EraseAll(items)[i], Erase(a));
    }
    if i :| 0 <= i < |items| && Equal(EraseAll(items)[i], Erase(a)) {
      assert Equal(Erase(items[i]), Erase(a));
    }
  }

  ghost predicate IsSequence(v: Value) {
    v.Coll? && !IsSet(v.kind)
  }

  /** A membership test changes its outcome exactly when a hashable tuple is looked up in a set, which then
      raises, or when only items of another shape are found. */
  lemma MembershipChangesExactly(op: CompareOp, left: Legacy, right: Legacy, scope: Scope, env: Env, text: Node -> Canonical.Text)
    requires Ready(left, scope, env, text) && Ready(right, scope, env, text) && (op.Within? || op.NotWithin?)
    requires !Raises(left, env) && !Raises(right, env) && IsCollection(TypeIn(right, scope).value)
    ensures Eval(left, env).Some? && Eval(right, env).Some? && Eval(right, env).value.Coll?
    ensures var a, c, e := Eval(left, env).value, Eval(right, env).value, Compare(left, [op], [right]);
      Translate(e, scope).Some? &&
      (Evaluate(Translate(e, scope).value, env) != Eval(e, env) <==>
        if IsSet(c.kind) && IsSequence(a) then Hashable(a) else OnlyLookalikes(a, c.items))
  {
    SingleComparison(op, left, right, scope, env, text);
    TranslationPreserves(right, scope, env, text);
    MemberChangesExactly(Eval(left, env).value, Eval(right, env).value);
  }

  lemma MemberChangesExactly(a: Value, c: Value)
    requires c.Coll?
    ensures Member(Erase(a), Erase(c)) != Member(a, c) <==>
              if IsSet(c.kind) && IsSequence(a) then Hashable(a) else OnlyLookalikes(a, c.items)
  {
    LookalikesExactly(a, c.items);
    assert Erase(c).items == EraseAll(c.items);
  }

  /** A frozen set comes from the environment, where there are no tuples. */
  lemma {:induction false} FrozenWithoutTuples(e: Legacy, scope: Scope, env: Env)
    requires Translate(e, scope).Some? && Fits(env, scope) && Eval(e, env).Some?
    requires !IsSequence(Eval(e, env).value) && !IsSetObject(Eval(e, env).value)
    ensures WithoutTuples(Eval(e, env).value)
  {
    match e
    case Name(id) => TypedWithoutTuples(env[id], scope[id]);
    case Compare(first, ops, comparators) => ChainBoolean(Eval(first, env).value, ops, comparators, env);
    case IfExp(_, body, orelse) =>
      if Eval(e, env) == Eval(body, env) { FrozenWithoutTuples(body, scope, env); } else { FrozenWithoutTuples(orelse, scope, env); }
    case _ =>
  }

  lemma {:induction false} FrozenItems(es: seq<Legacy>, scope: Scope, env: Env)
    requires TranslateEach(es, scope).Some? && Fits(env, scope) && EvalEach(es, env).Some?
    requires forall i :: 0 <= i < |es| ==> !IsSequence(EvalEach(es, env).value[i]) && !IsSetObject(EvalEach(es, env).value[i])
    ensures AllWithoutTuples(EvalEach(es, env).value)
    decreases |es|
  {
    if es != [] {
      var n := |es| - 1;
      var items := EvalEach(es, env).value;
      assert items[..n] == EvalEach(es[..n], env).value && items[n] == Eval(es[n], env).value;
      FrozenItems(es[..n], scope, env);
      FrozenWithoutTuples(es[n], scope, env);
    }
  }

  lemma SetNode(elts: seq<Legacy>, scope: Scope, text: Node -> Canonical.Text)
    requires var n := Translate(Display(SetKind, elts), scope); n.Some? && TypeOf(n.value, scope, text).Some?
    ensures var ns := TranslateEach(elts, scope).value;
      && ns != [] && (forall i :: 0 <= i < |ns| ==> ns[i].valueType == ns[0].valueType)
      && Translate(Display(SetKind, elts), scope) == Some(Collection(true, ns[0].valueType, ns, SetOf(ns[0].valueType)))
  {
    TypesAt(TranslateEach(elts, scope).value, scope, text);
  }

  ghost predicate SomeUnhashable(items: seq<Value>) {
    exists i :: 0 <= i < |items| && !Hashable(items[i])
  }

  ghost predicate SomeSequence(items: seq<Value>) {
    exists i :: 0 <= i < |items| && IsSequence(items[i])
  }

  /** Both sets can be formed and correspond, or neither can, exactly when the two conditions agree. */
  lemma SetsAgree(items: seq<Value>, t: Type)
    requires forall i :: 0 <= i < |items| ==> HasType(EraseAll(items)[i], t)
    requires (forall i :: 0 <= i < |items| ==> !IsSequence(items[i]) && !IsSetObject(items[i])) ==> AllWithoutTuples(items)
    ensures var legacy, typed := MakeSet(SetKind, items), MakeSet(FrozenKind, EraseAll(items));
      (if legacy.None? then typed.None? else typed == Some(Erase(legacy.value)) && HasType(Erase(legacy.value), SetOf(t)))
      <==> (SomeUnhashable(items) <==> SomeSequence(items))
  {
    forall i | 0 <= i < |items| ensures Hashable(EraseAll(items)[i]) <==> !IsSequence(items[i]) {
    }
    if !SomeUnhashable(items) && !SomeSequence(items) {
      SetErased(items, t);
    }
  }

  /** What the two evaluators make of a set display. */
  lemma SetDisplayOutcomes(elts: seq<Legacy>, items: seq<Value>, ns: seq<Node>, scope: Scope, env: Env)
    requires EvalEach(elts, env) == Some(items) && !RaisesAmong(elts, env) && ns != []
    requires EvaluateAll(ns, env) == Some(EraseAll(items))
    requires Translate(Display(SetKind, elts), scope) == Some(Collection(true, ns[0].valueType, ns, SetOf(ns[0].valueType)))
    ensures var legacy, typed := MakeSet(SetKind, items), MakeSet(FrozenKind, EraseAll(items));
      Agrees(Display(SetKind, elts), Translate(Display(SetKind, elts), scope).value, env) <==>
      if legacy.None? then typed.None? else typed == Some(Erase(legacy.value)) && HasType(Erase(legacy.value), SetOf(ns[0].valueType))
  {
    SetDisplayEval(elts, items, env);
    SetDisplayNode(ns, items, env);
  }

  lemma SetDisplayEval(elts: seq<Legacy>, items: seq<Value>, env: Env)
    requires EvalEach(elts, env) == Some(items) && !RaisesAmong(elts, env)
    ensures Eval(Display(SetKind, elts), env) == MakeSet(SetKind, items)
    ensures Raises(Display(SetKind, elts), env) <==> MakeSet(SetKind, items).None?
  {
  }

  lemma SetDisplayNode(ns: seq<Node>, items: seq<Value>, env: Env)
    requires EvaluateAll(ns, env) == Some(EraseAll(items)) && ns != []
    ensures var t := ns[0].valueType; Evaluate(Collection(true, t, ns, SetOf(t)), env) == MakeSet(FrozenKind, EraseAll(items))
  {
  }

  /** A set display keeps its meaning exactly when it raises on both sides or on neither: for Python an element
      must be hashable, for the translation it must not be a list, and tuples are lists there. */
  lemma SetDisplayExactly(elts: seq<Legacy>, scope: Scope, env: Env, text: Node -> Canonical.Text)
    requires AllReady(elts, scope, env, text) && Fits(env, scope) && !RaisesAmong(elts, env)
    requires var n := Translate(Display(SetKind, elts), scope); n.Some? && TypeOf(n.value, scope, text).Some?
    ensures EvalEach(elts, env).Some?
    ensures var items := EvalEach(elts, env).value;
      Agrees(Display(SetKind, elts), Translate(Display(SetKind, elts), scope).value, env) <==>
        (SomeUnhashable(items) <==> SomeSequence(items))
  {
    SetNode(elts, scope, text);
    EachPreserves(elts, scope, env, text);
    var ns, items := TranslateEach(elts, scope).value, EvalEach(elts, env).value;
    ItemsMean(ns, items, ns[0].valueType, env);
    if !SomeSequence(items) && forall i :: 0 <= i < |items| ==> !IsSetObject(items[i]) { FrozenItems(elts, scope, env); }
    SetsAgree(items, ns[0].valueType);
    SetDisplayOutcomes(elts, items, ns, scope, env);
  }

  function Singleton(kind: Kind, i: int): Legacy {
    Display(kind, [Constant(Int(i))])
  }

  lemma SingletonTranslates(kind: Kind, i: int, scope: Scope)
    requires kind.TupleKind? || kind.ListKind?
    ensures Translate(Singleton(kind, i), scope) == Some(Collection(false, Integer, [Literal(Int(i), Integer)], ListOf(Integer)))
  {
    var c, ns := [Constant(Int(i))], [Literal(Int(i), Integer)];
    assert c[..|c| - 1] == c[..0] && TranslateEach(c[..0], scope) == Some([]);
    assert Translate(c[0], scope) == Some(ns[0]) && [] + ns == ns;
    assert TranslateEach(c, scope) == Some(ns);
  }

  lemma SingletonMeans(kind: Kind, i: int, env: Env, scope: Scope)
    requires kind.TupleKind? || kind.ListKind?
    ensures Eval(Singleton(kind, i), env) == Some(Coll(kind, [Int(i)]))
    ensures Translate(Singleton(kind, i), scope).Some?
    ensures Evaluate(Translate(Singleton(kind, i), scope).value, env) == Some(Coll(ListKind, [Int(i)]))
  {
    SingletonTranslates(kind, i, scope);
    EvaluateAllAt([Literal(Int(i), Integer)], [Int(i)], env);
    var c := [Constant(Int(i))];
    assert c[..|c| - 1] == c[..0] && EvalEach(c[..0], env) == Some([]);
    assert Eval(c[0], env) == Some(Int(i)) && EvalEach(c, env) == Some([] + [Int(i)]);
  }

  /** A tuple never equals a list, but the translation makes lists of both. */
  lemma TupleEqualityChanges(i: int, env: Env, scope: Scope)
    ensures var e := Compare(Singleton(TupleKind, i), [Equals], [Singleton(ListKind, i)]);
      && Eval(e, env) == Some(Bool(false))
      && Translate(e, scope).Some? && Evaluate(Translate(e, scope).value, env) == Some(Bool(true))
  {
    SingletonMeans(TupleKind, i, env, scope);
    SingletonMeans(ListKind, i, env, scope);
    var comparators := [Singleton(ListKind, i)];
    var left, right := Translate(Singleton(TupleKind, i), scope).value, Translate(Singleton(ListKind, i), scope).value;
    assert TranslateChain(right, [Equals][1..], comparators[1..], scope) == Some([]);
    var one := Operator(Eq, [left, right], Boolean);
    assert Comparison(Equals, left, right) == Some(one) && [one] + [] == [one];
    assert TranslateChain(left, [Equals], comparators, scope) == Some([one]);
    EvaluateAllAt([left, right], [Coll(ListKind, [Int(i)]), Coll(ListKind, [Int(i)])], env);
    assert comparators[0] == Singleton(ListKind, i);
    assert CompareValues(Equals, Coll(TupleKind, [Int(i)]), Coll(ListKind, [Int(i)])) == Some(false);
    var e := Compare(Singleton(TupleKind, i), [Equals], comparators);
    assert Translate(e, scope) == Some(one);
    assert Equal(Int(i), Int(i)) && Equal(Coll(ListKind, [Int(i)]), Coll(ListKind, [Int(i)]));
  }

  lemma {:induction false} TypesOfAt(ns: seq<Node>, ts: seq<Type>, scope: Scope, text: Node -> Canonical.Text)
    requires |ns| == |ts| && forall i :: 0 <= i < |ns| ==> TypeOf(ns[i], scope, text) == Some(ts[i])
    ensures TypesOf(ns, scope, text) == Some(ts)
  {
    if ns != [] {
      var n := |ns| - 1;
      TypesOfAt(ns[..n], ts[..n], scope, text);
      assert ts == ts[..n] + [ts[n]];
    }
  }

  lemma SingletonValidates(i: int, scope: Scope, text: Node -> Canonical.Text)
    ensures TypeOf(Collection(false, Integer, [Literal(Int(i), Integer)], ListOf(Integer)), scope, text) == Some(ListOf(Integer))
  {
    TypesOfAt([Literal(Int(i), Integer)], [Integer], scope, text);
  }

  /** The translation of that comparison is nevertheless accepted by the validator. */
  lemma TupleEqualityValidates(i: int, scope: Scope, text: Node -> Canonical.Text)
    ensures var n := Translate(Singleton(TupleKind, i), scope);
      && n.Some? && n == Translate(Singleton(ListKind, i), scope)
      && TypeOf(Operator(Eq, [n.value, n.value], Boolean), scope, text) == Some(Boolean)
  {
    SingletonTranslates(TupleKind, i, scope);
    SingletonTranslates(ListKind, i, scope);
    SingletonValidates(i, scope, text);
    var n := Collection(false, Integer, [Literal(Int(i), Integer)], ListOf(Integer));
    EqualityValidates(n, ListOf(Integer), scope, text);
  }

  lemma EqualityValidates(n: Node, t: Type, scope: Scope, text: Node -> Canonical.Text)
    requires TypeOf(n, scope, text) == Some(t)
    ensures TypeOf(Operator(Eq, [n, n], Boolean), scope, text) == Some(Boolean)
  {
    TypesOfAt([n, n], [t, t], scope, text);
  }

  /** A branch that is not taken and would raise: looking a list up in a set. */
  function Skipping(): Legacy {
    IfExp(Constant(Bool(true)), Constant(Bool(true)), Lookup())
  }

  function Lookup(): Legacy {
    Compare(Name("xs"), [Within], [Name("s")])
  }

  lemma LookupRaises(scope: Scope, env: Env)
    requires "xs" in scope && scope["xs"] == ListOf(Integer) && "s" in scope && scope["s"] == SetOf(ListOf(Integer)) && Fits(env, scope)
    ensures Translate(Lookup(), scope) == Some(Operator(In, [Variable("xs", ListOf(Integer)), Variable("s", SetOf(ListOf(Integer)))], Boolean))
    ensures Evaluate(Translate(Lookup(), scope).value, env).None?
  {
    var xs, s := Name("xs"), Name("s");
    SingleTranslated(xs, [Within], [s], scope);
    var nodes := [Translate(xs, scope).value, Translate(s, scope).value];
    EvaluateAllAt(nodes, [env["xs"], env["s"]], env);
    assert !Hashable(env["xs"]) && Member(env["xs"], env["s"]).None?;
  }

  lemma LookupValidates(scope: Scope, text: Node -> Canonical.Text)
    requires "xs" in scope && scope["xs"] == ListOf(Integer) && "s" in scope && scope["s"] == SetOf(ListOf(Integer))
    ensures var l := Operator(In, [Variable("xs", ListOf(Integer)), Variable("s", SetOf(ListOf(Integer)))], Boolean);
      TypeOf(l, scope, text) == Some(Boolean)
  {
    var xs, s := Variable("xs", ListOf(Integer)), Variable("s", SetOf(ListOf(Integer)));
    TypesOfAt([xs, s], [xs.valueType, s.valueType], scope, text);
  }

  lemma ChoiceValidates(t: Node, b: Node, o: Node, scope: Scope, text: Node -> Canonical.Text)
    requires TypeOf(t, scope, text) == Some(Boolean) && TypeOf(b, scope, text) == Some(Boolean) && TypeOf(o, scope, text) == Some(Boolean)
    ensures TypeOf(Operator(IfThenElse, [t, b, o], Boolean), scope, text) == Some(Boolean)
  {
    TypesOfAt([t, b, o], [Boolean, Boolean, Boolean], scope, text);
  }

  /** Python skips the branch and answers `True`; the translation is valid and raises. */
  lemma SkippedBranchRaises(scope: Scope, env: Env, text: Node -> Canonical.Text)
    requires "xs" in scope && scope["xs"] == ListOf(Integer) && "s" in scope && scope["s"] == SetOf(ListOf(Integer)) && Fits(env, scope)
    ensures Eval(Skipping(), env) == Some(Bool(true))
    ensures Translate(Skipping(), scope).Some?
    ensures TypeOf(Translate(Skipping(), scope).value, scope, text) == Some(Boolean)
    ensures Evaluate(Translate(Skipping(), scope).value, env).None?
  {
    LookupRaises(scope, env);
    LookupValidates(scope, text);
    var yes, no := Literal(Bool(true), Boolean), Translate(Lookup(), scope).value;
    assert Translate(Skipping(), scope) == Some(Operator(IfThenElse, [yes, yes, no], Boolean));
    SomeRaisesOfThree(yes, yes, no, env);
    ChoiceValidates(yes, yes, no, scope, text);
  }

  /** Unary plus keeps its meaning exactly on integers: Python turns a Boolean into a number and refuses the
      rest, while the translation drops the operator. */
  lemma UnaryPlusExactly(e: Legacy, scope: Scope, env: Env, text: Node -> Canonical.Text)
    requires Ready(e, scope, env, text) && !Raises(e, env)
    ensures Evaluate(Translate(Unary(Plus, e), scope).value, env) == Eval(Unary(Plus, e), env) <==> Eval(e, env).value.Int?
  {
    TranslationPreserves(e, scope, env, text);
  }
}
