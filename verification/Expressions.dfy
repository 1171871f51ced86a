/** WHERE clauses: bound expressions and their three-valued meaning on a row. */
module Expressions {
  import opened Wrappers
  import opened Text
  import opened Records

  /** Casts to text and to integers are spelled out; any other conversion (to a floating-point
      number, a truth value, a date) is some function of the value. */
  datatype CastTarget = ToVarchar | ToInteger | Other(convert: Value -> Value)

  datatype CompareOp =
    Equal | NotEqual | NotDistinctFrom | DistinctFrom | LessThan | LessOrEqual | GreaterThan | GreaterOrEqual

  datatype Expr =
    | BoundRef(index: int)
    | BoundColumnRef(columnIndex: nat)
    | Constant(value: Value)
    | Cast(target: CastTarget, child: Expr)
    | Comparison(op: CompareOp, left: Expr, right: Expr)
    | And(children: seq<Expr>)
    | Or(children: seq<Expr>)
    | Not(child: Expr)

  /** The scan node a filter is pushed into: its column names and the projected columns. */
  datatype LogicalGet = LogicalGet(names: seq<string>, columnIds: seq<nat>)

  // ---------------------------------------------------------------- casts

  function TextOf(v: Value): string
    requires !v.Null?
  {
    match v
    case Varchar(s) => s
    case Integer(n) => DecimalInt(n)
    case Double(_, printed) => printed
    case Boolean(b) => if b then "true" else "false"
  }

  function CastTo(target: CastTarget, v: Value): Value {
    if v.Null? then Null
    else match target
      case ToVarchar => Varchar(TextOf(v))
      case ToInteger => ToWhole(v)
      case Other(convert) => convert(v)
  }

  /** The nearest integer, the even one of two. */
  function Rounded(r: real): int {
    var below := r.Floor;
    var rest := r - below as real;
    if rest < 0.5 || (rest == 0.5 && below % 2 == 0) then below else below + 1
  }

  function ToWhole(v: Value): Value {
    match v
    case Null => Null
    case Varchar(s) => (match IntegerOf(s) case Some(n) => Integer(n) case None => Null)
    case Integer(_) => v
    case Double(r, _) => Integer(Rounded(r))
    case Boolean(b) => Integer(if b then 1 else 0)
  }

  // ---------------------------------------------------------------- comparisons

  predicate Same(a: Value, b: Value) {
    match (a, b)
    case (Double(x, _), Double(y, _)) => x == y
    case _ => a == b
  }

  predicate Before(a: Value, b: Value) {
    match (a, b)
    case (Varchar(x), Varchar(y)) => x != y && AtMost(x, y)
    case (Integer(x), Integer(y)) => x < y
    case (Double(x, _), Double(y, _)) => x < y
    case (Boolean(x), Boolean(y)) => !x && y
    case _ => false
  }

  function Compare(op: CompareOp, a: Value, b: Value): Value {
    if op.NotDistinctFrom? then Boolean(Same(a, b))
    else if op.DistinctFrom? then Boolean(!Same(a, b))
    else if a.Null? || b.Null? then Null
    else match op
      case Equal => Boolean(Same(a, b))
      case NotEqual => Boolean(!Same(a, b))
      case LessThan => Boolean(Before(a, b))
      case LessOrEqual => Boolean(!Before(b, a))
      case GreaterThan => Boolean(Before(b, a))
      case GreaterOrEqual => Boolean(!Before(a, b))
      case _ => Null
  }

  // ---------------------------------------------------------------- logic

  const TRUE := Boolean(true)
  const FALSE := Boolean(false)

  function Negate(a: Value): Value {
    if a.Boolean? then Boolean(!a.b) else Null
  }

  function Both(a: Value, b: Value): Value {
    if a == FALSE || b == FALSE then FALSE else if a == TRUE && b == TRUE then TRUE else Null
  }

  function Either(a: Value, b: Value): Value {
    Negate(Both(Negate(a), Negate(b)))
  }

  function Cell(get: LogicalGet, row: seq<Value>, reference: int): Value {
    if 0 <= reference < |get.columnIds| && get.columnIds[reference] < |row| then row[get.columnIds[reference]] else Null
  }

  function Eval(e: Expr, get: LogicalGet, row: seq<Value>): Value
    decreases e, 1
  {
    match e
    case BoundRef(index) => Cell(get, row, index)
    case BoundColumnRef(columnIndex) => Cell(get, row, columnIndex)
    case Constant(value) => value
    case Cast(target, child) => CastTo(target, Eval(child, get, row))
    case Comparison(op, left, right) => Compare(op, Eval(left, get, row), Eval(right, get, row))
    case And(children) => EvalAnd(children, get, row)
    case Or(children) => EvalOr(children, get, row)
    case Not(child) => Negate(Eval(child, get, row))
  }

  function EvalAnd(es: seq<Expr>, get: LogicalGet, row: seq<Value>): Value
    decreases es, 0
  {
    if es == [] then TRUE else Both(Eval(es[0], get, row), EvalAnd(es[1..], get, row))
  }

  function EvalOr(es: seq<Expr>, get: LogicalGet, row: seq<Value>): Value
    decreases es, 0
  {
    if es == [] then FALSE else Either(Eval(es[0], get, row), EvalOr(es[1..], get, row))
  }

  /** The engine's filter list is a conjunction; a row survives when it is true. */
  predicate Holds(filters: seq<Expr>, get: LogicalGet, row: seq<Value>) {
    EvalAnd(filters, get, row) == TRUE
  }

  /** AND is true when all its parts are and false when one is; OR is true when one is and false
      when all are; NOT exchanges the two. */
  lemma {:induction false} LogicExactly(es: seq<Expr>, get: LogicalGet, row: seq<Value>)
    ensures Holds(es, get, row) <==> forall e | e in es :: Eval(e, get, row) == TRUE
    ensures Eval(And(es), get, row) == TRUE <==> forall e | e in es :: Eval(e, get, row) == TRUE
    ensures Eval(And(es), get, row) == FALSE <==> exists e :: e in es && Eval(e, get, row) == FALSE
    ensures Eval(Or(es), get, row) == TRUE <==> exists e :: e in es && Eval(e, get, row) == TRUE
    ensures Eval(Or(es), get, row) == FALSE <==> forall e | e in es :: Eval(e, get, row) == FALSE
    ensures forall e :: Eval(Not(e), get, row) == TRUE <==> Eval(e, get, row) == FALSE
    ensures forall e :: Eval(Not(e), get, row) == FALSE <==> Eval(e, get, row) == TRUE
    decreases es
  {
    if es != [] {
      LogicExactly(es[1..], get, row);
      assert es[0] in es && forall e | e in es :: e == es[0] || e in es[1..];
      assert forall e | e in es[1..] :: e in es;
    }
  }

  /** Comparisons of values that are not NULL come in pairs of opposites; those with NULL are
      unknown, except the two that treat it as a value. */
  lemma ComparisonsExactly(a: Value, b: Value)
    ensures a.Null? || b.Null? ==>
      forall op | op in {Equal, NotEqual, LessThan, LessOrEqual, GreaterThan, GreaterOrEqual} ::
        Compare(op, a, b) == Null
    ensures !a.Null? && !b.Null? ==>
      && Compare(NotEqual, a, b) == Negate(Compare(Equal, a, b))
      && Compare(GreaterOrEqual, a, b) == Negate(Compare(LessThan, a, b))
      && Compare(LessOrEqual, a, b) == Negate(Compare(GreaterThan, a, b))
      && Compare(GreaterThan, a, b) == Compare(LessThan, b, a)
      && Compare(NotDistinctFrom, a, b) == Compare(Equal, a, b)
    ensures Compare(DistinctFrom, a, b) == Negate(Compare(NotDistinctFrom, a, b))
    ensures Compare(NotDistinctFrom, Null, b) == Boolean(b.Null?)
    ensures a.Integer? && b.Integer? ==>
      Compare(Equal, a, b) == Boolean(a.n == b.n) && Compare(LessThan, a, b) == Boolean(a.n < b.n)
    ensures a.Double? && b.Double? ==>
      Compare(Equal, a, b) == Boolean(a.r == b.r) && Compare(LessThan, a, b) == Boolean(a.r < b.r)
    ensures a.Boolean? && b.Boolean? ==>
      Compare(Equal, a, b) == Boolean(a == b) && Compare(LessThan, a, b) == Boolean(a == FALSE && b == TRUE)
    ensures a.Varchar? && b.Varchar? ==>
      && Compare(Equal, a, b) == Boolean(a.text == b.text)
      && (Compare(LessThan, a, b) == TRUE <==> a != b && exists k: nat :: DecidedAt(a.text, b.text, k))
  {
    if a.Varchar? && b.Varchar? { AtMostExactly(a.text, b.text); }
  }

  /** Casts between the values of a row: text gives the integer it spells, a number the nearest
      one, a truth value 1 or 0, and an integer comes back from its text. */
  lemma CastsExactly(v: Value)
    ensures v.Null? ==> CastTo(ToInteger, v) == Null && CastTo(ToVarchar, v) == Null
    ensures v.Integer? ==> CastTo(ToInteger, v) == v && CastTo(ToInteger, CastTo(ToVarchar, v)) == v
    ensures v.Boolean? ==>
      CastTo(ToInteger, v) == Integer(if v.b then 1 else 0)
      && CastTo(ToVarchar, v) == Varchar(if v.b then "true" else "false")
    ensures v.Varchar? ==> CastTo(ToVarchar, v) == v
    ensures v.Double? ==> CastTo(ToVarchar, v) == Varchar(v.printed)
    ensures v.Double? ==>
      var w := CastTo(ToInteger, v);
      && w.Integer? && -1.0 <= 2.0 * (w.n as real - v.r) <= 1.0
      && (2.0 * (w.n as real - v.r) in {-1.0, 1.0} ==> w.n % 2 == 0)
  {
    if v.Integer? { IntegerOfDecimalInt(v.n); }
  }

  // ---------------------------------------------------------------- cast chains

  function StripCasts(e: Expr): (inner: Expr)
    ensures !inner.Cast?
  {
    if e.Cast? then StripCasts(e.child) else e
  }

  /** What the casts around `e` make of the value inside. */
  function Through(e: Expr, v: Value): Value {
    if e.Cast? then CastTo(e.target, Through(e.child, v)) else v
  }

  /** The innermost cast that is not a cast to text: the first one a text meets. */
  function FirstCast(e: Expr): Option<CastTarget> {
    if !e.Cast? then None
    else match FirstCast(e.child)
      case Some(target) => Some(target)
      case None => if e.target.ToVarchar? then None else Some(e.target)
  }

  /** Only casts to text and to integers. */
  predicate Standard(e: Expr) {
    e.Cast? ==> !e.target.Other? && Standard(e.child)
  }

  lemma {:induction false} EvalThrough(e: Expr, get: LogicalGet, row: seq<Value>)
    ensures Eval(e, get, row) == Through(e, Eval(StripCasts(e), get, row))
  {
    if e.Cast? { EvalThrough(e.child, get, row); }
  }

  lemma {:induction false} ThroughTextCasts(e: Expr, t: string)
    requires FirstCast(e).None?
    ensures Through(e, Varchar(t)) == Varchar(t)
  {
    if e.Cast? { ThroughTextCasts(e.child, t); }
  }

  /** Texts that the first cast identifies stay identified. */
  lemma {:induction false} ThroughFirstCast(e: Expr, t: string, u: string)
    requires FirstCast(e).Some?
    requires CastTo(FirstCast(e).value, Varchar(t)) == CastTo(FirstCast(e).value, Varchar(u))
    ensures Through(e, Varchar(t)) == Through(e, Varchar(u))
  {
    if FirstCast(e.child).Some? {
      ThroughFirstCast(e.child, t, u);
    } else {
      ThroughTextCasts(e.child, t);
      ThroughTextCasts(e.child, u);
    }
  }

  /** A standard chain with an integer cast sees only the integer a text spells. */
  function IntegerImage(outermost: CastTarget, n: Option<int>): Value {
    match n
    case None => Null
    case Some(k) => if outermost.ToInteger? then Integer(k) else Varchar(DecimalInt(k))
  }

  lemma {:induction false} ThroughIntegerCast(e: Expr, t: string)
    requires Standard(e) && FirstCast(e).Some?
    ensures e.Cast? && Through(e, Varchar(t)) == IntegerImage(e.target, IntegerOf(t))
  {
    if FirstCast(e.child).Some? {
      ThroughIntegerCast(e.child, t);
      if IntegerOf(t).Some? { IntegerOfDecimalInt(IntegerOf(t).value); }
    } else {
      ThroughTextCasts(e.child, t);
    }
  }
}
