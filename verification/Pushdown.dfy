/** Filter pushdown: which equality filters read_gdx takes out of a WHERE clause, and why
    the clause still selects the same records afterwards. */
module Pushdown {
  import opened Wrappers
  import opened Text
  import opened Expressions
  import opened DimensionFilters

  // ---------------------------------------------------------------- extraction

  /** One equality taken from a WHERE clause. */
  datatype Requirement = Requirement(column: nat, value: string)

  function ReferencedColumn(get: LogicalGet, reference: int): Option<nat> {
    if 0 <= reference < |get.columnIds| && get.columnIds[reference] < |get.names|
    then Some(get.columnIds[reference]) else None
  }

  function ColumnOf(e: Expr, get: LogicalGet): Option<nat> {
    match StripCasts(e)
    case BoundRef(index) => ReferencedColumn(get, index)
    case BoundColumnRef(columnIndex) => ReferencedColumn(get, columnIndex)
    case _ => None
  }

  function ConstantText(e: Expr): Option<string> {
    match StripCasts(e)
    case Constant(v) => if v.Null? then None else Some(Trim(TextOf(v)))
    case _ => None
  }

  function ColumnConstantPair(left: Expr, right: Expr, get: LogicalGet): Option<Requirement> {
    if ColumnOf(left, get).Some? && ConstantText(right).Some?
    then Some(Requirement(ColumnOf(left, get).value, ConstantText(right).value))
    else if ColumnOf(right, get).Some? && ConstantText(left).Some?
    then Some(Requirement(ColumnOf(right, get).value, ConstantText(left).value))
    else None
  }

  function ComparisonRequirements(op: CompareOp, left: Expr, right: Expr, get: LogicalGet, n: nat): seq<Requirement> {
    if !op.Equal? && !op.NotDistinctFrom? then []
    else match ColumnConstantPair(left, right, get)
      case Some(q) => if q.column < n && q.value != "" then [q] else []
      case None => []
  }

  /** The requirements of the top-level conjuncts of `e`, in order. */
  function Requirements(e: Expr, get: LogicalGet, n: nat): seq<Requirement>
    decreases e, 1
  {
    match e
    case And(children) => AllRequirements(children, get, n)
    case Comparison(op, left, right) => ComparisonRequirements(op, left, right, get, n)
    case _ => []
  }

  function AllRequirements(es: seq<Expr>, get: LogicalGet, n: nat): seq<Requirement>
    decreases es, 0
  {
    if es == [] then [] else Requirements(es[0], get, n) + AllRequirements(es[1..], get, n)
  }

  // ---------------------------------------------------------------- exactly what is taken

  /** Under its casts, the expression refers to the projected table column `d`. */
  predicate RefersTo(e: Expr, get: LogicalGet, d: nat) {
    match StripCasts(e)
    case BoundRef(index) => 0 <= index < |get.columnIds| && get.columnIds[index] == d && d < |get.names|
    case BoundColumnRef(index) => index < |get.columnIds| && get.columnIds[index] == d && d < |get.names|
    case _ => false
  }

  /** Under its casts, the expression is a constant that prints as `text` after trimming. */
  predicate Spells(e: Expr, text: string) {
    match StripCasts(e)
    case Constant(v) => !v.Null? && text == Trim(TextOf(v))
    case _ => false
  }

  /** The comparison is an equality between domain column `d` and a non-blank constant, written
      in either order. */
  predicate IsEqualityOf(op: CompareOp, left: Expr, right: Expr, get: LogicalGet, n: nat, d: nat, text: string) {
    && (op == Equal || op == NotDistinctFrom) && d < n && text != ""
    && ((RefersTo(left, get, d) && Spells(right, text)) || (Spells(left, text) && RefersTo(right, get, d)))
  }

  /** A comparison yields exactly the one requirement it states, and nothing if it states none. */
  lemma ComparisonTakenExactly(op: CompareOp, left: Expr, right: Expr, get: LogicalGet, n: nat)
    ensures forall d, text :: IsEqualityOf(op, left, right, get, n, d, text) ==>
      ComparisonRequirements(op, left, right, get, n) == [Requirement(d, text)]
    ensures ComparisonRequirements(op, left, right, get, n) != [] ==>
      exists d, text :: IsEqualityOf(op, left, right, get, n, d, text)
  {
    var taken := ComparisonRequirements(op, left, right, get, n);
    if taken != [] {
      assert IsEqualityOf(op, left, right, get, n, taken[0].column, taken[0].value);
    }
  }

  /** The part of `e` at the end of a path that leads through AND nodes only. */
  function Reach(e: Expr, path: seq<nat>): Option<Expr>
    decreases path
  {
    if path == [] then Some(e)
    else if e.And? && path[0] < |e.children| then Reach(e.children[path[0]], path[1..])
    else None
  }

  /** The comparison stands in one of the expressions under AND nodes only and states `q`. */
  ghost predicate States(e: Expr, get: LogicalGet, n: nat, path: seq<nat>, q: Requirement) {
    match Reach(e, path)
    case Some(Comparison(op, left, right)) => IsEqualityOf(op, left, right, get, n, q.column, q.value)
    case _ => false
  }

  /** A requirement is taken if and only if a comparison reached through AND nodes alone states it. */
  lemma {:induction false} TakenExactly(e: Expr, get: LogicalGet, n: nat, q: Requirement)
    ensures q in Requirements(e, get, n) <==> exists path :: States(e, get, n, path, q)
    decreases e, 1
  {
    match e {
      case And(children) =>
        AllTakenExactly(children, get, n, q);
        forall path | States(e, get, n, path, q) ensures q in Requirements(e, get, n) {
          assert path != [] && States(children[path[0]], get, n, path[1..], q);
        }
        if q in Requirements(e, get, n) {
          var i, path :| 0 <= i < |children| && States(children[i], get, n, path, q);
          assert Reach(e, [i] + path) == Reach(children[i], path) by { assert ([i] + path)[1..] == path; }
          assert States(e, get, n, [i] + path, q);
        }
      case Comparison(op, left, right) =>
        ComparisonTakenExactly(op, left, right, get, n);
        assert States(e, get, n, [], q) <==> IsEqualityOf(op, left, right, get, n, q.column, q.value);
        forall path | States(e, get, n, path, q) ensures path == [] { }
        assert q in Requirements(e, get, n) <==> States(e, get, n, [], q);
      case _ =>
        forall path | States(e, get, n, path, q) ensures false { }
    }
  }

  lemma {:induction false} AllTakenExactly(es: seq<Expr>, get: LogicalGet, n: nat, q: Requirement)
    ensures q in AllRequirements(es, get, n) <==>
      exists i, path :: 0 <= i < |es| && States(es[i], get, n, path, q)
    decreases es, 0
  {
    if es != [] {
      TakenExactly(es[0], get, n, q);
      AllTakenExactly(es[1..], get, n, q);
      if path :| States(es[0], get, n, path, q) { assert States(es[0], get, n, path, q) && 0 <= 0 < |es|; }
      forall i, path | 0 <= i < |es[1..]| && States(es[1..][i], get, n, path, q)
        ensures exists j, other :: 0 <= j < |es| && States(es[j], get, n, other, q)
      {
        assert es[1..][i] == es[i + 1] && States(es[i + 1], get, n, path, q);
      }
      forall i, path | 0 <= i < |es| && States(es[i], get, n, path, q) ensures q in AllRequirements(es, get, n) {
        if i > 0 { assert es[1..][i - 1] == es[i]; }
      }
    }
  }

  // ---------------------------------------------------------------- offering filters

  function NameOf(get: LogicalGet, column: nat): string {
    if column < |get.names| then get.names[column] else ""
  }

  /** A requirement as it is offered to the filter map. */
  datatype Offer = Offer(key: string, entry: Entry)

  function OfferOf(q: Requirement, get: LogicalGet): Offer {
    Offer(Normalize(NameOf(get, q.column)), Entry(Trim(q.value), NameOf(get, q.column), "WHERE clause"))
  }

  function Offers(qs: seq<Requirement>, get: LogicalGet): seq<Offer> {
    seq(|qs|, i requires 0 <= i < |qs| => OfferOf(qs[i], get))
  }

  /** Adds every offer to the filter map; None when two of them conflict. */
  function AddAll(filters: FilterMap, offers: seq<Offer>): Option<FilterMap>
    decreases offers
  {
    if offers == [] then Some(filters)
    else
      var (more, addition) := AddEntry(filters, offers[0].key, offers[0].entry);
      if addition == Conflict then None else AddAll(more, offers[1..])
  }

  function AddBoth(filters: Option<FilterMap>, offers: seq<Offer>): Option<FilterMap> {
    if filters.None? then None else AddAll(filters.value, offers)
  }

  lemma {:induction false} AddAllConcat(filters: FilterMap, a: seq<Offer>, b: seq<Offer>)
    ensures AddAll(filters, a + b) == AddBoth(AddAll(filters, a), b)
    decreases a
  {
    if a == [] {
      assert a + b == b;
    } else {
      var (more, addition) := AddEntry(filters, a[0].key, a[0].entry);
      AddAllConcat(more, a[1..], b);
      assert (a + b)[1..] == a[1..] + b;
    }
  }

  lemma AddOne(filters: FilterMap, offer: Offer)
    ensures var (more, addition) := AddEntry(filters, offer.key, offer.entry);
      AddAll(filters, [offer]) == if addition == Conflict then None else Some(more)
  {
    assert [offer][1..] == [];
  }

  predicate Extends(f: FilterMap, g: FilterMap) {
    forall key | key in f :: key in g && g[key] == f[key]
  }

  lemma {:induction false} AddAllExtends(filters: FilterMap, offers: seq<Offer>)
    requires AddAll(filters, offers).Some?
    ensures Extends(filters, AddAll(filters, offers).value)
    decreases offers
  {
    if offers != [] {
      var (more, addition) := AddEntry(filters, offers[0].key, offers[0].entry);
      AddAllExtends(more, offers[1..]);
    }
  }

  // ---------------------------------------------------------------- the pushdown callback

  /** The column lookup of a bound column reference: the table column the projection shows. */
  method FindColumn(get: LogicalGet, columnIndex: nat) returns (column: Option<nat>)
    ensures column == ReferencedColumn(get, columnIndex)
  {
    for i := 0 to |get.names|
      invariant columnIndex < |get.columnIds| ==> get.columnIds[columnIndex] >= i
    {
      for j := 0 to |get.columnIds|
        invariant columnIndex < j ==> get.columnIds[columnIndex] != i
      {
        if get.columnIds[j] == i && columnIndex == j {
          return Some(i);
        }
      }
    }
    column := None;
  }

  method ExtractColumnBinding(e: Expr, get: LogicalGet) returns (column: Option<nat>)
    ensures column == ColumnOf(e, get)
  {
    match StripCasts(e) {
      case BoundRef(index) => column := ReferencedColumn(get, index);
      case BoundColumnRef(columnIndex) => column := FindColumn(get, columnIndex);
      case _ => column := None;
    }
  }

  method ExtractColumnConstantPair(left: Expr, right: Expr, get: LogicalGet) returns (pair: Option<Requirement>)
    ensures pair == ColumnConstantPair(left, right, get)
  {
    var column := ExtractColumnBinding(left, get);
    if column.Some? && ConstantText(right).Some? {
      return Some(Requirement(column.value, ConstantText(right).value));
    }
    column := ExtractColumnBinding(right, get);
    if column.Some? && ConstantText(left).Some? {
      return Some(Requirement(column.value, ConstantText(left).value));
    }
    pair := None;
  }

  /** What extraction leaves in the bind data: all requirements added, or a conflict. */
  twostate predicate Extracted(bind: ReadGdxBindData, qs: seq<Requirement>, get: LogicalGet,
                               new r: Result<bool, BindError>)
    reads bind
  {
    match AddAll(old(bind.dimensionFilters), Offers(qs, get))
    case None => r.Err?
    case Some(filters) =>
      && bind.dimensionFilters == filters
      && r == Ok(filters != old(bind.dimensionFilters))
      && bind.bindingsPrepared == (old(bind.bindingsPrepared) && filters == old(bind.dimensionFilters))
  }

  method ExtractComparisonFilter(op: CompareOp, left: Expr, right: Expr, get: LogicalGet, bind: ReadGdxBindData)
    returns (r: Result<bool, BindError>)
    modifies bind`dimensionFilters, bind`bindingsPrepared
    ensures Extracted(bind, ComparisonRequirements(op, left, right, get, |bind.columns.labels|), get, r)
  {
    if !op.Equal? && !op.NotDistinctFrom? {
      return Ok(false);
    }
    var pair := ExtractColumnConstantPair(left, right, get);
    if pair.None? {
      return Ok(false);
    }
    if pair.value.column >= |bind.columns.labels| || pair.value.value == "" {
      return Ok(false);
    }
    AddOne(bind.dimensionFilters, OfferOf(pair.value, get));
    assert Offers([pair.value], get) == [OfferOf(pair.value, get)];
    r := bind.TryAddDimensionFilter(NameOf(get, pair.value.column), pair.value.value, "WHERE clause");
  }

  method ExtractFiltersFromExpression(e: Expr, get: LogicalGet, bind: ReadGdxBindData)
    returns (r: Result<bool, BindError>)
    modifies bind`dimensionFilters, bind`bindingsPrepared
    ensures Extracted(bind, Requirements(e, get, |bind.columns.labels|), get, r)
    decreases e, 1
  {
    match e {
      case And(children) => r := ExtractFromAll(children, get, bind);
      case Comparison(op, left, right) => r := ExtractComparisonFilter(op, left, right, get, bind);
      case _ => r := Ok(false);
    }
  }

  /** The loop over conjuncts, shared by AND nodes and by the engine's filter list. */
  method ExtractFromAll(es: seq<Expr>, get: LogicalGet, bind: ReadGdxBindData) returns (r: Result<bool, BindError>)
    modifies bind`dimensionFilters, bind`bindingsPrepared
    ensures Extracted(bind, AllRequirements(es, get, |bind.columns.labels|), get, r)
    decreases es, 0
  {
    var added := false;
    ghost var n := |bind.columns.labels|;
    ghost var before := bind.dimensionFilters;
    assert es[0..] == es;
    for i := 0 to |es|
      invariant Extends(before, bind.dimensionFilters)
      invariant AddAll(before, Remaining(es, 0, get, n)) == AddAll(bind.dimensionFilters, Remaining(es, i, get, n))
      invariant added == (bind.dimensionFilters != before)
      invariant bind.bindingsPrepared == (old(bind.bindingsPrepared) && !added)
    {
      OneConjunct(before, bind.dimensionFilters, es, i, get, n);
      var more := ExtractFiltersFromExpression(es[i], get, bind);
      if more.Err? {
        return more;
      }
      added := added || more.value;
    }
    r := Ok(added);
  }

  ghost function Remaining(es: seq<Expr>, i: nat, get: LogicalGet, n: nat): seq<Offer>
    requires i <= |es|
  {
    Offers(AllRequirements(es[i..], get, n), get)
  }

  /** One conjunct's offers come first; filters already collected stay. */
  lemma {:induction false} OneConjunct(before: FilterMap, now: FilterMap, es: seq<Expr>, i: nat, get: LogicalGet,
                                       n: nat)
    requires i < |es| && Extends(before, now)
    ensures var after := AddAll(now, Offers(Requirements(es[i], get, n), get));
      && AddAll(now, Remaining(es, i, get, n)) == AddBoth(after, Remaining(es, i + 1, get, n))
      && (after.Some? ==> Extends(before, after.value) && Extends(now, after.value))
      && (after.Some? && after.value == before ==> now == before)
  {
    var offers := Offers(Requirements(es[i], get, n), get);
    assert es[i..][1..] == es[i + 1..];
    assert Remaining(es, i, get, n) == offers + Remaining(es, i + 1, get, n);
    AddAllConcat(now, offers, Remaining(es, i + 1, get, n));
    if AddAll(now, offers).Some? {
      AddAllExtends(now, offers);
    }
  }

  /** The filters a pushdown call ends with: None when extraction or preparation throws. */
  function Pushed(c: Columns, filters: FilterMap, whereClause: seq<Expr>, get: LogicalGet): Option<FilterMap>
    requires ValidColumns(c)
  {
    match AddAll(filters, Offers(AllRequirements(whereClause, get, |c.labels|), get))
    case None => None
    case Some(f) => if Resolvable(f, Names(c)) then Some(f) else None
  }

  /** A call that does not throw leaves the vectors in step with the extended filter map. */
  method ReadGdxPushdownComplexFilter(get: LogicalGet, bind: ReadGdxBindData, filters: seq<Expr>)
    returns (r: Result<(), BindError>)
    requires bind.Synchronized() && bind.columns.names != []
    modifies bind`dimensionFilters, bind`bindingsPrepared
    modifies bind`dimensionFilterIndices, bind`dimensionFilterValues, bind`hasDimensionFilters
    ensures r.Ok? <==> Pushed(bind.columns, old(bind.dimensionFilters), filters, get).Some?
    ensures r.Ok? ==> bind.Synchronized()
    ensures r.Ok? ==> Some(bind.dimensionFilters) == Pushed(bind.columns, old(bind.dimensionFilters), filters, get)
  {
    if |bind.columns.labels| == 0 {
      NoRequirements(filters, get);
      return Ok(());
    }
    ghost var before := bind.dimensionFilters;
    ghost var names := Names(bind.columns);
    assert Resolvable(before, names);
    var added := ExtractFromAll(filters, get, bind);
    if added.Err? {
      return Err(added.error);
    }
    assert Pushed(bind.columns, before, filters, get) ==
      if Resolvable(bind.dimensionFilters, names) then Some(bind.dimensionFilters) else None;
    r := Ok(());
    if added.value {
      r := bind.PrepareDimensionFilters();
    }
  }

  lemma {:induction false} NoRequirements(es: seq<Expr>, get: LogicalGet)
    ensures AllRequirements(es, get, 0) == []
    decreases es, 0
  {
    if es != [] {
      if es[0].And? { NoRequirements(es[0].children, get); }
      NoRequirements(es[1..], get);
    }
  }
}
