/** Why pushdown preserves the meaning of a query, and exactly when. */
module PushdownMeaning {
  import opened Wrappers
  import opened Text
  import opened Schema
  import opened Records
  import opened Expressions
  import opened DimensionFilters
  import opened Pushdown

  // ---------------------------------------------------------------- one comparison

  /** A text that trimming either leaves alone or empties. */
  predicate Clean(t: string) {
    Trimmed(t) || Blank(t)
  }

  predicate IsPrintedInteger(s: string) {
    IntegerOf(s).Some? && DecimalInt(IntegerOf(s).value) == s
  }

  /** The comparison is true of a cell holding text `t`. */
  predicate Matches(op: CompareOp, column: Expr, constant: Expr, t: string)
    requires ConstantText(constant).Some?
  {
    Compare(op, Through(column, Varchar(t)), Through(constant, StripCasts(constant).value)) == TRUE
  }

  predicate IsEquality(op: CompareOp) {
    op.Equal? || op.NotDistinctFrom?
  }

  /** Pushing `column = constant` down is faithful: whatever clean text matches is the text
      that is pushed. */
  ghost predicate SafeEverywhere(op: CompareOp, column: Expr, constant: Expr)
    requires ConstantText(constant).Some?
  {
    forall t :: Clean(t) && Matches(op, column, constant, t) ==> CIEquals(t, ConstantText(constant).value)
  }

  ghost predicate NeverMatches(op: CompareOp, column: Expr, constant: Expr)
    requires ConstantText(constant).Some?
  {
    forall t :: Clean(t) ==> !Matches(op, column, constant, t)
  }

  /** The conversion gives every clean text the same value as some other clean text. */
  ghost predicate Lossy(target: CastTarget) {
    forall t :: Clean(t) ==> HasTwin(target, t)
  }

  ghost predicate HasTwin(target: CastTarget, t: string) {
    exists u :: Clean(u) && !CIEquals(t, u) && CastTo(target, Varchar(t)) == CastTo(target, Varchar(u))
  }

  /** Without casts other than to text, it depends on what the constant's own casts make of it. */
  lemma TextComparisonExact(op: CompareOp, column: Expr, constant: Expr)
    requires IsEquality(op) && ConstantText(constant).Some? && FirstCast(column).None?
    ensures var w := Through(constant, StripCasts(constant).value);
      SafeEverywhere(op, column, constant) <==>
        (w.Varchar? && Clean(w.text) ==> CIEquals(w.text, ConstantText(constant).value))
  {
    var w := Through(constant, StripCasts(constant).value);
    forall t ensures Matches(op, column, constant, t) <==> w == Varchar(t) { ThroughTextCasts(column, t); }
    if w.Varchar? { assert Matches(op, column, constant, w.text); }
  }

  /** Under a lossy first cast, a text that matches has a twin that matches. */
  lemma TwinMatches(op: CompareOp, column: Expr, constant: Expr, t: string) returns (u: string)
    requires ConstantText(constant).Some? && FirstCast(column).Some? && HasTwin(FirstCast(column).value, t)
    ensures Clean(u) && !CIEquals(t, u) && Matches(op, column, constant, u) == Matches(op, column, constant, t)
  {
    var target := FirstCast(column).value;
    u :| Clean(u) && !CIEquals(t, u) && CastTo(target, Varchar(t)) == CastTo(target, Varchar(u));
    ThroughFirstCast(column, t, u);
  }

  /** Hence, whatever the casts around it, such a comparison is safe only if it can never be
      true. */
  lemma LossyComparisonExact(op: CompareOp, column: Expr, constant: Expr)
    requires ConstantText(constant).Some? && FirstCast(column).Some? && Lossy(FirstCast(column).value)
    ensures SafeEverywhere(op, column, constant) <==> NeverMatches(op, column, constant)
  {
    forall t | Clean(t) && Matches(op, column, constant, t) ensures !SafeEverywhere(op, column, constant) {
      assert HasTwin(FirstCast(column).value, t);
      var u := TwinMatches(op, column, constant, t);
    }
  }

  lemma IntegerCastIsLossy()
    ensures Lossy(ToInteger)
  {
    forall t | Clean(t) ensures HasTwin(ToInteger, t) {
      var u := IntegerTwin(t);
    }
  }

  lemma IntegerTwin(t: string) returns (u: string)
    ensures Clean(u) && !CIEquals(t, u) && IntegerOf(u) == IntegerOf(t)
  {
    if IntegerOf(t).Some? {
      var k := IntegerOf(t).value;
      IntegerOfDecimalInt(k);
      IntegerOfPaddedInt(k);
      u := if CIEquals(t, DecimalInt(k)) then PaddedInt(k) else DecimalInt(k);
    } else {
      assert "x"[0] in "x" && "xx"[0] in "xx";
      assert !AllDigits("x") && !AllDigits("xx");
      u := if CIEquals(t, "x") then "xx" else "x";
    }
    assert |Lower(u)| == |u| && |Lower(t)| == |t|;
  }

  lemma {:induction false} StandardFirstCast(e: Expr)
    requires Standard(e) && FirstCast(e).Some?
    ensures FirstCast(e) == Some(ToInteger)
  {
    if FirstCast(e.child).Some? { StandardFirstCast(e.child); }
  }

  /** An integer cast gives a text that spells `k`, or nothing, to the casts around it. */
  lemma IntegerMatches(op: CompareOp, column: Expr, constant: Expr, t: string)
    requires IsEquality(op) && ConstantText(constant).Some? && Standard(column) && FirstCast(column).Some?
    ensures column.Cast?
    ensures var w := Through(constant, StripCasts(constant).value);
      Matches(op, column, constant, t) <==>
        w == IntegerImage(column.target, IntegerOf(t)) && (w.Null? ==> op.NotDistinctFrom?)
  {
    ThroughIntegerCast(column, t);
  }

  /** Whether an integer reaches the comparison's other side. */
  lemma IntegerNeverMatches(op: CompareOp, column: Expr, constant: Expr)
    requires IsEquality(op) && ConstantText(constant).Some? && Standard(column) && FirstCast(column).Some?
    ensures column.Cast?
    ensures NeverMatches(op, column, constant) <==>
      var w := Through(constant, StripCasts(constant).value);
      && !(op.NotDistinctFrom? && w.Null?)
      && (if column.target.ToInteger? then !w.Integer? else !(w.Varchar? && IsPrintedInteger(w.text)))
  {
    var w := Through(constant, StripCasts(constant).value);
    forall t ensures Matches(op, column, constant, t) <==>
      w == IntegerImage(column.target, IntegerOf(t)) && (w.Null? ==> op.NotDistinctFrom?)
    {
      IntegerMatches(op, column, constant, t);
    }
    if w.Null? {
      var u := IntegerTwin("x");
      assert "x"[0] in "x" && !AllDigits("x");
    } else if w.Integer? || (w.Varchar? && IsPrintedInteger(w.text)) {
      var k := if w.Integer? then w.n else IntegerOf(w.text).value;
      IntegerOfDecimalInt(k);
      IntegerOfPaddedInt(k);
      assert Clean(DecimalInt(k)) && IntegerOf(DecimalInt(k)) == Some(k);
    }
    forall t ensures IntegerOf(t).Some? ==> IsPrintedInteger(DecimalInt(IntegerOf(t).value)) {
      if IntegerOf(t).Some? { IntegerOfDecimalInt(IntegerOf(t).value); }
    }
  }

  /** Decides, from the constant and the casts alone, whether pushing `column = constant`
      down is faithful. Text casts are harmless as long as they keep the constant's text; an
      integer cast on the column is harmless only when the comparison can never be true. */
  predicate SafeComparison(op: CompareOp, column: Expr, constant: Expr)
    requires ConstantText(constant).Some? && Standard(column)
  {
    var w := Through(constant, StripCasts(constant).value);
    if FirstCast(column).None? then w.Varchar? && Clean(w.text) ==> CIEquals(w.text, ConstantText(constant).value)
    else
      && !(op.NotDistinctFrom? && w.Null?)
      && (if column.target.ToInteger? then !w.Integer? else !(w.Varchar? && IsPrintedInteger(w.text)))
  }

  /** For casts to text and to integers the decision is exact. */
  lemma SafeComparisonExact(op: CompareOp, column: Expr, constant: Expr)
    requires IsEquality(op) && ConstantText(constant).Some? && Standard(column)
    ensures SafeEverywhere(op, column, constant) <==> SafeComparison(op, column, constant)
  {
    if FirstCast(column).None? {
      TextComparisonExact(op, column, constant);
    } else {
      StandardFirstCast(column);
      IntegerCastIsLossy();
      LossyComparisonExact(op, column, constant);
      IntegerNeverMatches(op, column, constant);
    }
  }

  /** Any conversion that reads '5' and '5.0' as one number has the same effect. */
  lemma NumberCastWitness(reference: nat, convert: Value -> Value)
    requires convert(Varchar("5")) == convert(Varchar("5.0")) == Double(5.0, "5.0")
    ensures var column, constant := Cast(Other(convert), BoundColumnRef(reference)), Constant(Double(5.0, "5.0"));
      && ConstantText(constant) == Some("5.0") && Matches(Equal, column, constant, "5")
      && !SafeEverywhere(Equal, column, constant)
  {
    var column, constant := Cast(Other(convert), BoundColumnRef(reference)), Constant(Double(5.0, "5.0"));
    TrimFixpoint("5.0");
    assert Through(column, Varchar("5")) == Double(5.0, "5.0");
    assert Matches(Equal, column, constant, "5") && Clean("5");
    assert |Lower("5")| == 1 && |Lower("5.0")| == 3;
  }

  /** An integer cast makes '05' and 5 equal, although 5 is pushed down as the text '5'. */
  lemma IntegerCastWitness(reference: nat)
    ensures var column, constant := Cast(ToInteger, BoundColumnRef(reference)), Constant(Integer(5));
      && Matches(Equal, column, constant, "05") && ConstantText(constant) == Some("5") && !CIEquals("05", "5")
      && !SafeEverywhere(Equal, column, constant)
  {
    var column := Cast(ToInteger, BoundColumnRef(reference));
    assert AllDigits("05") && "05"[..1] == "0" && "0"[..0] == "";
    assert NatOf("0") == 0 && NatOf("05") == 5;
    ThroughIntegerCast(column, "05");
    assert TextOf(Integer(5)) == "5" && Trimmed("5");
    TrimFixpoint("5");
    assert |Lower("05")| == 2 && |Lower("5")| == 1;
  }

  // ---------------------------------------------------------------- whole WHERE clauses

  /** The side of a comparison that is taken for the column, and the other one. */
  function ColumnSide(left: Expr, right: Expr, get: LogicalGet): Expr {
    if ColumnOf(left, get).Some? && ConstantText(right).Some? then left else right
  }

  function ConstantSide(left: Expr, right: Expr, get: LogicalGet): Expr {
    if ColumnOf(left, get).Some? && ConstantText(right).Some? then right else left
  }

  ghost predicate SafePair(op: CompareOp, left: Expr, right: Expr, get: LogicalGet, n: nat) {
    ComparisonRequirements(op, left, right, get, n) != [] ==>
      SafeEverywhere(op, ColumnSide(left, right, get), ConstantSide(left, right, get))
  }

  /** Every equality that pushdown takes from `e` is safe. */
  ghost predicate SafeFilter(e: Expr, get: LogicalGet, n: nat)
    decreases e, 1
  {
    match e
    case And(children) => SafeFilters(children, get, n)
    case Comparison(op, left, right) => SafePair(op, left, right, get, n)
    case _ => true
  }

  ghost predicate SafeFilters(es: seq<Expr>, get: LogicalGet, n: nat)
    decreases es, 0
  {
    es == [] || (SafeFilter(es[0], get, n) && SafeFilters(es[1..], get, n))
  }

  /** The domain cells of a row. */
  ghost predicate RowShows(row: seq<Value>, texts: seq<string>) {
    |texts| <= |row| && forall d :: 0 <= d < |texts| ==> row[d] == Varchar(texts[d])
  }

  ghost predicate AllClean(texts: seq<string>) {
    forall d :: 0 <= d < |texts| ==> Clean(texts[d])
  }

  ghost predicate Satisfies(texts: seq<string>, qs: seq<Requirement>) {
    forall q | q in qs :: q.column < |texts| && CIEquals(texts[q.column], q.value) && Trimmed(q.value)
  }

  lemma SameSymmetric(op: CompareOp, a: Value, b: Value)
    requires IsEquality(op)
    ensures Compare(op, a, b) == Compare(op, b, a)
  {
  }

  /** Extraction finds a domain column on one side of an equality and a constant on the other. */
  lemma SidesFound(op: CompareOp, left: Expr, right: Expr, get: LogicalGet, n: nat)
    requires ComparisonRequirements(op, left, right, get, n) != []
    ensures var column, constant := ColumnSide(left, right, get), ConstantSide(left, right, get);
      && IsEquality(op) && ConstantText(constant).Some?
      && ColumnOf(column, get).Some? && ColumnOf(column, get).value < n
      && ComparisonRequirements(op, left, right, get, n)
           == [Requirement(ColumnOf(column, get).value, ConstantText(constant).value)]
  {
  }

  lemma SidesMeaning(op: CompareOp, column: Expr, constant: Expr, get: LogicalGet, row: seq<Value>, texts: seq<string>)
    requires RowShows(row, texts) && ColumnOf(column, get).Some? && ColumnOf(column, get).value < |texts|
    requires ConstantText(constant).Some?
    ensures Compare(op, Eval(column, get, row), Eval(constant, get, row)) == TRUE <==>
      Matches(op, column, constant, texts[ColumnOf(column, get).value])
  {
    EvalThrough(column, get, row);
    EvalThrough(constant, get, row);
    assert Eval(StripCasts(column), get, row) == Varchar(texts[ColumnOf(column, get).value]);
    assert Eval(StripCasts(constant), get, row) == StripCasts(constant).value;
  }

  /** What extraction finds in a comparison is what the comparison says: it is an equality
      between the casts of one domain cell and the casts of one constant. */
  lemma PairMeaning(op: CompareOp, left: Expr, right: Expr, get: LogicalGet, row: seq<Value>, texts: seq<string>)
    requires RowShows(row, texts) && ComparisonRequirements(op, left, right, get, |texts|) != []
    ensures var column, constant := ColumnSide(left, right, get), ConstantSide(left, right, get);
      && ColumnOf(column, get).Some? && ColumnOf(column, get).value < |texts| && ConstantText(constant).Some?
      && ComparisonRequirements(op, left, right, get, |texts|)
           == [Requirement(ColumnOf(column, get).value, ConstantText(constant).value)]
      && (Compare(op, Eval(left, get, row), Eval(right, get, row)) == TRUE <==>
          Matches(op, column, constant, texts[ColumnOf(column, get).value]))
  {
    SidesFound(op, left, right, get, |texts|);
    SidesMeaning(op, ColumnSide(left, right, get), ConstantSide(left, right, get), get, row, texts);
    SameSymmetric(op, Eval(left, get, row), Eval(right, get, row));
  }

  lemma ConstantTextTrimmed(e: Expr)
    requires ConstantText(e).Some?
    ensures Trimmed(ConstantText(e).value)
  {
    TrimIsTrimmed(TextOf(StripCasts(e).value));
  }

  lemma ComparisonSound(op: CompareOp, left: Expr, right: Expr, get: LogicalGet, row: seq<Value>, texts: seq<string>)
    requires RowShows(row, texts) && AllClean(texts) && SafePair(op, left, right, get, |texts|)
    requires Compare(op, Eval(left, get, row), Eval(right, get, row)) == TRUE
    ensures Satisfies(texts, ComparisonRequirements(op, left, right, get, |texts|))
  {
    if ComparisonRequirements(op, left, right, get, |texts|) != [] {
      PairMeaning(op, left, right, get, row, texts);
      ConstantTextTrimmed(ConstantSide(left, right, get));
    }
  }

  /** A true conjunct satisfies every requirement taken from it. */
  lemma {:induction false} RequirementsSound(e: Expr, get: LogicalGet, row: seq<Value>, texts: seq<string>)
    requires RowShows(row, texts) && AllClean(texts) && SafeFilter(e, get, |texts|) && Eval(e, get, row) == TRUE
    ensures Satisfies(texts, Requirements(e, get, |texts|))
    decreases e, 1
  {
    match e {
      case And(children) => AllRequirementsSound(children, get, row, texts);
      case Comparison(op, left, right) => ComparisonSound(op, left, right, get, row, texts);
      case _ =>
    }
  }

  lemma {:induction false} AllRequirementsSound(es: seq<Expr>, get: LogicalGet, row: seq<Value>, texts: seq<string>)
    requires RowShows(row, texts) && AllClean(texts) && SafeFilters(es, get, |texts|) && EvalAnd(es, get, row) == TRUE
    ensures Satisfies(texts, AllRequirements(es, get, |texts|))
    decreases es, 0
  {
    if es != [] {
      assert EvalAnd(es, get, row) == Both(Eval(es[0], get, row), EvalAnd(es[1..], get, row));
      RequirementsSound(es[0], get, row, texts);
      AllRequirementsSound(es[1..], get, row, texts);
    }
  }

  lemma {:induction false} RequirementsFit(e: Expr, get: LogicalGet, n: nat)
    ensures forall q | q in Requirements(e, get, n) :: q.column < n && q.value != "" && Trimmed(q.value)
    decreases e, 1
  {
    match e {
      case And(children) => AllRequirementsFit(children, get, n);
      case Comparison(op, left, right) =>
        if ConstantText(left).Some? { ConstantTextTrimmed(left); }
        if ConstantText(right).Some? { ConstantTextTrimmed(right); }
      case _ =>
    }
  }

  lemma {:induction false} AllRequirementsFit(es: seq<Expr>, get: LogicalGet, n: nat)
    ensures forall q | q in AllRequirements(es, get, n) :: q.column < n && q.value != "" && Trimmed(q.value)
    decreases es, 0
  {
    if es != [] {
      RequirementsFit(es[0], get, n);
      AllRequirementsFit(es[1..], get, n);
    }
  }

  // ---------------------------------------------------------------- filter maps and records

  /** The record texts satisfy every filter, read through name resolution. */
  ghost predicate SatisfiesFilters(texts: seq<string>, filters: FilterMap, names: map<string, nat>) {
    forall key | key in filters ::
      key in names && names[key] < |texts| && CIEquals(texts[names[key]], filters[key].value)
  }

  lemma AcceptsByKey(texts: seq<string>, filters: FilterMap, names: map<string, nat>)
    requires Resolvable(filters, names)
    ensures Accepts(DimensionMapOf(filters, names), texts) <==> SatisfiesFilters(texts, filters, names)
  {
    var filter := DimensionMapOf(filters, names);
    if Accepts(filter, texts) {
      forall key | key in filters ensures names[key] < |texts| && CIEquals(texts[names[key]], filters[key].value) {
        assert names[key] in filter;
      }
    }
  }

  /** Offers the record satisfies, each under a key that names its dimension. */
  ghost predicate OffersHold(texts: seq<string>, offers: seq<Offer>, names: map<string, nat>) {
    forall o | o in offers :: o.key != "" ==>
      o.key in names && names[o.key] < |texts| && CIEquals(texts[names[o.key]], o.entry.value)
  }

  /** A record that satisfies the filters collected so far and every further offer rules out
      a conflict, and satisfies the resulting filters too. */
  lemma {:induction false} NoConflict(texts: seq<string>, filters: FilterMap, offers: seq<Offer>,
                                      names: map<string, nat>)
    requires SatisfiesFilters(texts, filters, names) && OffersHold(texts, offers, names)
    ensures AddAll(filters, offers).Some? && SatisfiesFilters(texts, AddAll(filters, offers).value, names)
    decreases offers
  {
    if offers != [] {
      var (more, addition) := AddEntry(filters, offers[0].key, offers[0].entry);
      assert offers[0] in offers;
      forall o | o in offers[1..] ensures o in offers { }
      NoConflict(texts, more, offers[1..], names);
    }
  }

  /** Every column name the scan shows resolves to its own dimension. */
  ghost predicate NamesResolve(c: Columns, get: LogicalGet)
    requires ValidColumns(c)
  {
    forall d :: 0 <= d < |c.labels| ==> ResolvesTo(c, Normalize(NameOf(get, d)), d)
  }

  lemma SatisfiedOffersHold(c: Columns, get: LogicalGet, texts: seq<string>, qs: seq<Requirement>)
    requires ValidColumns(c) && NamesResolve(c, get) && |texts| == |c.labels|
    requires Satisfies(texts, qs)
    ensures OffersHold(texts, Offers(qs, get), Names(c))
  {
    forall o | o in Offers(qs, get) && o.key != ""
      ensures o.key in Names(c) && Names(c)[o.key] < |texts| && CIEquals(texts[Names(c)[o.key]], o.entry.value)
    {
      var i :| 0 <= i < |qs| && o == OfferOf(qs[i], get);
      assert qs[i] in qs;
      TrimFixpoint(qs[i].value);
      assert ResolvesTo(c, o.key, qs[i].column);
    }
  }

  lemma SameNames(c: Columns, get: LogicalGet, symbolType: int, valueColumns: seq<ValueColumn>)
    requires FromSchema(c, symbolType, valueColumns) && DistinctBases(c.labels) && get.names == c.names
    ensures ValidColumns(c) && NamesResolve(c, get)
  {
    ResolutionExact(c, symbolType, valueColumns);
    forall d | 0 <= d < |c.labels| ensures ResolvesTo(c, Normalize(NameOf(get, d)), d) {
      assert NameOf(get, d) == c.names[d];
    }
  }

  /** A record that passes the filters so far and meets the requirements passes the pushed ones. */
  lemma SatisfiedStaysAccepted(c: Columns, get: LogicalGet, filters: FilterMap, qs: seq<Requirement>,
                               texts: seq<string>)
    requires ValidColumns(c) && NamesResolve(c, get) && |texts| == |c.labels| && Resolvable(filters, Names(c))
    requires Satisfies(texts, qs) && Accepts(DimensionMapOf(filters, Names(c)), texts)
    ensures var f := AddAll(filters, Offers(qs, get));
      f.Some? && (Resolvable(f.value, Names(c)) ==> Accepts(DimensionMapOf(f.value, Names(c)), texts))
  {
    SatisfiedOffersHold(c, get, texts, qs);
    AcceptsByKey(texts, filters, Names(c));
    NoConflict(texts, filters, Offers(qs, get), Names(c));
    var f := AddAll(filters, Offers(qs, get)).value;
    if Resolvable(f, Names(c)) { AcceptsByKey(texts, f, Names(c)); }
  }

  /** A record that passes the filters so far and the WHERE clause justifies the pushed filters. */
  lemma {:induction false} WhereKeepsAccepted(c: Columns, get: LogicalGet, filters: FilterMap,
                                              whereClause: seq<Expr>, row: seq<Value>, texts: seq<string>)
    requires ValidColumns(c) && NamesResolve(c, get) && |texts| == |c.labels| && Resolvable(filters, Names(c))
    requires RowShows(row, texts) && AllClean(texts) && SafeFilters(whereClause, get, |c.labels|)
    requires Holds(whereClause, get, row) && Accepts(DimensionMapOf(filters, Names(c)), texts)
    ensures var f := AddAll(filters, Offers(AllRequirements(whereClause, get, |c.labels|), get));
      f.Some? && (Resolvable(f.value, Names(c)) ==> Accepts(DimensionMapOf(f.value, Names(c)), texts))
  {
    AllRequirementsSound(whereClause, get, row, texts);
    SatisfiedStaysAccepted(c, get, filters, AllRequirements(whereClause, get, |c.labels|), texts);
  }

  /** "Conflicting filters" is thrown only when no record can pass both the filters collected
      before and the WHERE clause. */
  lemma {:induction false} ConflictJustified(c: Columns, get: LogicalGet, filters: FilterMap,
                                             whereClause: seq<Expr>, row: seq<Value>, texts: seq<string>)
    requires ValidColumns(c) && NamesResolve(c, get) && |texts| == |c.labels| && Resolvable(filters, Names(c))
    requires RowShows(row, texts) && AllClean(texts) && SafeFilters(whereClause, get, |c.labels|)
    requires AddAll(filters, Offers(AllRequirements(whereClause, get, |c.labels|), get)).None?
    ensures !(Accepts(DimensionMapOf(filters, Names(c)), texts) && Holds(whereClause, get, row))
  {
    if Accepts(DimensionMapOf(filters, Names(c)), texts) && Holds(whereClause, get, row) {
      WhereKeepsAccepted(c, get, filters, whereClause, row, texts);
    }
  }

  // ---------------------------------------------------------------- queries

  /** A bound read_gdx call, apart from its filters; `numberText` is how the engine prints numbers. */
  datatype Plan = Plan(columns: Columns, valueColumns: seq<ValueColumn>, get: LogicalGet, uels: UelTable,
                       offset: nat, limit: Option<nat>, numberText: real -> string)

  /** What the scan writes into a numeric slot. */
  predicate IsNumber(p: Plan, v: Value) {
    v.Null? || (v.Double? && v.printed == p.numberText(v.r))
  }

  /** A record of the symbol as the scan shows it: keys in the table, numbers and texts in the slots. */
  predicate RealRecord(p: Plan, r: Record) {
    && WellFormed(r, |p.columns.labels|, p.uels)
    && IsNumber(p, r.level) && IsNumber(p, r.marginal) && IsNumber(p, r.lower) && IsNumber(p, r.upper)
    && IsNumber(p, r.scale) && (r.description.Null? || (r.description.Varchar? && r.description.text != ""))
  }

  predicate RealRecords(p: Plan, records: seq<Record>) {
    forall r | r in records :: RealRecord(p, r)
  }

  /** The row shown for a record, with the changed dimension the library reported for it. */
  function PlanRow(p: Plan, f: Fetched): seq<Value> {
    RowOf(p.valueColumns, p.uels, f.record, f.dimFrst)
  }

  predicate KeepsRow(p: Plan, whereClause: seq<Expr>, f: Fetched) {
    Holds(whereClause, p.get, PlanRow(p, f))
  }

  /** The records a clause keeps, and the rows it shows. */
  function Kept(p: Plan, whereClause: seq<Expr>, stream: seq<Fetched>): seq<Record> {
    if stream == [] then []
    else (if KeepsRow(p, whereClause, stream[0]) then [stream[0].record] else []) + Kept(p, whereClause, stream[1..])
  }

  function Shown(p: Plan, whereClause: seq<Expr>, stream: seq<Fetched>): seq<seq<Value>> {
    if stream == [] then []
    else
      (if KeepsRow(p, whereClause, stream[0]) then [PlanRow(p, stream[0])] else [])
        + Shown(p, whereClause, stream[1..])
  }

  /** What a query returns: the records read, their window, then the WHERE clause. */
  function Query(p: Plan, whereClause: seq<Expr>, stream: seq<Fetched>): seq<Record> {
    Kept(p, whereClause, Window(stream, p.offset, p.limit))
  }

  function QueryRows(p: Plan, whereClause: seq<Expr>, stream: seq<Fetched>): seq<seq<Value>> {
    Shown(p, whereClause, Window(stream, p.offset, p.limit))
  }

  /** The library's read with these filters: the accepted records, numbered as they come. */
  ghost function Read(p: Plan, filters: FilterMap, records: seq<Record>): seq<Fetched>
    requires ValidColumns(p.columns) && Resolvable(filters, Names(p.columns))
  {
    Numbered(None, Filtered(DimensionMapOf(filters, Names(p.columns)), p.uels, records))
  }

  function RecordsOf(stream: seq<Fetched>): seq<Record> {
    if stream == [] then [] else [stream[0].record] + RecordsOf(stream[1..])
  }

  lemma {:induction false} RecordsOfNumbered(previous: Option<Record>, records: seq<Record>)
    ensures RecordsOf(Numbered(previous, records)) == records
    decreases records
  {
    if records != [] {
      RecordsOfNumbered(Some(records[0]), records[1..]);
      assert Numbered(previous, records)[1..] == Numbered(Some(records[0]), records[1..]);
    }
  }

  lemma {:induction false} RecordsOfMembers(stream: seq<Fetched>)
    ensures forall f | f in stream :: f.record in RecordsOf(stream)
    ensures |RecordsOf(stream)| == |stream|
  {
    if stream != [] {
      RecordsOfMembers(stream[1..]);
      assert stream == [stream[0]] + stream[1..];
    }
  }

  /** The equalities pushdown takes from the clause. */
  function Equalities(p: Plan, whereClause: seq<Expr>): seq<Requirement> {
    AllRequirements(whereClause, p.get, |p.columns.labels|)
  }

  // ---------------------------------------------------------------- rows a scan can show

  /** `previous` can be the record returned just before `r`. */
  predicate Precedes(p: Plan, previous: Option<Record>, r: Record) {
    previous.Some? ==> RealRecord(p, previous.value) && KeyBefore(previous.value.keys, r.keys)
  }

  /** A record, numbered as in some read of some file with this table. */
  ghost predicate IsRow(p: Plan, f: Fetched) {
    && RealRecord(p, f.record)
    && exists previous :: Precedes(p, previous, f.record) && f.dimFrst == FirstChanged(previous, f.record)
  }

  /** Whatever row over this file's texts the clause keeps, it meets the equalities taken from it. */
  ghost predicate Sound(p: Plan, whereClause: seq<Expr>) {
    forall f: Fetched | IsRow(p, f) && KeepsRow(p, whereClause, f) ::
      Satisfies(Texts(p.uels, f.record), Equalities(p, whereClause))
  }

  /** The clause does not depend on is_sparse_break and is_dense_run. */
  ghost predicate IgnoresMetadata(p: Plan, whereClause: seq<Expr>) {
    forall f: Fetched, g: Fetched | IsRow(p, f) && IsRow(p, g) && f.record == g.record ::
      KeepsRow(p, whereClause, f) == KeepsRow(p, whereClause, g)
  }

  /** `peer` comes before `r` in the same run of the first dimension, and pushdown drops it. */
  ghost predicate DroppedPeer(p: Plan, whereClause: seq<Expr>, peer: Record, r: Record) {
    && RealRecord(p, peer) && RealRecord(p, r) && KeyBefore(peer.keys, r.keys) && peer.keys[0] == r.keys[0]
    && !Satisfies(Texts(p.uels, peer), Equalities(p, whereClause))
  }

  /** The clause keeps `r` as it is reported after `peer`, and as it is reported first. */
  predicate KeptInRun(p: Plan, whereClause: seq<Expr>, peer: Record, r: Record) {
    KeepsRow(p, whereClause, Fetched(r, FirstChanged(Some(peer), r)))
  }

  predicate KeptAtStart(p: Plan, whereClause: seq<Expr>, r: Record) {
    KeepsRow(p, whereClause, Fetched(r, 1))
  }

  /** A record that loses its peers, and so comes to start its run, is kept or dropped as before. */
  ghost predicate Steady(p: Plan, whereClause: seq<Expr>) {
    forall peer: Record, r: Record | DroppedPeer(p, whereClause, peer, r) ::
      KeptInRun(p, whereClause, peer, r) == KeptAtStart(p, whereClause, r)
  }

  /** No record that loses its peers is ever kept. */
  ghost predicate Still(p: Plan, whereClause: seq<Expr>) {
    forall peer: Record, r: Record | DroppedPeer(p, whereClause, peer, r) ::
      !KeptInRun(p, whereClause, peer, r) && !KeptAtStart(p, whereClause, r)
  }

  lemma RowAfter(p: Plan, previous: Option<Record>, r: Record)
    requires RealRecord(p, r) && Precedes(p, previous, r)
    ensures IsRow(p, Fetched(r, FirstChanged(previous, r)))
  {
  }

  lemma RowFirst(p: Plan, r: Record)
    requires RealRecord(p, r)
    ensures IsRow(p, Fetched(r, 1))
  {
    RowAfter(p, None, r);
    assert FirstChanged(None, r) == 1;
  }

  /** The two columns show only whether the first dimension changed. */
  lemma SameFlag(p: Plan, whereClause: seq<Expr>, r: Record, d: nat, e: nat)
    requires d == 1 <==> e == 1
    ensures PlanRow(p, Fetched(r, d)) == PlanRow(p, Fetched(r, e))
  {
    assert MetadataCells(|r.keys|, d) == MetadataCells(|r.keys|, e);
  }

  /** A clause that ignores the two columns is steady. */
  lemma IgnoringIsSteady(p: Plan, whereClause: seq<Expr>)
    requires IgnoresMetadata(p, whereClause)
    ensures Steady(p, whereClause)
  {
    forall peer: Record, r: Record | DroppedPeer(p, whereClause, peer, r)
      ensures KeptInRun(p, whereClause, peer, r) == KeptAtStart(p, whereClause, r)
    {
      RowAfter(p, Some(peer), r);
      RowFirst(p, r);
      assert Fetched(r, FirstChanged(Some(peer), r)).record == Fetched(r, 1).record;
    }
  }

  /** So is one that only takes equalities on the first dimension, whatever it says about them. */
  lemma FirstDimensionIsStill(p: Plan, whereClause: seq<Expr>)
    requires Sound(p, whereClause) && forall q | q in Equalities(p, whereClause) :: q.column == 0
    ensures Still(p, whereClause)
  {
    forall peer: Record, r: Record | DroppedPeer(p, whereClause, peer, r)
      ensures !KeptInRun(p, whereClause, peer, r)
      ensures !KeptAtStart(p, whereClause, r)
    {
      RowAfter(p, Some(peer), r);
      RowFirst(p, r);
      assert Texts(p.uels, peer)[0] == Texts(p.uels, r)[0];
      AllRequirementsFit(whereClause, p.get, |p.columns.labels|);
      assert !Satisfies(Texts(p.uels, r), Equalities(p, whereClause));
    }
  }

  lemma StillIsSteady(p: Plan, whereClause: seq<Expr>)
    requires Still(p, whereClause)
    ensures Steady(p, whereClause)
  {
  }

  predicate CleanTable(uels: UelTable) {
    forall i :: 0 < i < |uels| ==> Clean(uels[i])
  }

  lemma RowShowsTexts(p: Plan, f: Fetched)
    ensures RowShows(PlanRow(p, f), Texts(p.uels, f.record))
  {
  }

  /** Comparisons that are safe for all clean texts are sound in a file of clean texts. */
  lemma SafeFiltersSound(p: Plan, whereClause: seq<Expr>)
    requires CleanTable(p.uels) && SafeFilters(whereClause, p.get, |p.columns.labels|)
    ensures Sound(p, whereClause)
  {
    forall f: Fetched | IsRow(p, f) && KeepsRow(p, whereClause, f)
      ensures Satisfies(Texts(p.uels, f.record), Equalities(p, whereClause))
    {
      RowShowsTexts(p, f);
      AllRequirementsSound(whereClause, p.get, PlanRow(p, f), Texts(p.uels, f.record));
    }
  }

  // ---------------------------------------------------------------- two reads in step

  /** Pushdown ends with the filters `f` when it starts with `filters` and does not throw. */
  ghost predicate Pushes(p: Plan, filters: FilterMap, whereClause: seq<Expr>, f: FilterMap) {
    && ValidColumns(p.columns) && Resolvable(filters, Names(p.columns))
    && AddAll(filters, Offers(Equalities(p, whereClause), p.get)) == Some(f)
    && Resolvable(f, Names(p.columns))
  }

  /** The pushed filters accept what the parameter's do, except records that miss an equality. */
  lemma PushedAccepts(p: Plan, filters: FilterMap, f: FilterMap, whereClause: seq<Expr>, texts: seq<string>)
    requires Pushes(p, filters, whereClause, f) && NamesResolve(p.columns, p.get) && |texts| == |p.columns.labels|
    ensures var before, after := DimensionMapOf(filters, Names(p.columns)), DimensionMapOf(f, Names(p.columns));
      && (Accepts(after, texts) ==> Accepts(before, texts))
      && (Accepts(before, texts) && Satisfies(texts, Equalities(p, whereClause)) ==> Accepts(after, texts))
  {
    var names, qs := Names(p.columns), Equalities(p, whereClause);
    AddAllExtends(filters, Offers(qs, p.get));
    AcceptsByKey(texts, f, names);
    AcceptsByKey(texts, filters, names);
    if Accepts(DimensionMapOf(filters, names), texts) && Satisfies(texts, qs) {
      SatisfiedStaysAccepted(p.columns, p.get, filters, qs, texts);
    }
  }

  /** The last record of the full read and that of the pushed one: the same, or the full read is
      ahead by a record that misses an equality. */
  ghost predicate InStep(p: Plan, whereClause: seq<Expr>, full: Option<Record>, pushed: Option<Record>) {
    full == pushed
    || (&& full.Some? && !Satisfies(Texts(p.uels, full.value), Equalities(p, whereClause))
        && (pushed.Some? ==> KeyBefore(pushed.value.keys, full.value.keys)))
  }

  /** The next record both reads return: either its row is the same in both, or it loses a peer. */
  lemma NextRow(p: Plan, whereClause: seq<Expr>, full: Option<Record>, pushed: Option<Record>, r: Record)
    requires InStep(p, whereClause, full, pushed) && RealRecord(p, r)
    requires Precedes(p, full, r) && Precedes(p, pushed, r)
    ensures var a, b := FirstChanged(full, r), FirstChanged(pushed, r);
      || (a == 1 <==> b == 1)
      || (b == 1 && full.Some? && DroppedPeer(p, whereClause, full.value, r))
  {
    if full != pushed && pushed.Some? && full.value.keys[0] != r.keys[0] {
      assert pushed.value.keys[0] <= full.value.keys[0] < r.keys[0];
    }
  }

  lemma SameFate(p: Plan, whereClause: seq<Expr>, full: Option<Record>, pushed: Option<Record>, r: Record)
    requires InStep(p, whereClause, full, pushed) && RealRecord(p, r) && Steady(p, whereClause)
    requires Precedes(p, full, r) && Precedes(p, pushed, r)
    ensures var a, b := Fetched(r, FirstChanged(full, r)), Fetched(r, FirstChanged(pushed, r));
      && KeepsRow(p, whereClause, a) == KeepsRow(p, whereClause, b)
      && (Still(p, whereClause) && KeepsRow(p, whereClause, a) ==> PlanRow(p, a) == PlanRow(p, b))
  {
    NextRow(p, whereClause, full, pushed, r);
    var a, b := FirstChanged(full, r), FirstChanged(pushed, r);
    if a == 1 <==> b == 1 { SameFlag(p, whereClause, r, a, b); }
  }

  /** `previous` comes before all of `rest`. */
  ghost predicate Ahead(p: Plan, previous: Option<Record>, rest: seq<Record>) {
    forall r | r in rest :: Precedes(p, previous, r)
  }

  lemma AheadTail(p: Plan, previous: Option<Record>, records: seq<Record>)
    requires RealRecords(p, records) && KeySorted(records) && records != [] && Ahead(p, previous, records)
    ensures RealRecord(p, records[0]) && Precedes(p, previous, records[0])
    ensures RealRecords(p, records[1..]) && KeySorted(records[1..])
    ensures Ahead(p, previous, records[1..]) && Ahead(p, Some(records[0]), records[1..])
  {
    assert records[0] in records && forall x | x in records[1..] :: x in records;
    forall i, j | 0 <= i < j < |records[1..]| ensures KeyBefore(records[1..][i].keys, records[1..][j].keys) {
      assert records[1..][i] == records[i + 1] && records[1..][j] == records[j + 1];
    }
    forall x | x in records[1..] ensures KeyBefore(records[0].keys, x.keys) {
      var i :| 0 <= i < |records[1..]| && records[1..][i] == x;
      assert x == records[i + 1];
    }
  }

  /** What a read starting after `previous` keeps and shows of `records`. */
  ghost function KeptOf(p: Plan, filter: DimensionMap, whereClause: seq<Expr>, previous: Option<Record>,
                        records: seq<Record>): seq<Record> {
    Kept(p, whereClause, Numbered(previous, Filtered(filter, p.uels, records)))
  }

  ghost function ShownOf(p: Plan, filter: DimensionMap, whereClause: seq<Expr>, previous: Option<Record>,
                         records: seq<Record>): seq<seq<Value>> {
    Shown(p, whereClause, Numbered(previous, Filtered(filter, p.uels, records)))
  }

  lemma ReadCons(p: Plan, filter: DimensionMap, whereClause: seq<Expr>, previous: Option<Record>, records: seq<Record>)
    requires records != []
    ensures var r, f := records[0], Fetched(records[0], FirstChanged(previous, records[0]));
      var accepted := Accepts(filter, Texts(p.uels, r));
      var kept := accepted && KeepsRow(p, whereClause, f);
      var next := if accepted then Some(r) else previous;
      && KeptOf(p, filter, whereClause, previous, records)
           == (if kept then [r] else []) + KeptOf(p, filter, whereClause, next, records[1..])
      && ShownOf(p, filter, whereClause, previous, records)
           == (if kept then [PlanRow(p, f)] else []) + ShownOf(p, filter, whereClause, next, records[1..])
  {
    var r, rest := records[0], Filtered(filter, p.uels, records[1..]);
    if Accepts(filter, Texts(p.uels, r)) {
      assert ([r] + rest)[1..] == rest && Filtered(filter, p.uels, records) == [r] + rest;
      var stream := Numbered(previous, [r] + rest);
      assert stream[0] == Fetched(r, FirstChanged(previous, r)) && stream[1..] == Numbered(Some(r), rest);
    } else {
      assert Filtered(filter, p.uels, records) == rest;
    }
  }

  /** Over sorted records, a full read and a pushed read that go on in step keep the same
      records of a sound and steady clause, and show the same rows of a still one. */
  lemma {:induction false} ReadsInStep(p: Plan, filters: FilterMap, f: FilterMap, whereClause: seq<Expr>,
                                       records: seq<Record>, full: Option<Record>, pushed: Option<Record>)
    requires Pushes(p, filters, whereClause, f) && NamesResolve(p.columns, p.get)
    requires Sound(p, whereClause) && Steady(p, whereClause) && RealRecords(p, records) && KeySorted(records)
    requires Ahead(p, full, records) && Ahead(p, pushed, records) && InStep(p, whereClause, full, pushed)
    ensures var before, after := DimensionMapOf(filters, Names(p.columns)), DimensionMapOf(f, Names(p.columns));
      && KeptOf(p, before, whereClause, full, records) == KeptOf(p, after, whereClause, pushed, records)
      && (Still(p, whereClause) ==>
            ShownOf(p, before, whereClause, full, records) == ShownOf(p, after, whereClause, pushed, records))
    decreases records
  {
    if records != [] {
      var before, after := DimensionMapOf(filters, Names(p.columns)), DimensionMapOf(f, Names(p.columns));
      var r, texts := records[0], Texts(p.uels, records[0]);
      AheadTail(p, full, records);
      AheadTail(p, pushed, records);
      ReadCons(p, before, whereClause, full, records);
      ReadCons(p, after, whereClause, pushed, records);
      PushedAccepts(p, filters, f, whereClause, texts);
      if !Accepts(before, texts) {
        ReadsInStep(p, filters, f, whereClause, records[1..], full, pushed);
      } else if Accepts(after, texts) {
        SameFate(p, whereClause, full, pushed, r);
        ReadsInStep(p, filters, f, whereClause, records[1..], Some(r), Some(r));
      } else {
        RowAfter(p, full, r);
        assert InStep(p, whereClause, Some(r), pushed);
        ReadsInStep(p, filters, f, whereClause, records[1..], Some(r), pushed);
      }
    }
  }

  /** The rows of a read that a filter accepts, with the numbers they had. */
  ghost function FilteredRows(filter: DimensionMap, uels: UelTable, stream: seq<Fetched>): seq<Fetched> {
    if stream == [] then []
    else
      (if Accepts(filter, Texts(uels, stream[0].record)) then [stream[0]] else [])
        + FilteredRows(filter, uels, stream[1..])
  }

  /** A filter on the first dimension alone keeps whole runs of sorted records: every record is
      reported with the number it has in the full read. */
  lemma {:induction false} FirstDimensionKeepsNumbers(p: Plan, filter: DimensionMap, records: seq<Record>,
                                                      full: Option<Record>, pushed: Option<Record>)
    requires (forall d | d in filter :: d == 0) && RealRecords(p, records) && KeySorted(records)
    requires Ahead(p, full, records) && Ahead(p, pushed, records)
    requires full == pushed || (full.Some? && !Accepts(filter, Texts(p.uels, full.value))
                                && (pushed.Some? ==> KeyBefore(pushed.value.keys, full.value.keys)))
    ensures Numbered(pushed, Filtered(filter, p.uels, records))
         == FilteredRows(filter, p.uels, Numbered(full, records))
    decreases records
  {
    if records != [] {
      var r := records[0];
      AheadTail(p, full, records);
      AheadTail(p, pushed, records);
      var rest := Filtered(filter, p.uels, records[1..]);
      assert Numbered(full, records)[1..] == Numbered(Some(r), records[1..]);
      if Accepts(filter, Texts(p.uels, r)) {
        RunStarts(p, filter, full, pushed, r);
        FirstDimensionKeepsNumbers(p, filter, records[1..], Some(r), Some(r));
        assert ([r] + rest)[0] == r && ([r] + rest)[1..] == rest && Filtered(filter, p.uels, records) == [r] + rest;
      } else {
        FirstDimensionKeepsNumbers(p, filter, records[1..], Some(r), pushed);
        assert Filtered(filter, p.uels, records) == rest;
      }
    }
  }

  lemma RunStarts(p: Plan, filter: DimensionMap, full: Option<Record>, pushed: Option<Record>, r: Record)
    requires (forall d | d in filter :: d == 0) && RealRecord(p, r) && Accepts(filter, Texts(p.uels, r))
    requires Precedes(p, full, r) && Precedes(p, pushed, r)
    requires full == pushed || (full.Some? && !Accepts(filter, Texts(p.uels, full.value))
                                && (pushed.Some? ==> KeyBefore(pushed.value.keys, full.value.keys)))
    ensures FirstChanged(full, r) == FirstChanged(pushed, r)
  {
    if full != pushed {
      var d :| d in filter && !(d < |Texts(p.uels, full.value)| && CIEquals(Texts(p.uels, full.value)[d], filter[d]));
      assert d == 0 && full.value.keys[0] < r.keys[0];
    }
  }

  // ---------------------------------------------------------------- any numbering

  /** The records a clause keeps, for a clause that ignores the changed dimension. */
  ghost function Matching(p: Plan, whereClause: seq<Expr>, records: seq<Record>): seq<Record> {
    if records == [] then []
    else
      (if KeepsRow(p, whereClause, Fetched(records[0], 1)) then [records[0]] else [])
        + Matching(p, whereClause, records[1..])
  }

  /** Every row is one that a scan can show. */
  ghost predicate AllRows(p: Plan, stream: seq<Fetched>) {
    forall f | f in stream :: IsRow(p, f)
  }

  lemma {:induction false} KeptFromRecords(p: Plan, whereClause: seq<Expr>, stream: seq<Fetched>)
    requires IgnoresMetadata(p, whereClause) && AllRows(p, stream)
    ensures Kept(p, whereClause, stream) == Matching(p, whereClause, RecordsOf(stream))
  {
    if stream != [] {
      var records := RecordsOf(stream);
      assert records[0] == stream[0].record && records[1..] == RecordsOf(stream[1..]);
      assert stream[0] in stream && forall x | x in stream[1..] :: x in stream;
      RowFirst(p, records[0]);
      assert Fetched(records[0], 1).record == stream[0].record;
      KeptFromRecords(p, whereClause, stream[1..]);
    }
  }

  lemma FilteredCons(p: Plan, filter: DimensionMap, whereClause: seq<Expr>, r: Record, rest: seq<Record>)
    ensures Matching(p, whereClause, Filtered(filter, p.uels, [r] + rest)) ==
      (if Accepts(filter, Texts(p.uels, r)) && KeptAtStart(p, whereClause, r) then [r] else [])
        + Matching(p, whereClause, Filtered(filter, p.uels, rest))
  {
    var all := [r] + rest;
    assert all[0] == r && all[1..] == rest;
    var tail := Filtered(filter, p.uels, rest);
    if Accepts(filter, Texts(p.uels, r)) {
      assert ([r] + tail)[1..] == tail;
    } else {
      assert Filtered(filter, p.uels, all) == tail;
    }
  }

  /** Among records the WHERE clause keeps, the pushed filters accept the same ones. */
  lemma OneRecord(p: Plan, filters: FilterMap, f: FilterMap, whereClause: seq<Expr>, r: Record)
    requires Pushes(p, filters, whereClause, f) && NamesResolve(p.columns, p.get) && Sound(p, whereClause)
    requires RealRecord(p, r) && KeptAtStart(p, whereClause, r)
    ensures Accepts(DimensionMapOf(f, Names(p.columns)), Texts(p.uels, r))
         == Accepts(DimensionMapOf(filters, Names(p.columns)), Texts(p.uels, r))
  {
    RowFirst(p, r);
    PushedAccepts(p, filters, f, whereClause, Texts(p.uels, r));
  }

  lemma {:induction false} MatchingPreserved(p: Plan, filters: FilterMap, f: FilterMap, whereClause: seq<Expr>,
                                             records: seq<Record>)
    requires Pushes(p, filters, whereClause, f) && NamesResolve(p.columns, p.get) && Sound(p, whereClause)
    requires RealRecords(p, records)
    ensures Matching(p, whereClause, Filtered(DimensionMapOf(f, Names(p.columns)), p.uels, records))
         == Matching(p, whereClause, Filtered(DimensionMapOf(filters, Names(p.columns)), p.uels, records))
  {
    if records != [] {
      var r, rest := records[0], records[1..];
      assert r in records && forall x | x in rest :: x in records;
      MatchingPreserved(p, filters, f, whereClause, rest);
      if KeptAtStart(p, whereClause, r) { OneRecord(p, filters, f, whereClause, r); }
      FilteredCons(p, DimensionMapOf(f, Names(p.columns)), whereClause, r, rest);
      FilteredCons(p, DimensionMapOf(filters, Names(p.columns)), whereClause, r, rest);
      assert records == [r] + rest;
    }
  }

  /** A read with the filters `filters`: the accepted records in order, numbered in some way. */
  ghost predicate ReadOf(p: Plan, filters: FilterMap, records: seq<Record>, stream: seq<Fetched>)
    requires ValidColumns(p.columns) && Resolvable(filters, Names(p.columns))
  {
    AllRows(p, stream) && RecordsOf(stream) == Filtered(DimensionMapOf(filters, Names(p.columns)), p.uels, records)
  }

  /** Over a sound clause that ignores the changed dimension, a pushed read and the read it
      replaces keep the same records, whatever the order of the records and however the library
      numbers the changed dimensions of either. */
  lemma PushdownPreserves(p: Plan, filters: FilterMap, f: FilterMap, whereClause: seq<Expr>, records: seq<Record>,
                          unpushed: seq<Fetched>, pushed: seq<Fetched>)
    requires Pushes(p, filters, whereClause, f) && NamesResolve(p.columns, p.get)
    requires Sound(p, whereClause) && IgnoresMetadata(p, whereClause) && RealRecords(p, records)
    requires ReadOf(p, filters, records, unpushed) && ReadOf(p, f, records, pushed)
    ensures Kept(p, whereClause, pushed) == Kept(p, whereClause, unpushed)
  {
    KeptFromRecords(p, whereClause, unpushed);
    KeptFromRecords(p, whereClause, pushed);
    MatchingPreserved(p, filters, f, whereClause, records);
  }

  // ---------------------------------------------------------------- conflicts

  lemma {:induction false} KeptNone(p: Plan, whereClause: seq<Expr>, stream: seq<Fetched>)
    requires forall f | f in stream :: !KeepsRow(p, whereClause, f)
    ensures Kept(p, whereClause, stream) == [] && Shown(p, whereClause, stream) == []
  {
    if stream != [] {
      assert stream[0] in stream && forall f | f in stream[1..] :: f in stream;
      KeptNone(p, whereClause, stream[1..]);
    }
  }

  /** A conflict is thrown only over a query without results, whatever the numbering. */
  lemma ConflictKeepsNothing(p: Plan, filters: FilterMap, whereClause: seq<Expr>, records: seq<Record>,
                             unpushed: seq<Fetched>)
    requires ValidColumns(p.columns) && NamesResolve(p.columns, p.get) && Resolvable(filters, Names(p.columns))
    requires AddAll(filters, Offers(Equalities(p, whereClause), p.get)).None? && Sound(p, whereClause)
    requires ReadOf(p, filters, records, unpushed)
    ensures Kept(p, whereClause, unpushed) == [] && Shown(p, whereClause, unpushed) == []
  {
    var filter := DimensionMapOf(filters, Names(p.columns));
    FilteredSubset(filter, p.uels, records);
    RecordsOfMembers(unpushed);
    forall f | f in unpushed ensures !KeepsRow(p, whereClause, f) {
      assert f.record in Filtered(filter, p.uels, records) && IsRow(p, f);
      if KeepsRow(p, whereClause, f) {
        SatisfiedStaysAccepted(p.columns, p.get, filters, Equalities(p, whereClause), Texts(p.uels, f.record));
      }
    }
    KeptNone(p, whereClause, unpushed);
  }

  /** The library's read over sorted records shows rows that a scan can show. */
  lemma {:induction false} NumberedRows(p: Plan, previous: Option<Record>, records: seq<Record>)
    requires RealRecords(p, records) && KeySorted(records) && Ahead(p, previous, records)
    ensures AllRows(p, Numbered(previous, records))
    decreases records
  {
    if records != [] {
      AheadTail(p, previous, records);
      NumberedRows(p, Some(records[0]), records[1..]);
      RowAfter(p, previous, records[0]);
      var stream := Numbered(previous, records);
      assert stream == [stream[0]] + Numbered(Some(records[0]), records[1..]);
    }
  }
}
