/** Exactly when pushdown preserves queries: which calls keep the meaning of every clause, and
    which clauses keep their meaning in every call. Also when pushdown throws although a record
    would match. */
module PushdownExactness {
  import opened Wrappers
  import opened Text
  import opened Schema
  import opened Records
  import opened Expressions
  import opened DimensionFilters
  import opened Pushdown
  import opened PushdownMeaning

  // ---------------------------------------------------------------- the statement

  /** A bound call on a file: filters that resolve, and the symbol's records in key order. */
  ghost predicate Admissible(p: Plan, filters: FilterMap, records: seq<Record>) {
    && ValidColumns(p.columns) && Resolvable(filters, Names(p.columns))
    && RealRecords(p, records) && KeySorted(records)
  }

  /** Pushdown does no harm: it reports a conflict only over an empty result, and a read with
      the pushed filters returns the records that the read without them returns. */
  ghost predicate PreservedOn(p: Plan, filters: FilterMap, whereClause: seq<Expr>, records: seq<Record>) {
    Admissible(p, filters, records) ==>
      match AddAll(filters, Offers(Equalities(p, whereClause), p.get))
      case None => Query(p, whereClause, Read(p, filters, records)) == []
      case Some(f) => Resolvable(f, Names(p.columns)) ==>
        Query(p, whereClause, Read(p, f, records)) == Query(p, whereClause, Read(p, filters, records))
  }

  /** The same for whole rows, with the sparse/dense columns they show. */
  ghost predicate RowsPreservedOn(p: Plan, filters: FilterMap, whereClause: seq<Expr>, records: seq<Record>) {
    Admissible(p, filters, records) ==>
      match AddAll(filters, Offers(Equalities(p, whereClause), p.get))
      case None => QueryRows(p, whereClause, Read(p, filters, records)) == []
      case Some(f) => Resolvable(f, Names(p.columns)) ==>
        QueryRows(p, whereClause, Read(p, f, records)) == QueryRows(p, whereClause, Read(p, filters, records))
  }

  /** Some call on some file gives the clause another meaning. */
  ghost predicate Broken(p: Plan, whereClause: seq<Expr>) {
    exists filters, records :: !PreservedOn(p, filters, whereClause, records)
  }

  ghost predicate RowsBroken(p: Plan, whereClause: seq<Expr>) {
    exists filters, records :: !RowsPreservedOn(p, filters, whereClause, records)
  }

  /** Comparisons that are safe for all clean texts, and no dependence on lost peers. */
  ghost predicate Allowed(p: Plan, whereClause: seq<Expr>) {
    SafeFilters(whereClause, p.get, |p.columns.labels|) && Steady(p, whereClause)
  }

  predicate NoWindow(p: Plan) {
    p.offset == 0 && p.limit.None?
  }

  /** The conditions a caller can check before running any query. */
  predicate Faithful(p: Plan) {
    p.limit == Some(0) || (NoWindow(p) && DistinctBases(p.columns.labels) && CleanTable(p.uels))
  }

  /** No dimension is named by whitespace only. */
  predicate NamedColumns(c: Columns) {
    forall d :: 0 <= d < |c.labels| ==> Normalize(Base(c.labels, d)) != ""
  }

  /** A bound symbol with at least one dimension, all of whose domain columns are projected, in
      a file with an element text that comes after more other texts than the window counts. */
  ghost predicate Representative(p: Plan, symbolType: int, x: nat) {
    && FromSchema(p.columns, symbolType, p.valueColumns)
    && p.get.names == p.columns.names
    && |p.columns.labels| >= 1
    && (forall d :: 0 <= d < |p.columns.labels| ==> d in p.get.columnIds)
    && NamedColumns(p.columns)
    && 2 <= x < |p.uels| && !Blank(p.uels[x])
    && (forall i :: 0 < i < x ==> !CIEquals(p.uels[i], p.uels[x]))
    && p.offset < x && (p.limit.Some? ==> p.limit.value < x)
  }

  // ---------------------------------------------------------------- sufficiency

  lemma WindowOfAll<T>(s: seq<T>)
    ensures Window(s, 0, None) == s
  {
  }

  /** Without a window and with distinct names, sound and steady clauses keep their meaning, and
      still ones their rows. */
  lemma SoundPreserves(p: Plan, symbolType: int, filters: FilterMap, whereClause: seq<Expr>, records: seq<Record>)
    requires FromSchema(p.columns, symbolType, p.valueColumns) && p.get.names == p.columns.names
    requires NoWindow(p) && DistinctBases(p.columns.labels) && Sound(p, whereClause) && Steady(p, whereClause)
    ensures PreservedOn(p, filters, whereClause, records)
    ensures Still(p, whereClause) ==> RowsPreservedOn(p, filters, whereClause, records)
  {
    if Admissible(p, filters, records) {
      SameNames(p.columns, p.get, symbolType, p.valueColumns);
      WindowOfAll(Read(p, filters, records));
      match AddAll(filters, Offers(Equalities(p, whereClause), p.get)) {
        case None =>
          ReadIsRead(p, filters, records);
          ConflictKeepsNothing(p, filters, whereClause, records, Read(p, filters, records));
        case Some(f) =>
          if Resolvable(f, Names(p.columns)) {
            WindowOfAll(Read(p, f, records));
            ReadsInStep(p, filters, f, whereClause, records, None, None);
          }
      }
    }
  }

  lemma ReadIsRead(p: Plan, filters: FilterMap, records: seq<Record>)
    requires Admissible(p, filters, records)
    ensures ReadOf(p, filters, records, Read(p, filters, records))
  {
    var filter := DimensionMapOf(filters, Names(p.columns));
    FilteredSorted(p, filter, None, records);
    NumberedRows(p, None, Filtered(filter, p.uels, records));
    RecordsOfNumbered(None, Filtered(filter, p.uels, records));
  }

  lemma {:induction false} FilteredSorted(p: Plan, filter: DimensionMap, previous: Option<Record>, records: seq<Record>)
    requires RealRecords(p, records) && KeySorted(records) && Ahead(p, previous, records)
    ensures RealRecords(p, Filtered(filter, p.uels, records)) && KeySorted(Filtered(filter, p.uels, records))
    ensures Ahead(p, previous, Filtered(filter, p.uels, records))
    decreases records
  {
    FilteredSubset(filter, p.uels, records);
    if records != [] {
      AheadTail(p, previous, records);
      FilteredSorted(p, filter, Some(records[0]), records[1..]);
      var rest := Filtered(filter, p.uels, records[1..]);
      if Accepts(filter, Texts(p.uels, records[0])) {
        forall i, j | 0 <= i < j < |[records[0]] + rest|
          ensures KeyBefore(([records[0]] + rest)[i].keys, ([records[0]] + rest)[j].keys)
        {
          assert rest[j - 1] in rest;
        }
      } else {
        assert Filtered(filter, p.uels, records) == rest;
      }
    }
  }

  /** Under the checkable condition every allowed clause keeps its meaning. */
  lemma FaithfulPreserves(p: Plan, symbolType: int, filters: FilterMap, whereClause: seq<Expr>, records: seq<Record>)
    requires FromSchema(p.columns, symbolType, p.valueColumns) && p.get.names == p.columns.names
    requires Faithful(p) && Allowed(p, whereClause)
    ensures PreservedOn(p, filters, whereClause, records)
    ensures Still(p, whereClause) ==> RowsPreservedOn(p, filters, whereClause, records)
  {
    if p.limit == Some(0) {
      assert forall stream: seq<Fetched> :: Window(stream, p.offset, p.limit) == [];
    } else {
      SafeFiltersSound(p, whereClause);
      SoundPreserves(p, symbolType, filters, whereClause, records);
    }
  }

  // ---------------------------------------------------------------- clauses that can be told apart

  /** `column j = 'text'`. */
  function EqualTo(j: nat, text: string): seq<Expr> {
    [Comparison(Equal, BoundColumnRef(j), Constant(Varchar(text)))]
  }

  lemma EqualToSafe(j: nat, text: string, get: LogicalGet, n: nat)
    requires Trim(text) != ""
    ensures SafeFilters(EqualTo(j, text), get, n)
  {
    var w := EqualTo(j, text);
    TrimFixpoint(text);
    TrimBlank(text);
    TextComparisonExact(Equal, w[0].left, w[0].right);
    assert w[1..] == [] && SafeFilters(w[1..], get, n);
    assert SafeFilter(w[0], get, n);
  }

  lemma EqualToTaken(p: Plan, j: nat, d: nat, text: string)
    requires j < |p.get.columnIds| && p.get.columnIds[j] == d && d < |p.get.names| && d < |p.columns.labels|
    requires Trim(text) != ""
    ensures Equalities(p, EqualTo(j, text)) == [Requirement(d, Trim(text))]
  {
    var w, q := EqualTo(j, text), Requirement(d, Trim(text));
    assert ColumnConstantPair(w[0].left, w[0].right, p.get) == Some(q);
    assert Requirements(w[0], p.get, |p.columns.labels|) == [q];
    assert w[1..] == [] && AllRequirements(w[1..], p.get, |p.columns.labels|) == [];
  }

  lemma KeepsEqualTo(p: Plan, j: nat, d: nat, text: string, f: Fetched)
    requires j < |p.get.columnIds| && p.get.columnIds[j] == d && d < |f.record.keys|
    ensures KeepsRow(p, EqualTo(j, text), f) <==> Texts(p.uels, f.record)[d] == text
  {
    var w, row := EqualTo(j, text), PlanRow(p, f);
    assert row[d] == DomainCells(p.uels, f.record)[d] == Varchar(Texts(p.uels, f.record)[d]);
    assert Eval(w[0], p.get, row) == Compare(Equal, row[d], Varchar(text));
    assert w[1..] == [] && EvalAnd(w[1..], p.get, row) == TRUE;
    assert EvalAnd(w, p.get, row) == Both(Eval(w[0], p.get, row), TRUE);
  }

  lemma EqualToAllowed(p: Plan, j: nat, d: nat, text: string)
    requires j < |p.get.columnIds| && p.get.columnIds[j] == d && d < |p.columns.labels| && Trim(text) != ""
    ensures Allowed(p, EqualTo(j, text))
  {
    EqualToSafe(j, text, p.get, |p.columns.labels|);
    forall f: Fetched, g: Fetched | IsRow(p, f) && IsRow(p, g) && f.record == g.record
      ensures KeepsRow(p, EqualTo(j, text), f) == KeepsRow(p, EqualTo(j, text), g)
    {
      KeepsEqualTo(p, j, d, text, f);
      KeepsEqualTo(p, j, d, text, g);
    }
    IgnoringIsSteady(p, EqualTo(j, text));
  }

  lemma OfferToEmpty(q: Requirement, get: LogicalGet)
    requires Normalize(NameOf(get, q.column)) != "" && Trim(q.value) != ""
    ensures AddAll(map[], Offers([q], get)) == Some(map[Normalize(NameOf(get, q.column)) := OfferOf(q, get).entry])
  {
    assert Offers([q], get) == [OfferOf(q, get)];
    AddOne(map[], OfferOf(q, get));
  }

  lemma SingleFilter(key: string, entry: Entry, names: map<string, nat>)
    requires key in names
    ensures Resolvable(map[key := entry], names)
    ensures DimensionMapOf(map[key := entry], names) == map[names[key] := entry.value]
  {
  }

  /** Pushing the clause into a call without filters yields the one filter `text` on `target`. */
  ghost predicate PushesOnly(p: Plan, whereClause: seq<Expr>, target: nat, text: string) {
    && Allowed(p, whereClause) && ValidColumns(p.columns)
    && match AddAll(map[], Offers(Equalities(p, whereClause), p.get))
       case None => false
       case Some(f) => Resolvable(f, Names(p.columns)) && DimensionMapOf(f, Names(p.columns)) == map[target := text]
  }

  /** `column j = text` filters whatever dimension the column's name resolves to. */
  lemma PushOne(p: Plan, j: nat, d: nat, text: string, target: nat)
    requires ValidColumns(p.columns) && p.get.names == p.columns.names
    requires j < |p.get.columnIds| && p.get.columnIds[j] == d && d < |p.columns.labels|
    requires Normalize(p.columns.names[d]) != "" && Trim(text) != ""
    requires ResolvesTo(p.columns, Normalize(p.columns.names[d]), target)
    ensures PushesOnly(p, EqualTo(j, text), target, Trim(text))
  {
    var q := Requirement(d, Trim(text));
    EqualToAllowed(p, j, d, text);
    EqualToTaken(p, j, d, text);
    TrimIdempotent(text);
    OfferToEmpty(q, p.get);
    SingleFilter(Normalize(p.columns.names[d]), OfferOf(q, p.get).entry, Names(p.columns));
  }

  // ---------------------------------------------------------------- necessity, call by call

  lemma Unfiltered(p: Plan, records: seq<Record>)
    requires ValidColumns(p.columns) && RealRecords(p, records) && KeySorted(records)
    ensures Admissible(p, map[], records) && Read(p, map[], records) == Numbered(None, records)
  {
    var none: FilterMap := map[];
    assert Resolvable(none, Names(p.columns)) && DimensionMapOf(none, Names(p.columns)) == map[];
    FilteredByNothing(p.uels, records);
  }

  /** A difference between the two queries, for a WHERE clause that pushes one filter. */
  lemma Refutes(p: Plan, whereClause: seq<Expr>, target: nat, text: string, records: seq<Record>)
    requires PushesOnly(p, whereClause, target, text) && RealRecords(p, records) && KeySorted(records)
    requires Query(p, whereClause, Numbered(None, Filtered(map[target := text], p.uels, records)))
          != Query(p, whereClause, Numbered(None, records))
    ensures Broken(p, whereClause)
  {
    Unfiltered(p, records);
    assert !PreservedOn(p, map[], whereClause, records);
  }

  lemma {:induction false} KeptMembers(p: Plan, whereClause: seq<Expr>, stream: seq<Fetched>)
    ensures forall r | r in Kept(p, whereClause, stream) :: r in RecordsOf(stream)
  {
    if stream != [] { KeptMembers(p, whereClause, stream[1..]); }
  }

  lemma QueryMembers(p: Plan, whereClause: seq<Expr>, records: seq<Record>)
    ensures forall r | r in Query(p, whereClause, Numbered(None, records)) :: r in records
  {
    var window := Window(Numbered(None, records), p.offset, p.limit);
    KeptMembers(p, whereClause, window);
    RecordsOfNumbered(None, records);
    RecordsOfMembers(Numbered(None, records));
    RecordsAmong(window, records);
  }

  lemma {:induction false} RecordsAmong(stream: seq<Fetched>, records: seq<Record>)
    requires forall f | f in stream :: f.record in records
    ensures forall r | r in RecordsOf(stream) :: r in records
  {
    if stream != [] {
      assert stream[0] in stream && forall f | f in stream[1..] :: f in stream;
      RecordsAmong(stream[1..], records);
    }
  }

  lemma KeptOne(p: Plan, whereClause: seq<Expr>, f: Fetched)
    ensures Kept(p, whereClause, [f]) == if KeepsRow(p, whereClause, f) then [f.record] else []
    ensures Shown(p, whereClause, [f]) == if KeepsRow(p, whereClause, f) then [PlanRow(p, f)] else []
  {
    assert [f][0] == f && [f][1..] == [];
    assert Kept(p, whereClause, []) == [] && Shown(p, whereClause, []) == [];
  }

  /** The number of the last record of a read. */
  lemma {:induction false} NumberedLast(previous: Option<Record>, before: seq<Record>, r: Record)
    ensures var last := if before == [] then previous else Some(before[|before| - 1]);
      Numbered(previous, before + [r]) == Numbered(previous, before) + [Fetched(r, FirstChanged(last, r))]
    decreases before
  {
    if before == [] {
      assert [] + [r] == [r] && [r][1..] == [];
    } else {
      assert (before + [r])[1..] == before[1..] + [r];
      NumberedLast(Some(before[0]), before[1..], r);
    }
  }

  /** A record the WHERE clause keeps but the pushed filter drops, behind as many records as the
      window skips. */
  lemma BadRecord(p: Plan, whereClause: seq<Expr>, target: nat, text: string, before: seq<Record>, r: Record)
    requires PushesOnly(p, whereClause, target, text) && p.limit != Some(0) && |before| == p.offset
    requires RealRecords(p, before + [r]) && KeySorted(before + [r])
    requires forall d: nat :: KeepsRow(p, whereClause, Fetched(r, d))
    requires !Accepts(map[target := text], Texts(p.uels, r))
    ensures Broken(p, whereClause)
  {
    var filter: DimensionMap, records := map[target := text], before + [r];
    NumberedLast(None, before, r);
    var stream := Numbered(None, records);
    assert Window(stream, p.offset, p.limit) == [stream[p.offset]];
    KeptOne(p, whereClause, stream[p.offset]);
    FilteredSubset(filter, p.uels, records);
    QueryMembers(p, whereClause, Filtered(filter, p.uels, records));
    assert r in Query(p, whereClause, stream);
    Refutes(p, whereClause, target, text, records);
  }

  function Row(keys: seq<int>): Record {
    Record(keys, Null, Null, Null, Null, Null, Null)
  }

  /** Every dimension shows the element `x`, except `odd`, which shows `y`. */
  function Keys(p: Plan, x: int, odd: nat, y: int): seq<int> {
    seq(|p.columns.labels|, i => if i == odd then y else x)
  }

  lemma RowTexts(p: Plan, x: int, odd: nat, y: int)
    requires 0 < x < |p.uels| && 0 < y < |p.uels|
    ensures var r := Row(Keys(p, x, odd, y));
      && RealRecord(p, r)
      && forall i :: 0 <= i < |p.columns.labels| ==>
           Texts(p.uels, r)[i] == (if i == odd then p.uels[y] else p.uels[x])
  {
  }

  /** The records that differ from `keys` in the first dimension only, which shows 1, 2, ..., n. */
  function Run(keys: seq<int>, n: nat): (records: seq<Record>)
    requires keys != []
    ensures |records| == n
  {
    seq(n, i requires 0 <= i < n => Row(keys[0 := i + 1]))
  }

  lemma RunSorted(p: Plan, keys: seq<int>, n: nat)
    requires RealRecord(p, Row(keys)) && keys != [] && n < keys[0]
    ensures RealRecords(p, Run(keys, n) + [Row(keys)]) && KeySorted(Run(keys, n) + [Row(keys)])
    ensures forall i :: 0 <= i < n ==>
      Texts(p.uels, Run(keys, n)[i]) == Texts(p.uels, Row(keys))[0 := p.uels[i + 1]]
  {
    var records := Run(keys, n) + [Row(keys)];
    forall i | 0 <= i < |records| ensures RealRecord(p, records[i]) { }
    forall i, j | 0 <= i < j < |records| ensures KeyBefore(records[i].keys, records[j].keys) {
      assert records[i].keys[0] == i + 1 && records[j].keys[0] > i + 1;
    }
  }

  /** The first domain column keeps its name, and every domain column is projected. */
  lemma FirstColumn(p: Plan, symbolType: int, x: nat) returns (j: nat, target: nat)
    requires Representative(p, symbolType, x)
    ensures ValidColumns(p.columns) && j < |p.get.columnIds| && p.get.columnIds[j] == 0
    ensures Normalize(p.columns.names[0]) != "" && ResolvesTo(p.columns, Normalize(p.columns.names[0]), target)
    ensures target < |p.columns.labels|
  {
    var c := p.columns;
    DomainNames(c, symbolType, p.valueColumns);
    assert c.names[0] == Base(c.labels, 0) && c.names[..0] == [];
    j, target := ProjectedColumn(p, 0);
  }

  lemma ProjectedColumn(p: Plan, d: nat) returns (j: nat, target: nat)
    requires ValidColumns(p.columns) && d < |p.columns.labels| && d in p.get.columnIds
    ensures j < |p.get.columnIds| && p.get.columnIds[j] == d
    ensures ResolvesTo(p.columns, Normalize(p.columns.names[d]), target) && target < |p.columns.labels|
  {
    j :| 0 <= j < |p.get.columnIds| && p.get.columnIds[j] == d;
    var keys, key := AllKeys(p.columns), Normalize(p.columns.names[d]);
    NameMapLookup(keys, key);
    assert keys[d][0] == key;
    target := Names(p.columns)[key];
  }

  /** An element text with whitespace at an end is filtered out by its own trimmed form. */
  lemma UncleanText(p: Plan, symbolType: int, x: nat, dirty: nat)
    requires Representative(p, symbolType, x) && p.limit != Some(0)
    requires p.offset < dirty < |p.uels| && !Clean(p.uels[dirty])
    ensures exists whereClause :: Allowed(p, whereClause) && Broken(p, whereClause)
  {
    var u := p.uels[dirty];
    var j, target := FirstColumn(p, symbolType, x);
    TrimBlank(u);
    PushOne(p, j, 0, u, target);
    var keys := Keys(p, dirty, 0, dirty);
    RowTexts(p, dirty, 0, dirty);
    RunSorted(p, keys, p.offset);
    forall d: nat ensures KeepsRow(p, EqualTo(j, u), Fetched(Row(keys), d)) {
      KeepsEqualTo(p, j, 0, u, Fetched(Row(keys), d));
    }
    UncleanShorter(u);
    assert target in map[target := Trim(u)] && Texts(p.uels, Row(keys))[target] == u;
    BadRecord(p, EqualTo(j, u), target, Trim(u), Run(keys, p.offset), Row(keys));
  }

  lemma UncleanShorter(u: string)
    requires !Clean(u)
    ensures !CIEquals(u, Trim(u))
  {
    TrimFixpoint(u);
    var lo, hi := TrimShape(u);
    assert |Lower(u)| == |u| && |Lower(Trim(u))| == |Trim(u)|;
    assert u[0..|u|] == u;
  }

  /** A column whose name belongs to another dimension filters that dimension instead. */
  lemma MisresolvedColumn(p: Plan, symbolType: int, x: nat, d: nat, j: nat, target: nat)
    requires Representative(p, symbolType, x) && ValidColumns(p.columns) && p.limit != Some(0) && Clean(p.uels[x])
    requires d < |p.columns.labels| && j < |p.get.columnIds| && p.get.columnIds[j] == d
    requires Normalize(p.columns.names[d]) != "" && ResolvesTo(p.columns, Normalize(p.columns.names[d]), target)
    requires target < |p.columns.labels| && target != d && (p.offset > 0 ==> target != 0)
    ensures exists whereClause :: Allowed(p, whereClause) && Broken(p, whereClause)
  {
    var a, keys := p.uels[x], Keys(p, x, target, 1);
    TrimFixpoint(a);
    TrimBlank(a);
    PushOne(p, j, d, a, target);
    RowTexts(p, x, target, 1);
    RunSorted(p, keys, p.offset);
    forall e: nat ensures KeepsRow(p, EqualTo(j, a), Fetched(Row(keys), e)) {
      KeepsEqualTo(p, j, d, a, Fetched(Row(keys), e));
    }
    assert target in map[target := a] && Texts(p.uels, Row(keys))[target] == p.uels[1];
    BadRecord(p, EqualTo(j, a), target, a, Run(keys, p.offset), Row(keys));
  }

  lemma Misresolved(p: Plan, symbolType: int, x: nat)
    requires Representative(p, symbolType, x) && NoWindow(p) && CleanTable(p.uels) && !DistinctBases(p.columns.labels)
    ensures exists whereClause :: Allowed(p, whereClause) && Broken(p, whereClause)
  {
    var d := ShadowedColumn(p, symbolType);
    var j, target := ProjectedColumn(p, d);
    MisresolvedColumn(p, symbolType, x, d, j, target);
  }

  lemma ShadowedColumn(p: Plan, symbolType: int) returns (d: nat)
    requires FromSchema(p.columns, symbolType, p.valueColumns) && !DistinctBases(p.columns.labels)
    requires NamedColumns(p.columns)
    ensures ValidColumns(p.columns) && d < |p.columns.labels| && Normalize(p.columns.names[d]) != ""
    ensures !ResolvesTo(p.columns, Normalize(p.columns.names[d]), d)
  {
    var c := p.columns;
    DomainNames(c, symbolType, p.valueColumns);
    var i, later :| 0 <= i < later < |c.labels| && Normalize(Base(c.labels, i)) == Normalize(Base(c.labels, later));
    d :| 0 <= d <= i && c.names[d] == Base(c.labels, i);
    ShadowedName(c, d, later);
  }

  /** A window counts records before the WHERE clause but after the pushed filter. */
  lemma WindowShifts(p: Plan, symbolType: int, x: nat)
    requires Representative(p, symbolType, x) && p.limit != Some(0) && !NoWindow(p)
    ensures exists whereClause :: Allowed(p, whereClause) && Broken(p, whereClause)
  {
    var j, target := FirstColumn(p, symbolType, x);
    if !Clean(p.uels[x]) {
      UncleanText(p, symbolType, x, x);
    } else if target != 0 {
      MisresolvedColumn(p, symbolType, x, 0, j, target);
    } else {
      var a := p.uels[x];
      TrimFixpoint(a);
      TrimBlank(a);
      PushOne(p, j, 0, a, 0);
      ShiftedWindow(p, j, x);
    }
  }

  /** The records in front of the only one that matches. */
  lemma RunInFront(p: Plan, j: nat, x: nat, n: nat)
    requires 0 < x < |p.uels| && n < x && |p.columns.labels| >= 1 && j < |p.get.columnIds| && p.get.columnIds[j] == 0
    requires forall i :: 0 < i < x ==> !CIEquals(p.uels[i], p.uels[x])
    ensures var keys, a := Keys(p, x, 0, x), p.uels[x];
      && keys != [] && RealRecords(p, Run(keys, n) + [Row(keys)]) && KeySorted(Run(keys, n) + [Row(keys)])
      && (forall f: Fetched | f.record in Run(keys, n) :: !KeepsRow(p, EqualTo(j, a), f))
      && (forall r | r in Run(keys, n) :: !Accepts(map[0 := a], Texts(p.uels, r)))
      && (forall d: nat :: KeepsRow(p, EqualTo(j, a), Fetched(Row(keys), d)))
      && Accepts(map[0 := a], Texts(p.uels, Row(keys)))
  {
    var keys, a := Keys(p, x, 0, x), p.uels[x];
    var filter: DimensionMap := map[0 := a];
    RowTexts(p, x, 0, x);
    RunSorted(p, keys, n);
    forall f: Fetched | f.record in Run(keys, n) ensures !KeepsRow(p, EqualTo(j, a), f) {
      KeepsEqualTo(p, j, 0, a, f);
    }
    forall r | r in Run(keys, n) ensures !Accepts(filter, Texts(p.uels, r)) {
      assert 0 in filter;
    }
    forall d: nat ensures KeepsRow(p, EqualTo(j, a), Fetched(Row(keys), d)) {
      KeepsEqualTo(p, j, 0, a, Fetched(Row(keys), d));
    }
  }

  lemma {:induction false} FilteredTail(filter: DimensionMap, uels: UelTable, before: seq<Record>, good: Record)
    requires forall r | r in before :: !Accepts(filter, Texts(uels, r))
    ensures Filtered(filter, uels, before + [good]) == if Accepts(filter, Texts(uels, good)) then [good] else []
  {
    if before == [] {
      assert [] + [good] == [good] && [good][1..] == [];
    } else {
      assert before[0] in before && forall r | r in before[1..] :: r in before;
      assert (before + [good])[1..] == before[1..] + [good];
      FilteredTail(filter, uels, before[1..], good);
    }
  }

  /** Records dropped by the filter use up the offset or the limit of the unpushed query. */
  lemma ShiftedWindow(p: Plan, j: nat, x: nat)
    requires 0 < x < |p.uels| && |p.columns.labels| >= 1 && j < |p.get.columnIds| && p.get.columnIds[j] == 0
    requires (forall i :: 0 < i < x ==> !CIEquals(p.uels[i], p.uels[x])) && !NoWindow(p) && p.limit != Some(0)
    requires p.offset < x && (p.limit.Some? ==> p.limit.value < x) && PushesOnly(p, EqualTo(j, p.uels[x]), 0, p.uels[x])
    ensures Broken(p, EqualTo(j, p.uels[x]))
  {
    var n := if p.offset > 0 then p.offset else p.limit.value;
    var w, keys, filter: DimensionMap := EqualTo(j, p.uels[x]), Keys(p, x, 0, x), map[0 := p.uels[x]];
    var front, good := Run(keys, n), Row(keys);
    RunInFront(p, j, x, n);
    GoodBehindFront(p, w, filter, front, good);
    Refutes(p, w, 0, p.uels[x], front + [good]);
  }

  /** The pushed query finds the one record that matches elsewhere than the unpushed one. */
  lemma GoodBehindFront(p: Plan, whereClause: seq<Expr>, filter: DimensionMap, front: seq<Record>, good: Record)
    requires !NoWindow(p) && p.limit != Some(0) && |front| == if p.offset > 0 then p.offset else p.limit.value
    requires forall f: Fetched | f.record in front :: !KeepsRow(p, whereClause, f)
    requires forall r | r in front :: !Accepts(filter, Texts(p.uels, r))
    requires Accepts(filter, Texts(p.uels, good)) && forall d: nat :: KeepsRow(p, whereClause, Fetched(good, d))
    ensures Query(p, whereClause, Numbered(None, Filtered(filter, p.uels, front + [good])))
         != Query(p, whereClause, Numbered(None, front + [good]))
  {
    FilteredTail(filter, p.uels, front, good);
    NumberedLast(None, front, good);
    RecordsOfNumbered(None, front);
    RecordsOfMembers(Numbered(None, front));
    KeptNone(p, whereClause, Numbered(None, front));
    var last := if front == [] then None else Some(front[|front| - 1]);
    assert Numbered(None, [good]) == [Fetched(good, 1)] by { assert [good][1..] == []; }
    WindowBehind(p, whereClause, Numbered(None, front), Fetched(good, FirstChanged(last, good)), Fetched(good, 1));
  }

  lemma WindowBehind(p: Plan, whereClause: seq<Expr>, front: seq<Fetched>, last: Fetched, alone: Fetched)
    requires !NoWindow(p) && p.limit != Some(0) && |front| == if p.offset > 0 then p.offset else p.limit.value
    requires KeepsRow(p, whereClause, last) && KeepsRow(p, whereClause, alone) && Kept(p, whereClause, front) == []
    ensures Query(p, whereClause, [alone]) != Query(p, whereClause, front + [last])
  {
    KeptOne(p, whereClause, last);
    KeptOne(p, whereClause, alone);
    if p.offset > 0 {
      assert (front + [last])[p.offset..] == [last];
      assert Window([alone], p.offset, p.limit) == [] && Window(front + [last], p.offset, p.limit) == [last];
    } else {
      assert (front + [last])[0..] == front + [last] && [alone][0..] == [alone];
      assert Window(front + [last], 0, p.limit) == front && Window([alone], 0, p.limit) == [alone];
    }
  }

  /** Every allowed clause keeps its meaning in every call on a file if and only if the window
      is empty, or there is no window, the dimension names are distinct after lower-casing and
      trimming, and trimming changes no element text. */
  lemma PushdownPreservesExactly(p: Plan, symbolType: int, x: nat)
    requires Representative(p, symbolType, x)
    ensures (forall whereClause | Allowed(p, whereClause) :: !Broken(p, whereClause)) <==> Faithful(p)
  {
    if Faithful(p) {
      forall whereClause, filters, records | Allowed(p, whereClause)
        ensures PreservedOn(p, filters, whereClause, records)
      {
        FaithfulPreserves(p, symbolType, filters, whereClause, records);
      }
    } else if !NoWindow(p) {
      WindowShifts(p, symbolType, x);
    } else if !CleanTable(p.uels) {
      var i :| 0 < i < |p.uels| && !Clean(p.uels[i]);
      UncleanText(p, symbolType, x, i);
    } else {
      Misresolved(p, symbolType, x);
    }
  }

  // ---------------------------------------------------------------- necessity, clause by clause

  /** What a filter map holds after offers were added to it without a conflict. */
  lemma {:induction false} OffersKept(filters: FilterMap, offers: seq<Offer>)
    requires AddAll(filters, offers).Some?
    ensures var f := AddAll(filters, offers).value;
      && (forall o | o in offers && o.key != "" && o.entry.value != "" ::
            o.key in f && CIEquals(f[o.key].value, o.entry.value))
    decreases offers
  {
    if offers != [] {
      var (more, addition) := AddEntry(filters, offers[0].key, offers[0].entry);
      OffersKept(more, offers[1..]);
      AddAllExtends(more, offers[1..]);
      assert offers == [offers[0]] + offers[1..];
    }
  }

  lemma {:induction false} KeyOffered(filters: FilterMap, offers: seq<Offer>, key: string) returns (i: nat)
    requires AddAll(filters, offers).Some? && key in AddAll(filters, offers).value && key !in filters
    ensures i < |offers| && offers[i].key == key
    decreases offers
  {
    var (more, addition) := AddEntry(filters, offers[0].key, offers[0].entry);
    if key in more {
      i := 0;
    } else {
      i := KeyOffered(more, offers[1..], key);
      i := i + 1;
    }
  }

  /** A call without filters over named columns, in which every column resolves to itself. */
  ghost predicate Straight(p: Plan) {
    && ValidColumns(p.columns) && NamesResolve(p.columns, p.get) && p.get.names == p.columns.names
    && forall d :: 0 <= d < |p.columns.labels| ==> Normalize(p.columns.names[d]) != ""
  }

  /** Each requirement sits under its own column's name, and nothing else does. */
  ghost predicate HoldsRequirements(c: Columns, f: FilterMap, qs: seq<Requirement>)
    requires ValidColumns(c)
  {
    && (forall q | q in qs ::
          q.column < |c.labels| && Normalize(c.names[q.column]) in f
          && CIEquals(f[Normalize(c.names[q.column])].value, q.value))
    && (forall key | key in f :: exists q :: q in qs && q.column < |c.labels| && key == Normalize(c.names[q.column]))
  }

  lemma PushedHolds(p: Plan, whereClause: seq<Expr>, f: FilterMap)
    requires Straight(p) && AddAll(map[], Offers(Equalities(p, whereClause), p.get)) == Some(f)
    ensures HoldsRequirements(p.columns, f, Equalities(p, whereClause))
  {
    forall q | q in Equalities(p, whereClause)
      ensures q.column < |p.columns.labels| && Normalize(p.columns.names[q.column]) in f
      ensures CIEquals(f[Normalize(p.columns.names[q.column])].value, q.value)
    {
      RequirementPushed(p, whereClause, f, q);
    }
    forall key | key in f
      ensures exists q ::
        q in Equalities(p, whereClause) && q.column < |p.columns.labels| && key == Normalize(p.columns.names[q.column])
    {
      var q := PushedRequirement(p, whereClause, f, key);
    }
  }

  lemma RequirementPushed(p: Plan, whereClause: seq<Expr>, f: FilterMap, q: Requirement)
    requires Straight(p) && AddAll(map[], Offers(Equalities(p, whereClause), p.get)) == Some(f)
    requires q in Equalities(p, whereClause)
    ensures q.column < |p.columns.labels| && Normalize(p.columns.names[q.column]) in f
    ensures CIEquals(f[Normalize(p.columns.names[q.column])].value, q.value)
  {
    var qs := Equalities(p, whereClause);
    AllRequirementsFit(whereClause, p.get, |p.columns.labels|);
    OffersKept(map[], Offers(qs, p.get));
    TrimFixpoint(q.value);
    var i :| 0 <= i < |qs| && qs[i] == q;
    assert Offers(qs, p.get)[i] == OfferOf(q, p.get) && OfferOf(q, p.get) in Offers(qs, p.get);
  }

  lemma PushedRequirement(p: Plan, whereClause: seq<Expr>, f: FilterMap, key: string) returns (q: Requirement)
    requires Straight(p) && AddAll(map[], Offers(Equalities(p, whereClause), p.get)) == Some(f) && key in f
    ensures q in Equalities(p, whereClause) && q.column < |p.columns.labels|
    ensures key == Normalize(p.columns.names[q.column])
  {
    AllRequirementsFit(whereClause, p.get, |p.columns.labels|);
    var i := KeyOffered(map[], Offers(Equalities(p, whereClause), p.get), key);
    q := Equalities(p, whereClause)[i];
  }

  /** Requirements pushed into a call without filters always resolve, and the read accepts only
      records that meet them. */
  lemma PushedFromNothing(p: Plan, whereClause: seq<Expr>, f: FilterMap)
    requires Straight(p) && AddAll(map[], Offers(Equalities(p, whereClause), p.get)) == Some(f)
    ensures Pushes(p, map[], whereClause, f)
    ensures Equalities(p, whereClause) != [] ==> f != map[]
  {
    var qs, names := Equalities(p, whereClause), Names(p.columns);
    forall key | key in f
      ensures key in names && names[key] < |p.columns.names| && key == Normalize(p.columns.names[names[key]])
    {
      OwnKey(p, whereClause, f, key);
    }
    if qs != [] {
      PushedHolds(p, whereClause, f);
      assert qs[0] in qs;
    }
  }

  lemma OwnKey(p: Plan, whereClause: seq<Expr>, f: FilterMap, key: string)
    requires Straight(p) && AddAll(map[], Offers(Equalities(p, whereClause), p.get)) == Some(f) && key in f
    ensures key in Names(p.columns) && Names(p.columns)[key] < |p.columns.names|
    ensures key == Normalize(p.columns.names[Names(p.columns)[key]])
  {
    var q := PushedRequirement(p, whereClause, f, key);
    assert ResolvesTo(p.columns, Normalize(NameOf(p.get, q.column)), q.column);
  }

  lemma AcceptedMeets(p: Plan, whereClause: seq<Expr>, f: FilterMap, texts: seq<string>)
    requires Straight(p) && AddAll(map[], Offers(Equalities(p, whereClause), p.get)) == Some(f)
    requires Resolvable(f, Names(p.columns)) && Accepts(DimensionMapOf(f, Names(p.columns)), texts)
    ensures Satisfies(texts, Equalities(p, whereClause))
  {
    var qs, names := Equalities(p, whereClause), Names(p.columns);
    PushedHolds(p, whereClause, f);
    AcceptsByKey(texts, f, names);
    AllRequirementsFit(whereClause, p.get, |p.columns.labels|);
    forall q | q in qs ensures q.column < |texts| && CIEquals(texts[q.column], q.value) {
      var key := Normalize(p.columns.names[q.column]);
      assert ResolvesTo(p.columns, Normalize(NameOf(p.get, q.column)), q.column);
      assert key in f && names[key] == q.column;
    }
  }

  lemma WindowOfNone(p: Plan, whereClause: seq<Expr>, stream: seq<Fetched>)
    requires NoWindow(p)
    ensures Query(p, whereClause, stream) == Kept(p, whereClause, stream)
    ensures QueryRows(p, whereClause, stream) == Shown(p, whereClause, stream)
  {
    WindowOfAll(stream);
  }

  /** A record behind at most one other in a file. */
  function Behind(previous: Option<Record>): seq<Record> {
    if previous.None? then [] else [previous.value]
  }

  lemma SmallFile(p: Plan, previous: Option<Record>, r: Record)
    requires RealRecord(p, r) && Precedes(p, previous, r)
    ensures var records := Behind(previous) + [r];
      && RealRecords(p, records) && KeySorted(records)
      && Numbered(None, records) == Numbered(None, Behind(previous)) + [Fetched(r, FirstChanged(previous, r))]
  {
    NumberedLast(None, Behind(previous), r);
    var records := Behind(previous) + [r];
    assert forall x | x in records :: x == r || (previous.Some? && x == previous.value);
  }

  lemma {:induction false} KeptConcat(p: Plan, whereClause: seq<Expr>, a: seq<Fetched>, b: seq<Fetched>)
    ensures Kept(p, whereClause, a + b) == Kept(p, whereClause, a) + Kept(p, whereClause, b)
    ensures Shown(p, whereClause, a + b) == Shown(p, whereClause, a) + Shown(p, whereClause, b)
  {
    if a == [] {
      assert a + b == b;
    } else {
      assert (a + b)[1..] == a[1..] + b;
      KeptConcat(p, whereClause, a[1..], b);
    }
  }

  /** Two reads with different results refute preservation. */
  lemma DifferentResults(p: Plan, filters: FilterMap, f: FilterMap, whereClause: seq<Expr>, records: seq<Record>)
    requires Admissible(p, filters, records) && Pushes(p, filters, whereClause, f)
    ensures Query(p, whereClause, Read(p, f, records)) != Query(p, whereClause, Read(p, filters, records)) ==>
      Broken(p, whereClause)
    ensures QueryRows(p, whereClause, Read(p, f, records)) != QueryRows(p, whereClause, Read(p, filters, records)) ==>
      RowsBroken(p, whereClause)
  {
    if Query(p, whereClause, Read(p, f, records)) != Query(p, whereClause, Read(p, filters, records)) {
      assert !PreservedOn(p, filters, whereClause, records);
    }
    if QueryRows(p, whereClause, Read(p, f, records)) != QueryRows(p, whereClause, Read(p, filters, records)) {
      assert !RowsPreservedOn(p, filters, whereClause, records);
    }
  }

  /** A conflict over a query with results refutes preservation. */
  lemma ConflictOverResult(p: Plan, filters: FilterMap, whereClause: seq<Expr>, records: seq<Record>)
    requires Admissible(p, filters, records) && AddAll(filters, Offers(Equalities(p, whereClause), p.get)).None?
    ensures Query(p, whereClause, Read(p, filters, records)) != [] ==> Broken(p, whereClause)
    ensures QueryRows(p, whereClause, Read(p, filters, records)) != [] ==> RowsBroken(p, whereClause)
  {
    if Query(p, whereClause, Read(p, filters, records)) != [] {
      assert !PreservedOn(p, filters, whereClause, records);
    }
    if QueryRows(p, whereClause, Read(p, filters, records)) != [] {
      assert !RowsPreservedOn(p, filters, whereClause, records);
    }
  }

  /** A small file read without filters: its last row is kept. */
  lemma LastRowKept(p: Plan, whereClause: seq<Expr>, previous: Option<Record>, r: Record)
    requires ValidColumns(p.columns) && NoWindow(p) && RealRecord(p, r) && Precedes(p, previous, r)
    requires KeepsRow(p, whereClause, Fetched(r, FirstChanged(previous, r)))
    ensures var records, start := Behind(previous) + [r], Numbered(None, Behind(previous));
      && Admissible(p, map[], records)
      && Query(p, whereClause, Read(p, map[], records)) == Kept(p, whereClause, start) + [r]
      && QueryRows(p, whereClause, Read(p, map[], records))
           == Shown(p, whereClause, start) + [PlanRow(p, Fetched(r, FirstChanged(previous, r)))]
  {
    var records, f := Behind(previous) + [r], Fetched(r, FirstChanged(previous, r));
    SmallFile(p, previous, r);
    Unfiltered(p, records);
    KeptOne(p, whereClause, f);
    KeptConcat(p, whereClause, Numbered(None, Behind(previous)), [f]);
    WindowOfNone(p, whereClause, Numbered(None, records));
  }

  /** A row the clause keeps although it misses an equality: pushdown drops it, or reports a
      conflict over it. */
  lemma UnsoundBreaks(p: Plan, whereClause: seq<Expr>, previous: Option<Record>, r: Record)
    requires Straight(p) && NoWindow(p) && RealRecord(p, r) && Precedes(p, previous, r)
    requires KeepsRow(p, whereClause, Fetched(r, FirstChanged(previous, r)))
    requires !Satisfies(Texts(p.uels, r), Equalities(p, whereClause))
    ensures Broken(p, whereClause) && RowsBroken(p, whereClause)
  {
    var records := Behind(previous) + [r];
    LastRowKept(p, whereClause, previous, r);
    var pushed := AddAll(map[], Offers(Equalities(p, whereClause), p.get));
    if pushed.None? {
      ConflictOverResult(p, map[], whereClause, records);
    } else {
      PushedFromNothing(p, whereClause, pushed.value);
      RowLost(p, whereClause, pushed.value, previous, r);
      DifferentResults(p, map[], pushed.value, whereClause, records);
    }
  }

  /** With the pushed filters the file reads at most as its start. */
  lemma RowLost(p: Plan, whereClause: seq<Expr>, pushed: FilterMap, previous: Option<Record>, r: Record)
    requires Straight(p) && NoWindow(p) && |r.keys| == |p.columns.labels|
    requires !Satisfies(Texts(p.uels, r), Equalities(p, whereClause))
    requires Pushes(p, map[], whereClause, pushed)
    ensures var start, read := Numbered(None, Behind(previous)), Read(p, pushed, Behind(previous) + [r]);
      && |Query(p, whereClause, read)| <= |Kept(p, whereClause, start)|
      && |QueryRows(p, whereClause, read)| <= |Shown(p, whereClause, start)|
  {
    var filter := DimensionMapOf(pushed, Names(p.columns));
    if Accepts(filter, Texts(p.uels, r)) { AcceptedMeets(p, whereClause, pushed, Texts(p.uels, r)); }
    FilteredShorter(p, filter, previous, r);
    WindowOfNone(p, whereClause, Read(p, pushed, Behind(previous) + [r]));
    KeptLength(p, whereClause, Read(p, pushed, Behind(previous) + [r]), Numbered(None, Behind(previous)));
  }

  /** A filter that drops the last record reads at most the start of the file. */
  lemma FilteredShorter(p: Plan, filter: DimensionMap, previous: Option<Record>, r: Record)
    requires !Accepts(filter, Texts(p.uels, r))
    ensures var read := Numbered(None, Filtered(filter, p.uels, Behind(previous) + [r]));
      read == [] || read == Numbered(None, Behind(previous))
  {
    if previous.Some? {
      assert [previous.value] + [r] == [previous.value, r] && [previous.value, r][1..] == [r] && [r][1..] == [];
      assert Filtered(filter, p.uels, [r]) == [];
    } else {
      assert [] + [r] == [r] && [r][1..] == [];
    }
  }

  lemma KeptLength(p: Plan, whereClause: seq<Expr>, read: seq<Fetched>, start: seq<Fetched>)
    requires read == [] || read == start
    ensures |Kept(p, whereClause, read)| <= |Kept(p, whereClause, start)|
    ensures |Shown(p, whereClause, read)| <= |Shown(p, whereClause, start)|
  {
  }

  /** What a file of two records of one run shows, the first of which pushdown drops: the full
      read reports the second as continuing the run, the filtered one as starting it. */
  lemma PeerInFull(p: Plan, whereClause: seq<Expr>, peer: Record, r: Record)
    requires ValidColumns(p.columns) && NoWindow(p) && Sound(p, whereClause) && DroppedPeer(p, whereClause, peer, r)
    ensures var g := Fetched(r, FirstChanged(Some(peer), r));
      && Admissible(p, map[], [peer, r])
      && Query(p, whereClause, Read(p, map[], [peer, r])) == Kept(p, whereClause, [g])
      && QueryRows(p, whereClause, Read(p, map[], [peer, r])) == Shown(p, whereClause, [g])
  {
    var g := Fetched(r, FirstChanged(Some(peer), r));
    RowFirst(p, peer);
    SmallFile(p, Some(peer), r);
    assert Behind(Some(peer)) + [r] == [peer, r] && Numbered(None, [peer]) == [Fetched(peer, 1)] by {
      assert [peer][1..] == [];
    }
    Unfiltered(p, [peer, r]);
    KeptConcat(p, whereClause, [Fetched(peer, 1)], [g]);
    KeptOne(p, whereClause, Fetched(peer, 1));
    WindowOfNone(p, whereClause, [Fetched(peer, 1)] + [g]);
  }

  /** A record that meets the equalities causes no conflict. */
  lemma PushesFor(p: Plan, whereClause: seq<Expr>, r: Record) returns (f: FilterMap)
    requires Straight(p) && RealRecord(p, r) && Satisfies(Texts(p.uels, r), Equalities(p, whereClause))
    ensures Pushes(p, map[], whereClause, f) && Accepts(DimensionMapOf(f, Names(p.columns)), Texts(p.uels, r))
  {
    var none: FilterMap := map[];
    assert Resolvable(none, Names(p.columns)) && DimensionMapOf(none, Names(p.columns)) == map[];
    SatisfiedStaysAccepted(p.columns, p.get, none, Equalities(p, whereClause), Texts(p.uels, r));
    f := AddAll(none, Offers(Equalities(p, whereClause), p.get)).value;
    PushedFromNothing(p, whereClause, f);
  }

  lemma PeerInPushed(p: Plan, whereClause: seq<Expr>, f: FilterMap, peer: Record, r: Record)
    requires Straight(p) && NoWindow(p) && Pushes(p, map[], whereClause, f)
    requires !Satisfies(Texts(p.uels, peer), Equalities(p, whereClause))
    requires Accepts(DimensionMapOf(f, Names(p.columns)), Texts(p.uels, r))
    ensures Query(p, whereClause, Read(p, f, [peer, r])) == Kept(p, whereClause, [Fetched(r, 1)])
    ensures QueryRows(p, whereClause, Read(p, f, [peer, r])) == Shown(p, whereClause, [Fetched(r, 1)])
  {
    var filter := DimensionMapOf(f, Names(p.columns));
    if Accepts(filter, Texts(p.uels, peer)) { AcceptedMeets(p, whereClause, f, Texts(p.uels, peer)); }
    FilteredTail(filter, p.uels, [peer], r);
    assert [peer] + [r] == [peer, r] && [r][1..] == [] && Read(p, f, [peer, r]) == [Fetched(r, 1)];
    WindowOfNone(p, whereClause, [Fetched(r, 1)]);
  }

  /** A record that loses its peer and is kept, with or without it. */
  lemma LostPeerBreaks(p: Plan, whereClause: seq<Expr>, peer: Record, r: Record)
    requires Straight(p) && NoWindow(p) && Sound(p, whereClause) && DroppedPeer(p, whereClause, peer, r)
    requires KeptInRun(p, whereClause, peer, r) || KeptAtStart(p, whereClause, r)
    ensures KeptInRun(p, whereClause, peer, r) != KeptAtStart(p, whereClause, r) ==> Broken(p, whereClause)
    ensures RowsBroken(p, whereClause)
  {
    RowAfter(p, Some(peer), r);
    RowFirst(p, r);
    var f := PushesFor(p, whereClause, r);
    PeerInFull(p, whereClause, peer, r);
    PeerInPushed(p, whereClause, f, peer, r);
    KeptOne(p, whereClause, Fetched(r, 1));
    KeptOne(p, whereClause, Fetched(r, FirstChanged(Some(peer), r)));
    DifferentFlags(p, peer, r);
    DifferentResults(p, map[], f, whereClause, [peer, r]);
  }

  /** The two rows of a record that loses its peers differ in is_sparse_break. */
  lemma DifferentFlags(p: Plan, peer: Record, r: Record)
    requires RealRecord(p, peer) && RealRecord(p, r) && KeyBefore(peer.keys, r.keys) && peer.keys[0] == r.keys[0]
    ensures PlanRow(p, Fetched(r, 1)) != PlanRow(p, Fetched(r, FirstChanged(Some(peer), r)))
  {
    var n := |p.columns.labels|;
    assert KeyBefore(peer.keys[1..], r.keys[1..]) && n > 1;
    assert PlanRow(p, Fetched(r, 1))[n] == Boolean(true);
    assert PlanRow(p, Fetched(r, FirstChanged(Some(peer), r)))[n] == Boolean(false);
  }

  lemma SchemaIsStraight(p: Plan, symbolType: int)
    requires FromSchema(p.columns, symbolType, p.valueColumns) && p.get.names == p.columns.names
    requires DistinctBases(p.columns.labels) && NamedColumns(p.columns)
    ensures Straight(p)
  {
    SameNames(p.columns, p.get, symbolType, p.valueColumns);
    DomainNames(p.columns, symbolType, p.valueColumns);
  }

  /** Without a window and with distinct names, a clause keeps its meaning in every call on every
      file if and only if every row over the file's element texts that it keeps meets the
      equalities taken from it, and no record changes sides when it loses the peers that
      pushdown drops. The casts in the clause may be any conversions, and no text needs to be
      clean. */
  lemma ClausePreservedExactly(p: Plan, symbolType: int, whereClause: seq<Expr>)
    requires FromSchema(p.columns, symbolType, p.valueColumns) && p.get.names == p.columns.names
    requires NoWindow(p) && DistinctBases(p.columns.labels) && NamedColumns(p.columns)
    ensures !Broken(p, whereClause) <==> Sound(p, whereClause) && Steady(p, whereClause)
  {
    SchemaIsStraight(p, symbolType);
    if !Sound(p, whereClause) {
      var _, _ := UnsoundRow(p, whereClause);
    } else if !Steady(p, whereClause) {
      var peer: Record, r: Record :| DroppedPeer(p, whereClause, peer, r)
        && KeptInRun(p, whereClause, peer, r) != KeptAtStart(p, whereClause, r);
      LostPeerBreaks(p, whereClause, peer, r);
    } else {
      forall filters, records ensures PreservedOn(p, filters, whereClause, records) {
        SoundPreserves(p, symbolType, filters, whereClause, records);
      }
    }
  }

  lemma UnsoundRow(p: Plan, whereClause: seq<Expr>) returns (previous: Option<Record>, r: Record)
    requires Straight(p) && NoWindow(p) && !Sound(p, whereClause)
    ensures Broken(p, whereClause) && RowsBroken(p, whereClause)
  {
    var f: Fetched :| IsRow(p, f) && KeepsRow(p, whereClause, f)
      && !Satisfies(Texts(p.uels, f.record), Equalities(p, whereClause));
    r := f.record;
    previous :| Precedes(p, previous, r) && f.dimFrst == FirstChanged(previous, r);
    assert f == Fetched(r, FirstChanged(previous, r));
    UnsoundBreaks(p, whereClause, previous, r);
  }

  /** Whole rows, with the sparse/dense columns they show, stay the same if and only if no record
      that loses its peers is kept at all. */
  lemma RowsPreservedExactly(p: Plan, symbolType: int, whereClause: seq<Expr>)
    requires FromSchema(p.columns, symbolType, p.valueColumns) && p.get.names == p.columns.names
    requires NoWindow(p) && DistinctBases(p.columns.labels) && NamedColumns(p.columns)
    ensures !RowsBroken(p, whereClause) <==> Sound(p, whereClause) && Still(p, whereClause)
  {
    SchemaIsStraight(p, symbolType);
    if !Sound(p, whereClause) {
      var _, _ := UnsoundRow(p, whereClause);
    } else if !Still(p, whereClause) {
      var peer: Record, r: Record :| DroppedPeer(p, whereClause, peer, r)
        && (KeptInRun(p, whereClause, peer, r) || KeptAtStart(p, whereClause, r));
      LostPeerBreaks(p, whereClause, peer, r);
    } else {
      StillIsSteady(p, whereClause);
      forall filters, records ensures RowsPreservedOn(p, filters, whereClause, records) {
        SoundPreserves(p, symbolType, filters, whereClause, records);
      }
    }
  }

  /** For one comparison the file's own texts decide, whatever its casts convert: it is sound if
      and only if every element text that matches equals the pushed text up to case. */
  lemma ComparisonSoundExactly(p: Plan, op: CompareOp, left: Expr, right: Expr)
    requires ComparisonRequirements(op, left, right, p.get, |p.columns.labels|) != []
    ensures var column, constant := ColumnSide(left, right, p.get), ConstantSide(left, right, p.get);
      && ConstantText(constant).Some?
      && (Sound(p, [Comparison(op, left, right)]) <==>
          forall i | 0 < i < |p.uels| && Matches(op, column, constant, p.uels[i]) ::
            CIEquals(p.uels[i], ConstantText(constant).value))
  {
    var w := [Comparison(op, left, right)];
    var column, constant := ColumnSide(left, right, p.get), ConstantSide(left, right, p.get);
    SidesFound(op, left, right, p.get, |p.columns.labels|);
    if Sound(p, w) {
      forall i | 0 < i < |p.uels| && Matches(op, column, constant, p.uels[i])
        ensures CIEquals(p.uels[i], ConstantText(constant).value)
      {
        SoundAt(p, op, left, right, i);
      }
    }
    forall f: Fetched | IsRow(p, f) && KeepsRow(p, w, f) && !Satisfies(Texts(p.uels, f.record), Equalities(p, w))
      ensures exists i ::
        && 0 < i < |p.uels| && Matches(op, column, constant, p.uels[i])
        && !CIEquals(p.uels[i], ConstantText(constant).value)
    {
      var i := UnsoundAt(p, op, left, right, f);
    }
  }

  lemma SoundAt(p: Plan, op: CompareOp, left: Expr, right: Expr, i: nat)
    requires ComparisonRequirements(op, left, right, p.get, |p.columns.labels|) != []
    requires ConstantText(ConstantSide(left, right, p.get)).Some? && Sound(p, [Comparison(op, left, right)])
    requires 0 < i < |p.uels|
    requires Matches(op, ColumnSide(left, right, p.get), ConstantSide(left, right, p.get), p.uels[i])
    ensures CIEquals(p.uels[i], ConstantText(ConstantSide(left, right, p.get)).value)
  {
    var w, f := [Comparison(op, left, right)], Fetched(Row(Keys(p, i, 0, i)), 1);
    RowTexts(p, i, 0, i);
    RowFirst(p, f.record);
    KeepsComparison(p, op, left, right, f);
    assert Equalities(p, w)[0] in Equalities(p, w);
  }

  lemma UnsoundAt(p: Plan, op: CompareOp, left: Expr, right: Expr, f: Fetched) returns (i: nat)
    requires ComparisonRequirements(op, left, right, p.get, |p.columns.labels|) != [] && IsRow(p, f)
    requires ConstantText(ConstantSide(left, right, p.get)).Some? && KeepsRow(p, [Comparison(op, left, right)], f)
    requires !Satisfies(Texts(p.uels, f.record), Equalities(p, [Comparison(op, left, right)]))
    ensures 0 < i < |p.uels|
    ensures Matches(op, ColumnSide(left, right, p.get), ConstantSide(left, right, p.get), p.uels[i])
    ensures !CIEquals(p.uels[i], ConstantText(ConstantSide(left, right, p.get)).value)
  {
    KeepsComparison(p, op, left, right, f);
    var d := ColumnOf(ColumnSide(left, right, p.get), p.get).value;
    i := f.record.keys[d];
    assert Texts(p.uels, f.record)[d] == p.uels[i];
  }

  /** The row test and the equality of a clause that is one comparison. */
  lemma KeepsComparison(p: Plan, op: CompareOp, left: Expr, right: Expr, f: Fetched)
    requires ComparisonRequirements(op, left, right, p.get, |p.columns.labels|) != [] && IsRow(p, f)
    ensures var w := [Comparison(op, left, right)];
      var column, constant := ColumnSide(left, right, p.get), ConstantSide(left, right, p.get);
      && ColumnOf(column, p.get).Some? && ColumnOf(column, p.get).value < |f.record.keys|
      && ConstantText(constant).Some? && Trimmed(ConstantText(constant).value)
      && Equalities(p, w) == [Requirement(ColumnOf(column, p.get).value, ConstantText(constant).value)]
      && (KeepsRow(p, w, f) <==> Matches(op, column, constant, Texts(p.uels, f.record)[ColumnOf(column, p.get).value]))
  {
    var w, texts := [Comparison(op, left, right)], Texts(p.uels, f.record);
    RowShowsTexts(p, f);
    PairMeaning(op, left, right, p.get, PlanRow(p, f), texts);
    ConstantTextTrimmed(ConstantSide(left, right, p.get));
    assert w[1..] == [] && EvalAnd(w[1..], p.get, PlanRow(p, f)) == TRUE;
    assert EvalAnd(w, p.get, PlanRow(p, f)) == Both(Eval(w[0], p.get, PlanRow(p, f)), TRUE);
    assert AllRequirements(w[1..], p.get, |texts|) == [];
    assert AllRequirements(w, p.get, |texts|)
        == Requirements(w[0], p.get, |texts|) + AllRequirements(w[1..], p.get, |texts|);
  }

  /** Hence, for a clause that is one comparison, the file's texts decide about its meaning too. */
  lemma ComparisonPreservedExactly(p: Plan, symbolType: int, op: CompareOp, left: Expr, right: Expr)
    requires FromSchema(p.columns, symbolType, p.valueColumns) && p.get.names == p.columns.names
    requires NoWindow(p) && DistinctBases(p.columns.labels) && NamedColumns(p.columns)
    requires ComparisonRequirements(op, left, right, p.get, |p.columns.labels|) != []
    ensures var column, constant := ColumnSide(left, right, p.get), ConstantSide(left, right, p.get);
      && ConstantText(constant).Some?
      && (!Broken(p, [Comparison(op, left, right)]) <==>
          forall i | 0 < i < |p.uels| && Matches(op, column, constant, p.uels[i]) ::
            CIEquals(p.uels[i], ConstantText(constant).value))
  {
    var w := [Comparison(op, left, right)];
    ComparisonSoundExactly(p, op, left, right);
    forall f: Fetched, g: Fetched | IsRow(p, f) && IsRow(p, g) && f.record == g.record
      ensures KeepsRow(p, w, f) == KeepsRow(p, w, g)
    {
      KeepsComparison(p, op, left, right, f);
      KeepsComparison(p, op, left, right, g);
    }
    IgnoringIsSteady(p, w);
    ClausePreservedExactly(p, symbolType, w);
  }

  // ---------------------------------------------------------------- sparse/dense columns

  predicate ReadsMetadata(get: LogicalGet, n: nat, reference: int) {
    0 <= reference < |get.columnIds| && n > 1 && n <= get.columnIds[reference] < n + 2
  }

  /** No reference to is_sparse_break or is_dense_run of an n-dimensional symbol. */
  predicate MetadataFree(e: Expr, get: LogicalGet, n: nat)
    decreases e, 1
  {
    match e
    case BoundRef(index) => !ReadsMetadata(get, n, index)
    case BoundColumnRef(columnIndex) => !ReadsMetadata(get, n, columnIndex)
    case Constant(_) => true
    case Cast(_, child) => MetadataFree(child, get, n)
    case Comparison(_, left, right) => MetadataFree(left, get, n) && MetadataFree(right, get, n)
    case And(children) => AllMetadataFree(children, get, n)
    case Or(children) => AllMetadataFree(children, get, n)
    case Not(child) => MetadataFree(child, get, n)
  }

  predicate AllMetadataFree(es: seq<Expr>, get: LogicalGet, n: nat)
    decreases es, 0
  {
    es == [] || (MetadataFree(es[0], get, n) && AllMetadataFree(es[1..], get, n))
  }

  /** Two rows that differ at most in the metadata columns of an n-dimensional symbol. */
  ghost predicate AgreeOutsideMetadata(a: seq<Value>, b: seq<Value>, n: nat) {
    |a| == |b| && forall i :: 0 <= i < |a| && !(n > 1 && n <= i < n + 2) ==> a[i] == b[i]
  }

  lemma {:induction false} EvalIgnoresMetadata(e: Expr, get: LogicalGet, n: nat, a: seq<Value>, b: seq<Value>)
    requires MetadataFree(e, get, n) && AgreeOutsideMetadata(a, b, n)
    ensures Eval(e, get, a) == Eval(e, get, b)
    decreases e, 1
  {
    match e {
      case BoundRef(_) =>
      case BoundColumnRef(_) =>
      case Constant(_) =>
      case Cast(_, child) => EvalIgnoresMetadata(child, get, n, a, b);
      case Comparison(_, left, right) =>
        EvalIgnoresMetadata(left, get, n, a, b);
        EvalIgnoresMetadata(right, get, n, a, b);
      case And(children) => EvalAllIgnoreMetadata(children, get, n, a, b);
      case Or(children) => EvalAllIgnoreMetadata(children, get, n, a, b);
      case Not(child) => EvalIgnoresMetadata(child, get, n, a, b);
    }
  }

  lemma {:induction false} EvalAllIgnoreMetadata(es: seq<Expr>, get: LogicalGet, n: nat, a: seq<Value>, b: seq<Value>)
    requires AllMetadataFree(es, get, n) && AgreeOutsideMetadata(a, b, n)
    ensures EvalAnd(es, get, a) == EvalAnd(es, get, b) && EvalOr(es, get, a) == EvalOr(es, get, b)
    decreases es, 0
  {
    if es != [] {
      EvalIgnoresMetadata(es[0], get, n, a, b);
      EvalAllIgnoreMetadata(es[1..], get, n, a, b);
    }
  }

  /** A clause without such references ignores the columns. */
  lemma MetadataFreeIgnores(p: Plan, whereClause: seq<Expr>)
    requires AllMetadataFree(whereClause, p.get, |p.columns.labels|)
    ensures IgnoresMetadata(p, whereClause)
  {
    forall f: Fetched, g: Fetched | IsRow(p, f) && IsRow(p, g) && f.record == g.record
      ensures KeepsRow(p, whereClause, f) == KeepsRow(p, whereClause, g)
    {
      assert AgreeOutsideMetadata(PlanRow(p, f), PlanRow(p, g), |p.columns.labels|);
      EvalAllIgnoreMetadata(whereClause, p.get, |p.columns.labels|, PlanRow(p, f), PlanRow(p, g));
    }
  }

  /** Two readings of the same records, made of rows that a scan can show. */
  ghost predicate Renumbered(p: Plan, a: seq<Fetched>, b: seq<Fetched>) {
    RecordsOf(a) == RecordsOf(b) && AllRows(p, a) && AllRows(p, b)
  }

  /** How records are numbered never shows if and only if the clause ignores the columns. */
  lemma RenumberingUnseenExactly(p: Plan, whereClause: seq<Expr>)
    ensures (forall a, b | Renumbered(p, a, b) :: Kept(p, whereClause, a) == Kept(p, whereClause, b))
       <==> IgnoresMetadata(p, whereClause)
  {
    if IgnoresMetadata(p, whereClause) {
      forall a, b | Renumbered(p, a, b) ensures Kept(p, whereClause, a) == Kept(p, whereClause, b) {
        KeptFromRecords(p, whereClause, a);
        KeptFromRecords(p, whereClause, b);
      }
    } else {
      var f: Fetched, g: Fetched :| IsRow(p, f) && IsRow(p, g) && f.record == g.record
        && KeepsRow(p, whereClause, f) != KeepsRow(p, whereClause, g);
      KeptOne(p, whereClause, f);
      KeptOne(p, whereClause, g);
      assert [f][1..] == [] && [g][1..] == [] && RecordsOf([]) == [];
      assert RecordsOf([f]) == [f.record] && RecordsOf([g]) == [f.record];
      assert Renumbered(p, [f], [g]);
    }
  }

  /** A WHERE clause that does not refer to the columns keeps the same records whatever their
      order and however the library numbers them. */
  lemma PushdownPreservesStreams(p: Plan, symbolType: int, filters: FilterMap, f: FilterMap, whereClause: seq<Expr>,
                                 records: seq<Record>, unpushed: seq<Fetched>, pushed: seq<Fetched>)
    requires FromSchema(p.columns, symbolType, p.valueColumns) && p.get.names == p.columns.names
    requires Faithful(p) && SafeFilters(whereClause, p.get, |p.columns.labels|)
    requires AllMetadataFree(whereClause, p.get, |p.columns.labels|) && Pushes(p, filters, whereClause, f)
    requires RealRecords(p, records) && ReadOf(p, filters, records, unpushed) && ReadOf(p, f, records, pushed)
    ensures Query(p, whereClause, pushed) == Query(p, whereClause, unpushed)
  {
    if p.limit == Some(0) {
      assert Window(unpushed, p.offset, p.limit) == [] && Window(pushed, p.offset, p.limit) == [];
    } else {
      SameNames(p.columns, p.get, symbolType, p.valueColumns);
      MetadataFreeIgnores(p, whereClause);
      SafeFiltersSound(p, whereClause);
      PushdownPreserves(p, filters, f, whereClause, records, unpushed, pushed);
      WindowOfAll(unpushed);
      WindowOfAll(pushed);
    }
  }

  /** `column 1 = text AND is_sparse_break`, over the columns of a two-dimensional symbol. */
  function BreakOf(text: string): seq<Expr> {
    EqualTo(1, text) + [BoundColumnRef(2)]
  }

  /** A clause that does look at the columns can change: two records share the first key, and
      the filter on the second dimension drops the one that starts the run. */
  lemma MetadataWitness(p: Plan, a: nat, b: nat)
    requires |p.columns.labels| == 2 && p.get.columnIds == [0, 1, 2] && 0 < a < b < |p.uels|
    requires !CIEquals(p.uels[a], p.uels[b])
    ensures var first, second, filter := Row([a, a]), Row([a, b]), map[1 := p.uels[b]];
      var records, w := [first, second], BreakOf(p.uels[b]);
      && RealRecords(p, records) && KeySorted(records)
      && Numbered(None, records) == [Fetched(first, 1), Fetched(second, 2)]
      && Numbered(None, Filtered(filter, p.uels, records)) == [Fetched(second, 1)]
      && Kept(p, w, [Fetched(first, 1), Fetched(second, 2)]) == [] && Kept(p, w, [Fetched(second, 1)]) == [second]
  {
    TwoOfARun(p, a, b);
    BreakKept(p, a, b, Row([a, a]), Row([a, b]));
  }

  lemma BreakKept(p: Plan, a: nat, b: nat, first: Record, second: Record)
    requires p.get.columnIds == [0, 1, 2] && 0 < a < b < |p.uels| && p.uels[a] != p.uels[b]
    requires |first.keys| == |second.keys| == 2 && Texts(p.uels, first)[1] == p.uels[a]
    requires Texts(p.uels, second)[1] == p.uels[b]
    ensures var w := BreakOf(p.uels[b]);
      Kept(p, w, [Fetched(first, 1), Fetched(second, 2)]) == [] && Kept(p, w, [Fetched(second, 1)]) == [second]
  {
    var w := BreakOf(p.uels[b]);
    KeepsBreak(p, p.uels[b], Fetched(first, 1));
    KeepsBreak(p, p.uels[b], Fetched(second, 2));
    KeepsBreak(p, p.uels[b], Fetched(second, 1));
    KeptNone(p, w, [Fetched(first, 1), Fetched(second, 2)]);
    KeptOne(p, w, Fetched(second, 1));
  }

  lemma TwoOfARun(p: Plan, a: nat, b: nat)
    requires |p.columns.labels| == 2 && 0 < a < b < |p.uels| && !CIEquals(p.uels[a], p.uels[b])
    ensures var first, second, filter := Row([a, a]), Row([a, b]), map[1 := p.uels[b]];
      && RealRecords(p, [first, second]) && KeySorted([first, second])
      && Numbered(None, [first, second]) == [Fetched(first, 1), Fetched(second, 2)]
      && Numbered(None, Filtered(filter, p.uels, [first, second])) == [Fetched(second, 1)]
      && Texts(p.uels, first)[1] == p.uels[a] && Texts(p.uels, second)[1] == p.uels[b]
  {
    var first, second, filter: DimensionMap := Row([a, a]), Row([a, b]), map[1 := p.uels[b]];
    SecondDiffers(a, b);
    NumberedTwo(first, second);
    assert 1 in filter && !Accepts(filter, Texts(p.uels, first)) && Accepts(filter, Texts(p.uels, second));
    FilteredTail(filter, p.uels, [first], second);
    assert [first] + [second] == [first, second];
  }

  lemma NumberedTwo(first: Record, second: Record)
    ensures Numbered(None, [first, second]) == [Fetched(first, 1), Fetched(second, FirstChanged(Some(first), second))]
    ensures Numbered(None, [second]) == [Fetched(second, 1)]
  {
    assert [first, second][1..] == [second] && [second][1..] == [];
    assert Numbered(Some(first), [second]) == [Fetched(second, FirstChanged(Some(first), second))];
  }

  lemma SecondDiffers(a: int, b: int)
    requires a < b
    ensures KeyBefore([a, a], [a, b]) && FirstDifference([a, a], [a, b]) == 2
  {
    assert [a, a][1..] == [a] && [a, b][1..] == [b];
    assert FirstDifference([a], [b]) == 1 && KeyBefore([a], [b]);
  }

  lemma KeepsBreak(p: Plan, text: string, f: Fetched)
    requires |f.record.keys| == 2 && p.get.columnIds == [0, 1, 2]
    ensures KeepsRow(p, BreakOf(text), f) <==> Texts(p.uels, f.record)[1] == text && f.dimFrst == 1
  {
    var w, row := BreakOf(text), PlanRow(p, f);
    assert row[1] == DomainCells(p.uels, f.record)[1] == Varchar(Texts(p.uels, f.record)[1]);
    assert row[2] == MetadataCells(2, f.dimFrst)[0] == Boolean(f.dimFrst == 1);
    assert w[0] == EqualTo(1, text)[0] && w[1..] == [BoundColumnRef(2)] && w[1..][1..] == [];
    assert Eval(w[0], p.get, row) == Compare(Equal, row[1], Varchar(text));
    assert EvalAnd(w[1..], p.get, row) == Both(row[2], TRUE);
  }

  // ---------------------------------------------------------------- the duplicate-filter error

  /** The symbol's own name and the generated name both filter the only dimension. */
  predicate AliasClash(c: Columns, filters: FilterMap)
    requires ValidColumns(c)
  {
    && |c.labels| == 1 && AnswersToSymbol(c, 0)
    && Normalize(c.symbol) != Normalize(c.names[0])
    && Normalize(c.symbol) in filters && Normalize(c.names[0]) in filters
  }

  lemma KeysOfDistinct(c: Columns, symbolType: int, valueColumns: seq<ValueColumn>, key: string)
    requires FromSchema(c, symbolType, valueColumns) && DistinctBases(c.labels)
    requires ValidColumns(c) && key in Names(c)
    ensures Names(c)[key] < |c.labels|
    ensures key == Normalize(c.names[Names(c)[key]])
      || (AnswersToSymbol(c, Names(c)[key]) && key == Normalize(c.symbol))
  {
    DomainNames(c, symbolType, valueColumns);
    NameMapLookup(AllKeys(c), key);
    var d := Names(c)[key];
    assert AllKeys(c)[d] == KeysOf(c, d);
  }

  /** With distinct names, known filters fail to bind exactly when the only dimension is
      filtered both by its generated name and by the symbol's name. */
  lemma DuplicateExactly(c: Columns, symbolType: int, valueColumns: seq<ValueColumn>, filters: FilterMap)
    requires FromSchema(c, symbolType, valueColumns) && DistinctBases(c.labels) && ValidColumns(c)
    requires forall key | key in filters :: key in Names(c)
    ensures Resolvable(filters, Names(c)) <==> !AliasClash(c, filters)
  {
    var names := Names(c);
    if AliasClash(c, filters) {
      var a, b := Normalize(c.symbol), Normalize(c.names[0]);
      KeysOfDistinct(c, symbolType, valueColumns, a);
      KeysOfDistinct(c, symbolType, valueColumns, b);
      assert names[a] == names[b];
    } else {
      forall a, b | a in filters && b in filters && names[a] == names[b] ensures a == b {
        KeysOfDistinct(c, symbolType, valueColumns, a);
        KeysOfDistinct(c, symbolType, valueColumns, b);
      }
    }
  }

  /** The error is not a conflict: the two filters may ask for the same text. */
  lemma AliasClashWitness(c: Columns, symbolType: int, valueColumns: seq<ValueColumn>)
    requires c.labels == ["*"] && c.symbol == "i" && FromSchema(c, symbolType, valueColumns)
    ensures ValidColumns(c) && ResolvesTo(c, "i", 0) && ResolvesTo(c, "dim_1", 0)
    ensures var filters := map["i" := Entry("a", "i", ""), "dim_1" := Entry("a", "dim_1", "")];
      SatisfiesFilters(["a"], filters, Names(c)) && !Resolvable(filters, Names(c))
  {
    DomainNames(c, symbolType, valueColumns);
    assert Decimal(1) == "1" && Base(c.labels, 0) == "dim_1";
    PlainName("i");
    PlainName("dim_1");
    assert KeysOf(c, 0) == ["dim_1", "dim_1"] + ["i"] && AllKeys(c)[0] == KeysOf(c, 0);
    assert ["dim_1", "dim_1", "i"][2] == "i";
    NameMapLookup(AllKeys(c), "i");
    NameMapLookup(AllKeys(c), "dim_1");
    assert KeysOf(c, 0)[2] == "i" && KeysOf(c, 0)[0] == "dim_1";
  }

  lemma PlainName(s: string)
    requires s != "" && Trimmed(s) && forall c | c in s :: LowerChar(c) == c
    ensures Normalize(s) == s
  {
    assert Lower(s) == s by {
      forall i | 0 <= i < |s| ensures Lower(s)[i] == s[i] { assert s[i] in s; }
    }
    TrimFixpoint(s);
  }
}
