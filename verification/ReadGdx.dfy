/** read_gdx from end to end: bind, push filters down, compile them, and read. */
module ReadGdx {
  import opened Wrappers
  import opened Text
  import opened Records
  import opened Expressions
  import opened DimensionFilters
  import opened Pushdown
  import opened PushdownMeaning
  import opened PushdownExactness
  import opened FilterCompiler
  import opened Scan

  /** Filter texts that agree up to case are spelled the same. */
  ghost predicate CaseConsistentFilter(filter: DimensionMap) {
    forall d, e | d in filter && e in filter :: CIEquals(filter[d], filter[e]) ==> filter[d] == filter[e]
  }

  /** Whether compiling throws depends on the filters only, not on the order they are listed in. */
  lemma CaseConsistencyOrderIndependent(indices: seq<nat>, values: seq<string>, filter: DimensionMap)
    requires Represents(indices, values, filter)
    ensures CaseConsistent(values) <==> CaseConsistentFilter(filter)
  {
    if CaseConsistent(values) {
      forall d, e | d in filter && e in filter && CIEquals(filter[d], filter[e]) ensures filter[d] == filter[e] {
        var i :| 0 <= i < |indices| && indices[i] == d;
        var j :| 0 <= j < |indices| && indices[j] == e;
        assert values[i] == filter[d] && values[j] == filter[e];
      }
    } else {
      var i, j :| 0 <= i < j < |values| && CIEquals(values[i], values[j]) && values[i] != values[j];
      assert indices[i] in filter && indices[j] in filter;
    }
  }

  /** Filters that ask for one text in two spellings cannot be compiled, although a record
      carrying it in both dimensions satisfies them. */
  lemma TwoSpellingsWitness()
    ensures var filter: DimensionMap := map[0 := "A", 1 := "a"];
      Accepts(filter, ["A", "A"]) && Represents([0, 1], ["A", "a"], filter) && !CaseConsistent(["A", "a"])
  {
    assert Lower("A") == "a" && Lower("a") == "a";
    assert CIEquals(["A", "a"][0], ["A", "a"][1]) && "A"[0] != "a"[0];
  }

  /** Initialization: compiles the bound filters and starts the read. It succeeds exactly when
      the filter texts are consistent up to case, and then reads the records they accept. */
  method ReadGdxInitGlobal(bind: ReadGdxBindData, uels: UelTable, records: seq<Record>)
    returns (selected: Option<seq<Record>>)
    requires bind.Synchronized() && AllWellFormed(records, |bind.columns.labels|, uels)
    ensures var filter := DimensionMapOf(bind.dimensionFilters, Names(bind.columns));
      && (selected.Some? <==> CaseConsistentFilter(filter))
      && (selected.Some? ==> selected.value == Filtered(filter, uels, records))
  {
    ghost var filter := DimensionMapOf(bind.dimensionFilters, Names(bind.columns));
    if bind.hasDimensionFilters && bind.dimensionFilterIndices != [] {
      BoundIndices(bind.columns, bind.dimensionFilters, bind.dimensionFilterIndices, bind.dimensionFilterValues);
      CaseConsistencyOrderIndependent(bind.dimensionFilterIndices, bind.dimensionFilterValues, filter);
      var handle := new GdxHandle();
      var ok, actions := CompileFilters(handle, bind.dimensionFilterIndices, bind.dimensionFilterValues,
                                       |bind.columns.labels|, filter);
      if !ok {
        return None;
      }
      FilteredReadSelects(handle.userIndex, handle.filters, actions, uels, records, filter);
      selected := Some(FilteredRead(handle.userIndex, handle.filters, actions, uels, records));
    } else {
      assert filter == map[];
      FilteredByNothing(uels, records);
      selected := Some(records);
    }
  }

  lemma BoundIndices(c: Columns, filters: FilterMap, indices: seq<nat>, values: seq<string>)
    requires ValidColumns(c) && Resolvable(filters, Names(c))
    requires Represents(indices, values, DimensionMapOf(filters, Names(c)))
    ensures forall d | d in indices :: d < |c.labels|
  {
    forall d | d in indices ensures d < |c.labels| {
      assert d in DimensionMapOf(filters, Names(c));
      var key :| key in filters && Names(c)[key] == d;
      NameMapLookup(AllKeys(c), key);
    }
  }

  /** The names of a parameter can all be bound: each is known, and no two name one dimension. */
  predicate Bindable(keys: seq<string>, names: map<string, nat>) {
    && (forall i :: 0 <= i < |keys| ==> keys[i] in names)
    && (forall i, j :: 0 <= i < j < |keys| ==> names[keys[i]] != names[keys[j]])
  }

  lemma BindableExactly(keys: seq<string>, values: seq<string>, filters: FilterMap, names: map<string, nat>)
    requires |keys| == |values| && Collected(keys, values, |keys|, filters)
    ensures Resolvable(filters, names) <==> Bindable(keys, names)
  {
    assert keys[..|keys|] == keys;
    if Bindable(keys, names) {
      forall a, b | a in filters && b in filters && names[a] == names[b] ensures a == b {
        var i :| 0 <= i < |keys| && keys[i] == a;
        var j :| 0 <= j < |keys| && keys[j] == b;
      }
    }
    if Resolvable(filters, names) {
      forall i | 0 <= i < |keys| ensures keys[i] in names { assert keys[i] in filters; }
      forall i, j | 0 <= i < j < |keys| ensures names[keys[i]] != names[keys[j]] {
        assert keys[i] in filters && keys[j] in filters;
      }
    }
  }

  /** Binding succeeds exactly on a usable parameter whose names can all be bound, and then the
      bind data holds it with vectors in step. */
  method ReadGdxBind(columns: Columns, parameter: FilterParameter) returns (r: Result<ReadGdxBindData, BindError>)
    requires ValidColumns(columns) && columns.names != []
    ensures var keys, values := ParameterKeys(parameter), ParameterValues(parameter);
      r.Ok? <==> Usable(keys, values) && Bindable(keys, Names(columns))
    ensures r.Ok? ==> fresh(r.value) && r.value.columns == columns && r.value.Synchronized()
    ensures r.Ok? ==>
      Collected(ParameterKeys(parameter), ParameterValues(parameter), |parameter|, r.value.dimensionFilters)
  {
    var parsed := ParseDimensionFilters(parameter);
    if parsed.Err? {
      return Err(parsed.error);
    }
    BindableExactly(ParameterKeys(parameter), ParameterValues(parameter), parsed.value, Names(columns));
    var bind := new ReadGdxBindData(columns, parsed.value);
    var prepared := bind.PrepareDimensionFilters();
    if prepared.Err? {
      return Err(prepared.error);
    }
    r := Ok(bind);
  }

  /** Pushdown and read together. When neither throws, the query returns the records it would
      over a read filtered by the parameter alone, and the same rows if the clause is still. */
  method ReadWithPushdown(bind: ReadGdxBindData, p: Plan, symbolType: int, whereClause: seq<Expr>, records: seq<Record>)
    returns (selected: Option<seq<Record>>)
    requires bind.Synchronized() && bind.columns == p.columns && p.columns.names != []
    requires FromSchema(p.columns, symbolType, p.valueColumns) && p.get.names == p.columns.names
    requires Faithful(p) && Allowed(p, whereClause) && RealRecords(p, records) && KeySorted(records)
    modifies bind`dimensionFilters, bind`bindingsPrepared
    modifies bind`dimensionFilterIndices, bind`dimensionFilterValues, bind`hasDimensionFilters
    ensures selected.Some? ==>
      var unpushed, pushed := Read(p, old(bind.dimensionFilters), records), Numbered(None, selected.value);
      && Query(p, whereClause, pushed) == Query(p, whereClause, unpushed)
      && (Still(p, whereClause) ==> QueryRows(p, whereClause, pushed) == QueryRows(p, whereClause, unpushed))
  {
    ghost var filters := bind.dimensionFilters;
    var pushed := ReadGdxPushdownComplexFilter(p.get, bind, whereClause);
    if pushed.Err? {
      return None;
    }
    FaithfulPreserves(p, symbolType, filters, whereClause, records);
    selected := ReadGdxInitGlobal(bind, p.uels, records);
  }

  /** The engine's residual filter over the rows a scan emits. */
  function RowsKept(get: LogicalGet, whereClause: seq<Expr>, rows: seq<seq<Value>>): seq<seq<Value>> {
    if rows == [] then []
    else (if Holds(whereClause, get, rows[0]) then [rows[0]] else []) + RowsKept(get, whereClause, rows[1..])
  }

  lemma {:induction false} RowsKeptOfStream(p: Plan, whereClause: seq<Expr>, stream: seq<Fetched>)
    ensures RowsKept(p.get, whereClause, Rows(p.valueColumns, p.uels, stream)) == Shown(p, whereClause, stream)
  {
    if stream != [] {
      var rows := Rows(p.valueColumns, p.uels, stream);
      assert rows[0] == PlanRow(p, stream[0]) && rows[1..] == Rows(p.valueColumns, p.uels, stream[1..]);
      RowsKeptOfStream(p, whereClause, stream[1..]);
    }
  }

  /** A whole query: pushdown, compilation, the scan drained chunk by chunk through its window,
      and the residual filter. The rows are those of the records that a query without pushdown
      returns, and the very rows it shows if the clause is still. */
  method RunQuery(bind: ReadGdxBindData, p: Plan, symbolType: int, whereClause: seq<Expr>, records: seq<Record>,
                  vectorSize: nat)
    returns (rows: Option<seq<seq<Value>>>, ghost read: seq<Fetched>)
    requires bind.Synchronized() && bind.columns == p.columns && p.columns.names != [] && vectorSize > 0
    requires FromSchema(p.columns, symbolType, p.valueColumns) && p.get.names == p.columns.names
    requires Faithful(p) && Allowed(p, whereClause) && RealRecords(p, records) && KeySorted(records)
    modifies bind`dimensionFilters, bind`bindingsPrepared
    modifies bind`dimensionFilterIndices, bind`dimensionFilterValues, bind`hasDimensionFilters
    ensures rows.Some? ==>
      var unpushed := Read(p, old(bind.dimensionFilters), records);
      && rows.value == QueryRows(p, whereClause, read)
      && Query(p, whereClause, read) == Query(p, whereClause, unpushed)
      && (Still(p, whereClause) ==> rows.value == QueryRows(p, whereClause, unpushed))
  {
    read := [];
    var selected := ReadWithPushdown(bind, p, symbolType, whereClause, records);
    if selected.None? {
      return None, [];
    }
    read := Numbered(None, selected.value);
    var state := new ReadGdxGlobalState(p.valueColumns, p.uels, Numbered(None, selected.value), p.offset, p.limit);
    var scanned, _ := Drain(state, vectorSize);
    RowsKeptOfStream(p, whereClause, Window(read, p.offset, p.limit));
    rows := Some(RowsKept(p.get, whereClause, scanned));
  }
}
