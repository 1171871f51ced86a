/** The dimension filters of one read_gdx call: how requested names are collected,
    resolved to dimensions, and kept in step with the vectors the scan uses. */
module DimensionFilters {
  import opened Wrappers
  import opened Text
  import opened Schema
  import opened Records

  datatype Entry = Entry(value: string, displayName: string, source: string)

  /** Requested filters, by normalized dimension name. */
  type FilterMap = map<string, Entry>

  datatype BindError =
    | ConflictingFilters(key: string)
    | UnknownDimension(key: string)
    | DuplicateFilter(key: string)
    | NoColumns
    | NullEntry
    | BlankKey
    | BlankValue

  // ---------------------------------------------------------------- collecting filters

  datatype Addition = Added | Ignored | Conflict

  /** Adds one filter under its key: the first value given for a key stays, a second one must
      equal it up to case. */
  function AddEntry(filters: FilterMap, key: string, entry: Entry): (FilterMap, Addition) {
    if key == "" || entry.value == "" then (filters, Ignored)
    else if key in filters then (filters, if CIEquals(filters[key].value, entry.value) then Ignored else Conflict)
    else (filters[key := entry], Added)
  }

  /** The dimension_filters parameter: key and value of each map entry, None for NULL. */
  type FilterParameter = seq<(Option<string>, Option<string>)>

  /** The normalized names of a parameter, blank for NULL. */
  function ParameterKeys(parameter: FilterParameter): seq<string> {
    seq(|parameter|, i requires 0 <= i < |parameter| =>
      if parameter[i].0.Some? then Normalize(parameter[i].0.value) else "")
  }

  /** The trimmed values of a parameter, blank for NULL. */
  function ParameterValues(parameter: FilterParameter): seq<string> {
    seq(|parameter|, i requires 0 <= i < |parameter| =>
      if parameter[i].1.Some? then Trim(parameter[i].1.value) else "")
  }

  /** No NULLs, no blanks, and every name given once. */
  predicate Usable(keys: seq<string>, values: seq<string>)
    requires |keys| == |values|
  {
    && (forall i :: 0 <= i < |keys| ==> keys[i] != "" && values[i] != "")
    && (forall i, j :: 0 <= i < j < |keys| ==> keys[i] != keys[j])
  }

  /** `filters` holds one value per key of the first `n` entries and nothing else. */
  ghost predicate Collected(keys: seq<string>, values: seq<string>, n: nat, filters: FilterMap)
    requires n <= |keys| == |values|
  {
    && (forall i :: 0 <= i < n ==> keys[i] != "" && values[i] != "")
    && (forall i, j :: 0 <= i < j < n ==> keys[i] != keys[j])
    && (forall i :: 0 <= i < n ==> keys[i] in filters && filters[keys[i]].value == values[i])
    && (forall key | key in filters :: key in keys[..n])
  }

  lemma CollectedOneMore(keys: seq<string>, values: seq<string>, n: nat, filters: FilterMap, entry: Entry)
    requires n < |keys| == |values| && Collected(keys, values, n, filters)
    requires keys[n] != "" && values[n] != "" && entry.value == values[n]
    ensures keys[n] in filters ==> !Usable(keys, values)
    ensures keys[n] !in filters ==> Collected(keys, values, n + 1, filters[keys[n] := entry])
  {
    if keys[n] in filters {
      assert keys[n] in keys[..n];
    } else {
      assert keys[..n + 1] == keys[..n] + [keys[n]];
    }
  }

  /** An entry with a name and a value that are not blank. */
  predicate UsableEntry(entry: (Option<string>, Option<string>)) {
    entry.0.Some? && entry.1.Some? && !Blank(entry.0.value) && !Blank(entry.1.value)
  }

  /** No two entries have names that are equal up to case and outer whitespace. */
  predicate DifferentNames(parameter: FilterParameter) {
    forall i, j :: 0 <= i < j < |parameter| && parameter[i].0.Some? && parameter[j].0.Some? ==>
      !CIEquals(Trim(parameter[i].0.value), Trim(parameter[j].0.value))
  }

  /** What a usable parameter is, and what is kept of it, by its entries. */
  lemma ParameterExactly(parameter: FilterParameter, filters: FilterMap)
    ensures Usable(ParameterKeys(parameter), ParameterValues(parameter)) <==>
      (forall entry | entry in parameter :: UsableEntry(entry)) && DifferentNames(parameter)
    ensures ((forall entry | entry in parameter :: UsableEntry(entry)) &&
             Collected(ParameterKeys(parameter), ParameterValues(parameter), |parameter|, filters)) ==>
        && (forall entry | entry in parameter :: Normalize(entry.0.value) in filters
              && filters[Normalize(entry.0.value)].value == Trim(entry.1.value))
        && (forall key | key in filters :: exists entry :: entry in parameter && key == Normalize(entry.0.value))
  {
    var keys, values := ParameterKeys(parameter), ParameterValues(parameter);
    forall entry | entry in parameter
      ensures entry.0.Some? ==> (Normalize(entry.0.value) == "" <==> Blank(entry.0.value))
      ensures entry.1.Some? ==> (Trim(entry.1.value) == "" <==> Blank(entry.1.value))
    {
      EntryBlank(entry);
    }
    forall i, j | 0 <= i < j < |parameter| && parameter[i].0.Some? && parameter[j].0.Some?
      ensures keys[i] == keys[j] <==> CIEquals(Trim(parameter[i].0.value), Trim(parameter[j].0.value))
    {
      NormalizeExactly(parameter[i].0.value, parameter[j].0.value);
    }
    forall i | 0 <= i < |parameter| ensures UsableEntry(parameter[i]) <==> keys[i] != "" && values[i] != "" {
      assert parameter[i] in parameter;
    }
    assert keys[..|parameter|] == keys;
    forall key | key in keys && forall entry | entry in parameter :: UsableEntry(entry)
      ensures exists entry :: entry in parameter && key == Normalize(entry.0.value)
    {
      var i :| 0 <= i < |keys| && keys[i] == key;
      assert parameter[i] in parameter;
    }
  }

  lemma EntryBlank(entry: (Option<string>, Option<string>))
    ensures entry.0.Some? ==> (Normalize(entry.0.value) == "" <==> Blank(entry.0.value))
    ensures entry.1.Some? ==> (Trim(entry.1.value) == "" <==> Blank(entry.1.value))
  {
    if entry.0.Some? {
      EmptyKey(entry.0.value);
      TrimBlank(entry.0.value);
    }
    if entry.1.Some? { TrimBlank(entry.1.value); }
  }

  lemma EmptyKey(name: string)
    ensures Normalize(name) == "" <==> Trim(name) == ""
  {
    LowerTrim(name);
    assert |Lower(Trim(name))| == |Trim(name)|;
  }

  /** Succeeds exactly on parameters without NULLs, blanks or repeated names, and then keeps
      one trimmed value per normalized name. */
  /** What is wrong with entry `i`, the first one that anything is wrong with. */
  predicate FirstFault(parameter: FilterParameter, i: nat, error: BindError)
    requires i < |parameter|
  {
    && (forall entry | entry in parameter[..i] :: UsableEntry(entry)) && DifferentNames(parameter[..i])
    && var (name, value) := parameter[i];
       match error
       case NullEntry => name.None? || value.None?
       case BlankKey => name.Some? && value.Some? && Blank(name.value)
       case BlankValue => name.Some? && value.Some? && !Blank(name.value) && Blank(value.value)
       case DuplicateFilter(_) => UsableEntry(parameter[i]) && !DifferentNames(parameter[..i + 1])
       case _ => false
  }

  lemma FaultsSoFar(parameter: FilterParameter, i: nat, filters: FilterMap)
    requires i < |parameter| && Collected(ParameterKeys(parameter), ParameterValues(parameter), i, filters)
    ensures (forall entry | entry in parameter[..i] :: UsableEntry(entry)) && DifferentNames(parameter[..i])
    ensures parameter[i].0.Some? ==> (ParameterKeys(parameter)[i] == "" <==> Blank(parameter[i].0.value))
    ensures parameter[i].1.Some? ==> (ParameterValues(parameter)[i] == "" <==> Blank(parameter[i].1.value))
    ensures parameter[i].0.Some? && ParameterKeys(parameter)[i] in filters ==> !DifferentNames(parameter[..i + 1])
  {
    var keys := ParameterKeys(parameter);
    ParameterExactly(parameter[..i], filters);
    assert ParameterKeys(parameter[..i]) == keys[..i];
    assert ParameterValues(parameter[..i]) == ParameterValues(parameter)[..i];
    EntryBlank(parameter[i]);
    if parameter[i].0.Some? && keys[i] in filters {
      var j :| 0 <= j < i && keys[j] == keys[i];
      assert UsableEntry(parameter[..i][j]);
      RepeatedName(parameter, i, j);
    }
  }

  lemma RepeatedName(parameter: FilterParameter, i: nat, j: nat)
    requires j < i < |parameter| && parameter[i].0.Some? && parameter[j].0.Some?
    requires Normalize(parameter[j].0.value) == Normalize(parameter[i].0.value)
    ensures !DifferentNames(parameter[..i + 1])
  {
    NormalizeExactly(parameter[j].0.value, parameter[i].0.value);
    assert parameter[..i + 1][j] == parameter[j] && parameter[..i + 1][i] == parameter[i];
  }

  lemma EntryFaults(parameter: FilterParameter, i: nat, filters: FilterMap)
    requires i < |parameter| && Collected(ParameterKeys(parameter), ParameterValues(parameter), i, filters)
    ensures var (name, value) := parameter[i];
      var key, text := ParameterKeys(parameter)[i], ParameterValues(parameter)[i];
      && (name.None? || value.None? ==> FirstFault(parameter, i, NullEntry))
      && (name.Some? && value.Some? && key == "" ==> FirstFault(parameter, i, BlankKey))
      && (name.Some? && value.Some? && key != "" && text == "" ==> FirstFault(parameter, i, BlankValue))
      && (name.Some? && value.Some? && key != "" && text != "" && key in filters ==>
            FirstFault(parameter, i, DuplicateFilter(key)))
  {
    FaultsSoFar(parameter, i, filters);
  }

  method ParseDimensionFilters(parameter: FilterParameter) returns (r: Result<FilterMap, BindError>)
    ensures r.Ok? <==> Usable(ParameterKeys(parameter), ParameterValues(parameter))
    ensures r.Ok? ==> Collected(ParameterKeys(parameter), ParameterValues(parameter), |parameter|, r.value)
    ensures r.Err? ==> exists i :: 0 <= i < |parameter| && FirstFault(parameter, i, r.error)
  {
    var filters: FilterMap := map[];
    ghost var keys, values := ParameterKeys(parameter), ParameterValues(parameter);
    for i := 0 to |parameter|
      invariant Collected(keys, values, i, filters)
    {
      if parameter[i].0.None? || parameter[i].1.None? {
        assert keys[i] == "" || values[i] == "";
        assert FirstFault(parameter, i, NullEntry) by { EntryFaults(parameter, i, filters); }
        return Err(NullEntry);
      }
      var name := Trim(parameter[i].0.value);
      var value := Trim(parameter[i].1.value);
      var key := Normalize(name);
      assert key == keys[i] && value == values[i] by { NormalizeTrim(parameter[i].0.value); }
      if key == "" {
        assert FirstFault(parameter, i, BlankKey) by { EntryFaults(parameter, i, filters); }
        return Err(BlankKey);
      }
      if value == "" {
        assert FirstFault(parameter, i, BlankValue) by { EntryFaults(parameter, i, filters); }
        return Err(BlankValue);
      }
      var entry := Entry(value, name, "dimension_filters parameter");
      CollectedOneMore(keys, values, i, filters, entry);
      if key in filters {
        assert FirstFault(parameter, i, DuplicateFilter(key)) by { EntryFaults(parameter, i, filters); }
        return Err(DuplicateFilter(key));
      }
      filters := filters[key := entry];
    }
    r := Ok(filters);
  }

  // ---------------------------------------------------------------- resolving names

  /** What name resolution sees of a bound symbol. */
  datatype Columns = Columns(names: seq<string>, labels: seq<string>, symbol: string, dimension: nat)

  predicate ValidColumns(c: Columns) {
    |c.labels| <= |c.names|
  }

  /** A generated name also answers to the symbol's name when the symbol has one dimension. */
  predicate AnswersToSymbol(c: Columns, i: nat)
    requires i < |c.labels|
  {
    (c.labels[i] == "" || c.labels[i] == "*") && |c.labels| == 1 && c.dimension == 1
  }

  /** The keys dimension `i` is entered under, in the order they are written. */
  function KeysOf(c: Columns, i: nat): seq<string>
    requires ValidColumns(c) && i < |c.labels|
  {
    [Normalize(c.names[i]), Normalize(Base(c.labels, i))]
      + (if AnswersToSymbol(c, i) then [Normalize(c.symbol)] else [])
  }

  function AllKeys(c: Columns): seq<seq<string>>
    requires ValidColumns(c)
  {
    seq(|c.labels|, i requires 0 <= i < |c.labels| => KeysOf(c, i))
  }

  /** Enters `i` under each of `keys`, overriding what an earlier dimension entered. */
  function Enter(names: map<string, nat>, keys: seq<string>, i: nat): map<string, nat>
    decreases keys
  {
    if keys == [] then names else Enter(names[keys[0] := i], keys[1..], i)
  }

  lemma {:induction false} EnterLookup(names: map<string, nat>, keys: seq<string>, i: nat, key: string)
    ensures key in keys ==> key in Enter(names, keys, i) && Enter(names, keys, i)[key] == i
    ensures key !in keys ==> (key in Enter(names, keys, i) <==> key in names)
    ensures key !in keys && key in names ==> Enter(names, keys, i)[key] == names[key]
    decreases keys
  {
    if keys != [] {
      EnterLookup(names[keys[0] := i], keys[1..], i, key);
    }
  }

  /** Entering the keys of one dimension, written out. */
  lemma EnterKeys(c: Columns, i: nat, names: map<string, nat>)
    requires ValidColumns(c) && i < |c.labels|
    ensures var own := names[Normalize(c.names[i]) := i][Normalize(Base(c.labels, i)) := i];
      Enter(names, KeysOf(c, i), i) == if AnswersToSymbol(c, i) then own[Normalize(c.symbol) := i] else own
  {
    EnterThree(names, Normalize(c.names[i]), Normalize(Base(c.labels, i)), Normalize(c.symbol), i);
  }

  lemma EnterThree(names: map<string, nat>, a: string, b: string, c: string, i: nat)
    ensures Enter(names, [a, b] + [], i) == names[a := i][b := i]
    ensures Enter(names, [a, b] + [c], i) == names[a := i][b := i][c := i]
  {
    var na, nb := names[a := i], names[a := i][b := i];
    assert [a, b] + [] == [a, b] && [a, b][1..] == [b] && [b][1..] == [];
    assert Enter(nb, [], i) == nb && Enter(na, [b], i) == nb;
    assert [a, b] + [c] == [a, b, c] && [a, b, c][1..] == [b, c] && [b, c][1..] == [c] && [c][1..] == [];
    assert Enter(nb, [c], i) == nb[c := i] && Enter(na, [b, c], i) == nb[c := i];
  }

  function NameMap(keys: seq<seq<string>>): map<string, nat> {
    if keys == [] then map[] else Enter(NameMap(keys[..|keys| - 1]), keys[|keys| - 1], |keys| - 1)
  }

  function Names(c: Columns): map<string, nat>
    requires ValidColumns(c)
  {
    NameMap(AllKeys(c))
  }

  /** The last dimension that enters `key`. */
  ghost predicate LastEntering(keys: seq<seq<string>>, key: string, i: nat) {
    i < |keys| && key in keys[i] && forall j :: i < j < |keys| ==> key !in keys[j]
  }

  /** A key resolves to the last dimension that enters it. */
  lemma {:induction false} NameMapLookup(keys: seq<seq<string>>, key: string)
    ensures key in NameMap(keys) ==> LastEntering(keys, key, NameMap(keys)[key])
    ensures key !in NameMap(keys) ==> forall i :: 0 <= i < |keys| ==> key !in keys[i]
  {
    if keys != [] {
      var init := keys[..|keys| - 1];
      NameMapLookup(init, key);
      EnterLookup(NameMap(init), keys[|keys| - 1], |keys| - 1, key);
    }
  }

  /** Dimension `i` answers to the key: it is the name of its column, its label or generated name,
      or, for the only dimension of a symbol over an unknown domain, the symbol's name. */
  predicate AnswersTo(c: Columns, i: nat, key: string)
    requires ValidColumns(c) && i < |c.labels|
  {
    || key == Normalize(c.names[i])
    || key == Normalize(if c.labels[i] in ["", "*"] then "dim_" + Decimal(i + 1) else c.labels[i])
    || (c.labels[i] in ["", "*"] && |c.labels| == 1 == c.dimension && key == Normalize(c.symbol))
  }

  lemma KeysAnswer(c: Columns, i: nat, key: string)
    requires ValidColumns(c) && i < |c.labels|
    ensures key in AllKeys(c)[i] <==> AnswersTo(c, i, key)
  {
    var own := [Normalize(c.names[i]), Normalize(Base(c.labels, i))];
    assert AllKeys(c)[i] == own + (if AnswersToSymbol(c, i) then [Normalize(c.symbol)] else []);
    assert own[0] in own && own[1] in own;
  }

  /** A key is known if and only if a dimension answers to it, and means the last one that does. */
  lemma NamesExactly(c: Columns, key: string)
    requires ValidColumns(c)
    ensures key in Names(c) <==> exists i :: 0 <= i < |c.labels| && AnswersTo(c, i, key)
    ensures key in Names(c) ==>
      var d := Names(c)[key];
      d < |c.labels| && AnswersTo(c, d, key) && forall i :: d < i < |c.labels| ==> !AnswersTo(c, i, key)
  {
    var keys := AllKeys(c);
    NameMapLookup(keys, key);
    forall i | 0 <= i < |c.labels| ensures key in keys[i] <==> AnswersTo(c, i, key) {
      KeysAnswer(c, i, key);
    }
    if key in Names(c) {
      assert LastEntering(keys, key, Names(c)[key]);
    }
  }

  /** Every filter names a dimension, and no two name the same one. */
  predicate Resolvable(filters: FilterMap, names: map<string, nat>) {
    && (forall key | key in filters :: key in names)
    && (forall a, b | a in filters && b in filters :: names[a] == names[b] ==> a == b)
  }

  /** The meaning of a resolvable filter map. */
  ghost function DimensionMapOf(filters: FilterMap, names: map<string, nat>): DimensionMap
    requires Resolvable(filters, names)
  {
    map key | key in filters :: names[key] := filters[key].value
  }

  /** Parallel vectors that list `filter` once each, in some order. */
  predicate Represents(indices: seq<nat>, values: seq<string>, filter: DimensionMap) {
    && |indices| == |values|
    && (forall i, j :: 0 <= i < j < |indices| ==> indices[i] != indices[j])
    && (forall i :: 0 <= i < |indices| ==> indices[i] in filter && filter[indices[i]] == values[i])
    && (forall d | d in filter :: d in indices)
  }

  /** One more filter, for a dimension not listed yet. */
  lemma RepresentsOneMore(done: FilterMap, names: map<string, nat>, indices: seq<nat>, values: seq<string>,
                          key: string, entry: Entry)
    requires Resolvable(done, names) && Represents(indices, values, DimensionMapOf(done, names))
    requires key !in done && key in names && names[key] !in indices
    ensures Resolvable(done[key := entry], names)
    ensures Represents(indices + [names[key]], values + [entry.value], DimensionMapOf(done[key := entry], names))
  {
    var before := DimensionMapOf(done, names);
    forall other | other in done ensures names[other] != names[key] { assert names[other] in before; }
    RepresentsExtend(indices, values, before, names[key], entry.value);
    DimensionMapExtend(done, names, key, entry);
  }

  lemma RepresentsExtend(indices: seq<nat>, values: seq<string>, filter: DimensionMap, d: nat, value: string)
    requires Represents(indices, values, filter) && d !in indices
    ensures Represents(indices + [d], values + [value], filter[d := value])
  {
  }

  lemma DimensionMapExtend(done: FilterMap, names: map<string, nat>, key: string, entry: Entry)
    requires Resolvable(done, names) && key !in done && key in names
    requires forall other | other in done :: names[other] != names[key]
    ensures Resolvable(done[key := entry], names)
    ensures DimensionMapOf(done[key := entry], names) == DimensionMapOf(done, names)[names[key] := entry.value]
  {
  }

  /** A dimension already listed belongs to another filter. */
  lemma ListedTwice(done: FilterMap, names: map<string, nat>, indices: seq<nat>, values: seq<string>, d: nat)
    requires Resolvable(done, names) && Represents(indices, values, DimensionMapOf(done, names))
    requires d in indices
    ensures exists other :: other in done && names[other] == d
  {
    assert d in DimensionMapOf(done, names);
  }

  /** The filters resolved so far, and the vectors that list them. */
  ghost predicate Progress(filters: FilterMap, names: map<string, nat>, done: FilterMap, indices: seq<nat>,
                           values: seq<string>)
  {
    && (forall key | key in done :: key in filters && done[key] == filters[key])
    && Resolvable(done, names) && Represents(indices, values, DimensionMapOf(done, names))
  }

  lemma {:induction false} NextFilter(filters: FilterMap, names: map<string, nat>, done: FilterMap,
                                      indices: seq<nat>, values: seq<string>, key: string)
    requires Progress(filters, names, done, indices, values) && key in filters && key !in done
    ensures key !in names ==> !Resolvable(filters, names)
    ensures key in names && names[key] in indices ==> !Resolvable(filters, names)
    ensures key in names && names[key] !in indices ==>
      Progress(filters, names, done[key := filters[key]], indices + [names[key]], values + [filters[key].value])
  {
    if key in names {
      if names[key] in indices {
        ListedTwice(done, names, indices, values, names[key]);
      } else {
        RepresentsOneMore(done, names, indices, values, key, filters[key]);
      }
    }
  }

  /** Resolves the filters one by one, in whatever order the map yields them. It succeeds
      exactly when every name is known and no dimension is filtered twice. */
  method BindFilters(filters: FilterMap, names: map<string, nat>)
    returns (indices: seq<nat>, values: seq<string>, r: Result<(), BindError>)
    ensures r.Ok? <==> Resolvable(filters, names)
    ensures r.Ok? ==> Represents(indices, values, DimensionMapOf(filters, names))
    ensures r.Err? ==> r.error.UnknownDimension? || r.error.DuplicateFilter?
    ensures r.Err? ==> r.error.key in filters && (r.error.UnknownDimension? <==> r.error.key !in names)
    ensures r.Err? && r.error.DuplicateFilter? ==>
      exists other :: other in filters && other in names && other != r.error.key && names[other] == names[r.error.key]
  {
    indices, values := [], [];
    var remaining := filters.Keys;
    ghost var done: FilterMap := map[];
    assert DimensionMapOf(done, names) == map[];
    while remaining != {}
      invariant remaining <= filters.Keys && done.Keys == filters.Keys - remaining
      invariant Progress(filters, names, done, indices, values)
    {
      var key :| key in remaining;
      remaining := remaining - {key};
      NextFilter(filters, names, done, indices, values, key);
      if key !in names {
        return indices, values, Err(UnknownDimension(key));
      }
      if names[key] in indices {
        return indices, values, Err(DuplicateFilter(key));
      }
      done := done[key := filters[key]];
      indices := indices + [names[key]];
      values := values + [filters[key].value];
    }
    assert done == filters;
    r := Ok(());
  }

  // ---------------------------------------------------------------- the bind data

  class ReadGdxBindData {
    const columns: Columns
    var dimensionFilters: FilterMap
    var dimensionFilterIndices: seq<nat>
    var dimensionFilterValues: seq<string>
    var hasDimensionFilters: bool
    var bindingsPrepared: bool

    constructor (columns: Columns, filters: FilterMap)
      requires ValidColumns(columns)
      ensures this.columns == columns && dimensionFilters == filters && !bindingsPrepared
    {
      this.columns := columns;
      dimensionFilters := filters;
      dimensionFilterIndices, dimensionFilterValues := [], [];
      hasDimensionFilters := filters != map[];
      bindingsPrepared := false;
    }

    /** Prepared vectors are exactly the image of the filter map. */
    ghost predicate Synchronized()
      reads this
    {
      && ValidColumns(columns)
      && bindingsPrepared
      && Resolvable(dimensionFilters, Names(columns))
      && hasDimensionFilters == (dimensionFilters != map[])
      && Represents(dimensionFilterIndices, dimensionFilterValues, DimensionMapOf(dimensionFilters, Names(columns)))
    }

    method TryAddDimensionFilter(name: string, rawValue: string, source: string) returns (r: Result<bool, BindError>)
      modifies this`dimensionFilters, this`bindingsPrepared
      ensures var (filters, addition) :=
          AddEntry(old(dimensionFilters), Normalize(name), Entry(Trim(rawValue), name, source));
        && dimensionFilters == filters
        && (r.Err? <==> addition == Conflict)
        && (r.Ok? ==> r.value == (addition == Added))
        && bindingsPrepared == (old(bindingsPrepared) && addition != Added)
      ensures var key, value, usable := Normalize(name), Trim(rawValue), !Blank(name) && !Blank(rawValue);
        && (r == Ok(true) <==> usable && key !in old(dimensionFilters))
        && (r == Ok(true) ==> dimensionFilters == old(dimensionFilters)[key := Entry(value, name, source)])
        && (r.Err? <==> usable && key in old(dimensionFilters) && !CIEquals(old(dimensionFilters)[key].value, value))
        && (r.Err? ==> r.error == ConflictingFilters(key))
        && (r != Ok(true) ==> dimensionFilters == old(dimensionFilters))
    {
      EmptyKey(name);
      TrimBlank(name);
      TrimBlank(rawValue);
      if name == "" {
        return Ok(false);
      }
      var key := Normalize(name);
      if key == "" {
        return Ok(false);
      }
      var value := Trim(rawValue);
      if value == "" {
        return Ok(false);
      }
      if key in dimensionFilters {
        if !CIEquals(dimensionFilters[key].value, value) {
          return Err(ConflictingFilters(key));
        }
        return Ok(false);
      }
      dimensionFilters := dimensionFilters[key := Entry(value, name, source)];
      bindingsPrepared := false;
      r := Ok(true);
    }

    method BuildNameMap() returns (names: map<string, nat>)
      requires ValidColumns(columns)
      ensures names == Names(columns)
    {
      names := map[];
      ghost var keys := AllKeys(columns);
      for i := 0 to |columns.labels|
        invariant names == NameMap(keys[..i])
      {
        ghost var before := names;
        names := names[Normalize(columns.names[i]) := i];
        names := names[Normalize(Base(columns.labels, i)) := i];
        if AnswersToSymbol(columns, i) {
          names := names[Normalize(columns.symbol) := i];
        }
        EnterKeys(columns, i, before);
        assert keys[..i + 1][..i] == keys[..i];
      }
      assert keys[..|keys|] == keys;
    }

    /** The outcome does not depend on the order in which the filter map is visited. */
    method PrepareDimensionFilters() returns (r: Result<(), BindError>)
      requires ValidColumns(columns)
      modifies this`dimensionFilterIndices, this`dimensionFilterValues, this`hasDimensionFilters, this`bindingsPrepared
      ensures r.Ok? <==>
        dimensionFilters == map[] || (columns.names != [] && Resolvable(dimensionFilters, Names(columns)))
      ensures r.Ok? ==> Synchronized()
      ensures r.Err? ==> bindingsPrepared == old(bindingsPrepared)
    {
      dimensionFilterIndices, dimensionFilterValues := [], [];
      hasDimensionFilters := dimensionFilters != map[];
      if !hasDimensionFilters {
        bindingsPrepared := true;
        return Ok(());
      }
      if columns.names == [] {
        return Err(NoColumns);
      }
      var names := BuildNameMap();
      dimensionFilterIndices, dimensionFilterValues, r := BindFilters(dimensionFilters, names);
      if r.Ok? {
        bindingsPrepared := true;
      }
    }

    method EnsureDimensionFiltersPrepared() returns (r: Result<(), BindError>)
      requires ValidColumns(columns) && (bindingsPrepared ==> Synchronized())
      modifies this`dimensionFilterIndices, this`dimensionFilterValues, this`hasDimensionFilters, this`bindingsPrepared
      ensures r.Ok? ==> Synchronized()
    {
      r := Ok(());
      if !bindingsPrepared {
        r := PrepareDimensionFilters();
      }
    }
  }

  // ---------------------------------------------------------------- when names resolve to themselves

  /** The columns of a bound symbol: their names come from the schema. */
  ghost predicate FromSchema(c: Columns, symbolType: int, valueColumns: seq<ValueColumn>) {
    c.names == SchemaNames(c.labels, symbolType, valueColumns) && c.dimension == |c.labels|
  }

  predicate DistinctBases(labels: seq<string>) {
    forall i, j :: 0 <= i < j < |labels| ==> Normalize(Base(labels, i)) != Normalize(Base(labels, j))
  }

  ghost predicate ResolvesTo(c: Columns, key: string, d: nat)
    requires ValidColumns(c)
  {
    key in Names(c) && Names(c)[key] == d
  }

  lemma BaseNotEmpty(labels: seq<string>, i: nat)
    requires i < |labels|
    ensures Base(labels, i) != ""
  {
  }

  /** The domain part of a schema's names. */
  lemma DomainNames(c: Columns, symbolType: int, valueColumns: seq<ValueColumn>)
    requires FromSchema(c, symbolType, valueColumns)
    ensures ValidColumns(c)
    ensures forall i :: 0 <= i < |c.labels| ==> c.names[i] == Base(c.labels, i) || Base(c.labels, i) in c.names[..i]
    ensures DistinctBases(c.labels) ==> forall i :: 0 <= i < |c.labels| ==> c.names[i] == Base(c.labels, i)
  {
    var columns := SchemaColumns(c.labels, symbolType, valueColumns);
    var n := |c.labels|;
    assert forall i :: 0 <= i < n ==> columns[i].base == Base(c.labels, i);
    forall i | 0 <= i < n ensures c.names[i] == Base(c.labels, i) || Base(c.labels, i) in c.names[..i] {
      BaseNotEmpty(c.labels, i);
      UniquifyKeeps(columns, i);
    }
    if DistinctBases(c.labels) {
      UniquifyKeepsAll(columns, n);
    }
  }

  /** Each domain column's own name resolves to that column exactly when the names the
      dimensions ask for differ after lower-casing and trimming. */
  lemma ResolutionExact(c: Columns, symbolType: int, valueColumns: seq<ValueColumn>)
    requires FromSchema(c, symbolType, valueColumns)
    ensures ValidColumns(c)
    ensures (forall d :: 0 <= d < |c.labels| ==> ResolvesTo(c, Normalize(c.names[d]), d)) <==> DistinctBases(c.labels)
  {
    DomainNames(c, symbolType, valueColumns);
    var n := |c.labels|;
    if DistinctBases(c.labels) {
      forall d | 0 <= d < n ensures ResolvesTo(c, Normalize(c.names[d]), d) {
        ResolutionOfDistinct(c, d);
      }
    } else {
      var i, j :| 0 <= i < j < n && Normalize(Base(c.labels, i)) == Normalize(Base(c.labels, j));
      var k :| 0 <= k <= i && c.names[k] == Base(c.labels, i);
      ShadowedName(c, k, j);
    }
  }

  lemma ResolutionOfDistinct(c: Columns, d: nat)
    requires ValidColumns(c) && d < |c.labels| && DistinctBases(c.labels)
    requires forall i :: 0 <= i < |c.labels| ==> c.names[i] == Base(c.labels, i)
    ensures ResolvesTo(c, Normalize(c.names[d]), d)
  {
    var key := Normalize(c.names[d]);
    NameMapLookup(AllKeys(c), key);
    assert key == KeysOf(c, d)[0] && KeysOf(c, d) == AllKeys(c)[d];
    forall i | d < i < |c.labels| ensures key !in AllKeys(c)[i] {
      assert Normalize(Base(c.labels, d)) != Normalize(Base(c.labels, i));
    }
  }

  /** A name that a later dimension also enters does not resolve to its own column. */
  lemma ShadowedName(c: Columns, d: nat, later: nat)
    requires ValidColumns(c) && d < later < |c.labels|
    requires Normalize(c.names[d]) == Normalize(Base(c.labels, later))
    ensures !ResolvesTo(c, Normalize(c.names[d]), d)
  {
    NameMapLookup(AllKeys(c), Normalize(c.names[d]));
    assert KeysOf(c, later)[1] == Normalize(c.names[d]) && KeysOf(c, later) == AllKeys(c)[later];
  }

  /** With labels i, i the name of the first column reads the second dimension. */
  lemma RepeatedLabelWitness()
    ensures var c := Columns(SchemaNames(["i", "i"], GMS_DT_PAR, []), ["i", "i"], "d", 2);
      ValidColumns(c) && c.names[0] == "i" && ResolvesTo(c, Normalize(c.names[0]), 1)
  {
    var labels := ["i", "i"];
    var c := Columns(SchemaNames(labels, GMS_DT_PAR, []), labels, "d", 2);
    DomainNames(c, GMS_DT_PAR, []);
    assert c.names[0] == Base(labels, 0) && c.names[..0] == [];
    NameMapLookup(AllKeys(c), Normalize("i"));
    assert KeysOf(c, 1)[1] == Normalize("i") && KeysOf(c, 1) == AllKeys(c)[1];
  }

  // ---------------------------------------------------------------- the other resolver

  /** gdx_domain_values resolves a name to the first label equal to it up to case. */
  method ResolveDimensionByName(labels: seq<string>, name: string) returns (index: Option<nat>)
    ensures index == FirstLabel(labels, name, 0)
    ensures index.None? <==> forall i :: 0 <= i < |labels| ==> !CIEquals(labels[i], name)
    ensures index.Some? ==> index.value < |labels| && CIEquals(labels[index.value], name)
    ensures index.Some? ==> forall i :: 0 <= i < index.value ==> !CIEquals(labels[i], name)
  {
    index := None;
    var i := 0;
    while i < |labels|
      invariant 0 <= i <= |labels|
      invariant FirstLabel(labels, name, 0) == FirstLabel(labels, name, i)
    {
      if CIEquals(labels[i], name) {
        return Some(i);
      }
      i := i + 1;
    }
  }

  function FirstLabel(labels: seq<string>, name: string, from: nat): (r: Option<nat>)
    requires from <= |labels|
    ensures r.Some? ==> from <= r.value < |labels| && CIEquals(labels[r.value], name)
    ensures r.Some? ==> forall i :: from <= i < r.value ==> !CIEquals(labels[i], name)
    ensures r.None? ==> forall i :: from <= i < |labels| ==> !CIEquals(labels[i], name)
    decreases |labels| - from
  {
    if from == |labels| then None
    else if CIEquals(labels[from], name) then Some(from)
    else FirstLabel(labels, name, from + 1)
  }

  predicate RealLabel(text: string) {
    text != "" && text != "*" && Trimmed(text)
  }

  /** Under distinct names the two table functions agree on every trimmed label. */
  lemma ResolversAgree(c: Columns, symbolType: int, valueColumns: seq<ValueColumn>, d: nat)
    requires FromSchema(c, symbolType, valueColumns) && DistinctBases(c.labels)
    requires d < |c.labels| && RealLabel(c.labels[d])
    ensures FirstLabel(c.labels, c.labels[d], 0) == Some(d)
    ensures ValidColumns(c) && ResolvesTo(c, Normalize(c.labels[d]), d)
  {
    DomainNames(c, symbolType, valueColumns);
    ResolutionOfDistinct(c, d);
    forall i | 0 <= i < d ensures !CIEquals(c.labels[i], c.labels[d]) {
      assert Normalize(Base(c.labels, i)) != Normalize(Base(c.labels, d));
      if CIEquals(c.labels[i], c.labels[d]) { SameKindOfLabel(c.labels[i], c.labels[d]); }
    }
  }

  /** Both table functions send dimension `d`'s label to the same dimension. */
  ghost predicate ResolversMeet(c: Columns, d: nat)
    requires ValidColumns(c) && d < |c.labels|
  {
    var first := FirstLabel(c.labels, c.labels[d], 0);
    first.Some? && ResolvesTo(c, Normalize(c.labels[d]), first.value)
  }

  /** No trimmed label is entered as a name by a later dimension. */
  ghost predicate NoLaterDimension(c: Columns)
    requires ValidColumns(c)
  {
    forall d, e :: 0 <= d < e < |c.labels| && RealLabel(c.labels[d]) ==> Normalize(c.labels[d]) !in KeysOf(c, e)
  }

  /** Over any labels, they agree on all trimmed ones if and only if no later dimension enters
      such a label as a name: one function takes the first dimension that carries it, the other
      the last. */
  lemma ResolversMeetExactly(c: Columns)
    requires ValidColumns(c)
    ensures (forall d :: 0 <= d < |c.labels| && RealLabel(c.labels[d]) ==> ResolversMeet(c, d))
       <==> NoLaterDimension(c)
  {
    if NoLaterDimension(c) {
      forall d | 0 <= d < |c.labels| && RealLabel(c.labels[d]) ensures ResolversMeet(c, d) {
        LastIsFirst(c, d);
      }
    }
    forall d, e | 0 <= d < e < |c.labels| && RealLabel(c.labels[d]) && Normalize(c.labels[d]) in KeysOf(c, e)
      ensures !ResolversMeet(c, d)
    {
      LaterDimensionWins(c, d, e);
    }
  }

  lemma LastIsFirst(c: Columns, d: nat)
    requires ValidColumns(c) && d < |c.labels| && RealLabel(c.labels[d])
    requires NoLaterDimension(c)
    ensures ResolversMeet(c, d)
  {
    var key := Normalize(c.labels[d]);
    NameMapLookup(AllKeys(c), key);
    assert KeysOf(c, d)[1] == key && KeysOf(c, d) == AllKeys(c)[d];
    forall e | d < e < |c.labels| ensures key !in AllKeys(c)[e] { assert AllKeys(c)[e] == KeysOf(c, e); }
    assert CIEquals(c.labels[d], c.labels[d]);
    var first := FirstLabel(c.labels, c.labels[d], 0).value;
    if first < d {
      SameKindOfLabel(c.labels[first], c.labels[d]);
    }
  }

  lemma SameKindOfLabel(a: string, b: string)
    requires CIEquals(a, b) && RealLabel(b)
    ensures RealLabel(a) && Normalize(a) == Normalize(b)
  {
    assert |Lower(a)| == |a| && |Lower(b)| == |b|;
    assert LowerChar(a[0]) == Lower(a)[0] == LowerChar(b[0]);
    assert LowerChar(a[|a| - 1]) == Lower(a)[|a| - 1] == LowerChar(b[|b| - 1]);
  }

  /** Of two dimensions that enter a label one function takes the earlier, the other a later. */
  lemma LaterDimensionWins(c: Columns, i: nat, j: nat)
    requires ValidColumns(c) && i < j < |c.labels| && Normalize(c.labels[i]) in KeysOf(c, j)
    ensures !ResolversMeet(c, i)
  {
    NameMapLookup(AllKeys(c), Normalize(c.labels[i]));
    assert KeysOf(c, j) == AllKeys(c)[j];
    assert CIEquals(c.labels[i], c.labels[i]);
  }

  /** When every label is such a text, that is: if and only if the names are distinct. */
  lemma ResolversAgreeExactly(c: Columns, symbolType: int, valueColumns: seq<ValueColumn>)
    requires FromSchema(c, symbolType, valueColumns) && forall text | text in c.labels :: RealLabel(text)
    ensures ValidColumns(c)
    ensures (forall d :: 0 <= d < |c.labels| ==> ResolversMeet(c, d)) <==> DistinctBases(c.labels)
  {
    DomainNames(c, symbolType, valueColumns);
    if DistinctBases(c.labels) {
      forall d | 0 <= d < |c.labels| ensures ResolversMeet(c, d) {
        ResolversAgree(c, symbolType, valueColumns, d);
      }
    } else {
      var d := RepeatedBase(c);
    }
  }

  lemma RepeatedBase(c: Columns) returns (d: nat)
    requires ValidColumns(c) && !DistinctBases(c.labels) && forall text | text in c.labels :: RealLabel(text)
    ensures d < |c.labels| && !ResolversMeet(c, d)
  {
    var later: nat;
    d, later :| d < later < |c.labels| && Normalize(Base(c.labels, d)) == Normalize(Base(c.labels, later));
    assert c.labels[d] in c.labels && KeysOf(c, later)[1] == Normalize(c.labels[d]);
    LaterDimensionWins(c, d, later);
  }

  /** Without them they can disagree: with labels i, i one filters the second dimension and
      the other the first. */
  lemma ResolversDisagreeWitness()
    ensures var c := Columns(SchemaNames(["i", "i"], GMS_DT_PAR, []), ["i", "i"], "d", 2);
      FirstLabel(c.labels, "i", 0) == Some(0) && ValidColumns(c) && ResolvesTo(c, Normalize("i"), 1)
  {
    RepeatedLabelWitness();
  }
}
