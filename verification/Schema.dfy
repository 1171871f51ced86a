/** The output schema of read_gdx: which columns a symbol has, how their names are made
    unique, and where the scan finds them. */
module Schema {
  import opened Wrappers
  import opened Text

  datatype LogicalType = VARCHAR | BOOLEAN | DOUBLE

  datatype ValueColumnKind =
    SetMembership | SetText | Level | Marginal | LowerBound | UpperBound | Scale | RawValue

  datatype ValueColumn = ValueColumn(name: string, logicalType: LogicalType, kind: ValueColumnKind)

  /** A column before its name is made unique. */
  datatype Column = Column(base: string, logicalType: LogicalType)

  // Symbol type codes of the GDX library.
  const GMS_DT_SET := 0
  const GMS_DT_PAR := 1
  const GMS_DT_VAR := 2
  const GMS_DT_EQU := 3

  const LEVELS: seq<ValueColumn> :=
    [ValueColumn("level", DOUBLE, Level), ValueColumn("marginal", DOUBLE, Marginal),
     ValueColumn("lower", DOUBLE, LowerBound), ValueColumn("upper", DOUBLE, UpperBound),
     ValueColumn("scale", DOUBLE, Scale)]

  function ValueColumnDefinitions(symbolType: int): seq<ValueColumn> {
    if symbolType == GMS_DT_SET then
      [ValueColumn("is_member", BOOLEAN, SetMembership), ValueColumn("description", VARCHAR, SetText)]
    else if symbolType == GMS_DT_PAR then [ValueColumn("value", DOUBLE, Level)]
    else if symbolType == GMS_DT_VAR || symbolType == GMS_DT_EQU then LEVELS
    else [ValueColumn("value", DOUBLE, RawValue)]
  }

  // ---------------------------------------------------------------- unique names

  function Candidate(base: string, k: nat): string {
    if k == 0 then base else base + "_" + Decimal(k)
  }

  predicate Taken(candidate: string, used: set<string>) {
    candidate == "" || candidate in used
  }

  lemma CandidateInjective(base: string, j: nat, k: nat)
    requires Candidate(base, j) == Candidate(base, k)
    ensures j == k
  {
    if j > 0 && k > 0 {
      assert Candidate(base, j)[|base| + 1..] == Decimal(j);
      assert Candidate(base, k)[|base| + 1..] == Decimal(k);
      DecimalInjective(j, k);
    } else {
      assert |Candidate(base, 0)| == |base|;
    }
  }

  /** A pool can hold no more candidates than it has elements. */
  lemma {:induction false} Pigeonhole(base: string, pool: set<string>, k: nat)
    requires forall j :: 0 <= j < k ==> Candidate(base, j) in pool
    ensures k <= |pool|
  {
    if k > 0 {
      var last := Candidate(base, k - 1);
      forall j | 0 <= j < k - 1 ensures Candidate(base, j) in pool - {last} {
        if Candidate(base, j) == last { CandidateInjective(base, j, k - 1); }
      }
      Pigeonhole(base, pool - {last}, k - 1);
    }
  }

  lemma TriesBounded(base: string, used: set<string>, k: nat)
    requires forall j :: 0 <= j < k ==> Taken(Candidate(base, j), used)
    ensures k <= |used| + 1
  {
    Pigeonhole(base, used + {""}, k);
  }

  /** The first suffix, counting from `k`, whose candidate is free. */
  ghost function FirstFree(base: string, used: set<string>, k: nat): (free: nat)
    requires forall j :: 0 <= j < k ==> Taken(Candidate(base, j), used)
    ensures k <= free <= |used| + 1
    ensures !Taken(Candidate(base, free), used)
    ensures forall j :: 0 <= j < free ==> Taken(Candidate(base, j), used)
    decreases |used| + 2 - k
  {
    TriesBounded(base, used, k);
    if Taken(Candidate(base, k), used) then FirstFree(base, used, k + 1) else k
  }

  ghost function UniqueName(base: string, used: set<string>): string {
    Candidate(base, FirstFree(base, used, 0))
  }

  /** The suffix loop: it stops after at most |used| + 1 suffixes. */
  method UniqueColumnName(base: string, used: set<string>) returns (candidate: string)
    ensures candidate == UniqueName(base, used)
    ensures candidate != "" && candidate !in used
  {
    candidate := base;
    var suffix := 1;
    while candidate == "" || candidate in used
      invariant 1 <= suffix
      invariant candidate == Candidate(base, suffix - 1)
      invariant forall j :: 0 <= j < suffix - 1 ==> Taken(Candidate(base, j), used)
      decreases |used| + 2 - suffix
    {
      TriesBounded(base, used, suffix);
      candidate := base + "_" + Decimal(suffix);
      suffix := suffix + 1;
    }
  }

  ghost function Uniquify(columns: seq<Column>): (names: seq<string>)
    ensures |names| == |columns|
  {
    if columns == [] then []
    else
      var names := Uniquify(columns[..|columns| - 1]);
      names + [UniqueName(columns[|columns| - 1].base, NameSet(names))]
  }

  ghost function NameSet(names: seq<string>): set<string> {
    set name | name in names
  }

  // ---------------------------------------------------------------- the schema

  /** The name a dimension asks for: its label, or a generated one. */
  function Base(labels: seq<string>, i: nat): string
    requires i < |labels|
  {
    if labels[i] == "" || labels[i] == "*" then "dim_" + Decimal(i + 1) else labels[i]
  }

  function DomainColumns(labels: seq<string>): seq<Column> {
    seq(|labels|, i requires 0 <= i < |labels| => Column(Base(labels, i), VARCHAR))
  }

  function MetadataColumns(dimensionality: nat): seq<Column> {
    if dimensionality > 1 then [Column("is_sparse_break", BOOLEAN), Column("is_dense_run", BOOLEAN)] else []
  }

  function ValueColumns(valueColumns: seq<ValueColumn>): seq<Column> {
    seq(|valueColumns|, i requires 0 <= i < |valueColumns| => Column(valueColumns[i].name, valueColumns[i].logicalType))
  }

  function ColumnsToAdd(symbolType: int, valueColumns: seq<ValueColumn>): seq<ValueColumn> {
    if valueColumns == [] then ValueColumnDefinitions(symbolType) else valueColumns
  }

  function SchemaColumns(labels: seq<string>, symbolType: int, valueColumns: seq<ValueColumn>): seq<Column> {
    DomainColumns(labels) + MetadataColumns(|labels|) + ValueColumns(ColumnsToAdd(symbolType, valueColumns))
  }

  ghost function SchemaNames(labels: seq<string>, symbolType: int, valueColumns: seq<ValueColumn>): seq<string> {
    Uniquify(SchemaColumns(labels, symbolType, valueColumns))
  }

  function Types(columns: seq<Column>): seq<LogicalType> {
    seq(|columns|, i requires 0 <= i < |columns| => columns[i].logicalType)
  }

  /** The output vectors after the first columns have been added. */
  ghost predicate Built(columns: seq<Column>, types: seq<LogicalType>, names: seq<string>, used: set<string>) {
    types == Types(columns) && names == Uniquify(columns) && used == NameSet(names)
  }

  method AddUniqueColumn(column: Column, types: seq<LogicalType>, names: seq<string>, used: set<string>,
                         ghost before: seq<Column>)
    returns (types': seq<LogicalType>, names': seq<string>, used': set<string>)
    requires Built(before, types, names, used)
    ensures Built(before + [column], types', names', used')
  {
    var candidate := UniqueColumnName(column.base, used);
    used' := used + {candidate};
    names' := names + [candidate];
    types' := types + [column.logicalType];
    ghost var after := before + [column];
    assert after[..|after| - 1] == before;
  }

  method AddDomainColumns(labels: seq<string>, ghost all: seq<Column>)
    returns (types: seq<LogicalType>, names: seq<string>, used: set<string>)
    requires DomainColumns(labels) <= all
    ensures Built(all[..|labels|], types, names, used)
  {
    types, names, used := [], [], {};
    for i := 0 to |labels|
      invariant Built(all[..i], types, names, used)
    {
      assert all[i] == DomainColumns(labels)[i];
      assert all[..i + 1] == all[..i] + [all[i]];
      types, names, used := AddUniqueColumn(Column(Base(labels, i), VARCHAR), types, names, used, all[..i]);
    }
  }

  method AddValueColumns(added: seq<ValueColumn>, types: seq<LogicalType>, names: seq<string>, used: set<string>,
                         ghost before: seq<Column>)
    returns (types': seq<LogicalType>, names': seq<string>)
    requires Built(before, types, names, used)
    ensures types' == Types(before + ValueColumns(added)) && names' == Uniquify(before + ValueColumns(added))
  {
    var used' := used;
    types', names' := types, names;
    assert before + ValueColumns(added[..0]) == before;
    for i := 0 to |added|
      invariant Built(before + ValueColumns(added[..i]), types', names', used')
    {
      var column := Column(added[i].name, added[i].logicalType);
      ghost var soFar := before + ValueColumns(added[..i]);
      types', names', used' := AddUniqueColumn(column, types', names', used', soFar);
      assert soFar + [column] == before + ValueColumns(added[..i + 1]);
    }
    assert added[..|added|] == added;
  }

  method BuildReadGdxSchema(labels: seq<string>, symbolType: int, valueColumns: seq<ValueColumn>)
    returns (types: seq<LogicalType>, names: seq<string>)
    ensures names == SchemaNames(labels, symbolType, valueColumns)
    ensures types == Types(SchemaColumns(labels, symbolType, valueColumns))
    ensures |types| == |names| == |SchemaColumns(labels, symbolType, valueColumns)|
    ensures forall i :: 0 <= i < |types| ==> types[i] == SchemaColumns(labels, symbolType, valueColumns)[i].logicalType
  {
    ghost var before := DomainColumns(labels);
    assert before[..|labels|] == before;
    var used;
    types, names, used := AddDomainColumns(labels, before);
    if |labels| > 1 {
      types, names, used := AddUniqueColumn(Column("is_sparse_break", BOOLEAN), types, names, used, before);
      before := before + [Column("is_sparse_break", BOOLEAN)];
      types, names, used := AddUniqueColumn(Column("is_dense_run", BOOLEAN), types, names, used, before);
      before := before + [Column("is_dense_run", BOOLEAN)];
    }
    assert before == DomainColumns(labels) + MetadataColumns(|labels|);
    types, names := AddValueColumns(ColumnsToAdd(symbolType, valueColumns), types, names, used, before);
  }

  // ---------------------------------------------------------------- properties of the names

  predicate Distinct(names: seq<string>) {
    forall i, j :: 0 <= i < j < |names| ==> names[i] != names[j]
  }

  /** Column names are non-empty and pairwise distinct, whatever the labels and value columns. */
  lemma {:induction false} UniquifyDistinct(columns: seq<Column>)
    ensures Distinct(Uniquify(columns))
    ensures forall i :: 0 <= i < |columns| ==> Uniquify(columns)[i] != ""
  {
    if columns != [] {
      var init := columns[..|columns| - 1];
      UniquifyDistinct(init);
      var names := Uniquify(init);
      forall i | 0 <= i < |names| ensures names[i] != Uniquify(columns)[|init|] {
        assert names[i] in NameSet(names);
      }
    }
  }

  lemma {:induction false} UniquifyPrefix(columns: seq<Column>, k: nat)
    requires k <= |columns|
    ensures Uniquify(columns)[..k] == Uniquify(columns[..k])
  {
    if k == |columns| {
      assert columns[..k] == columns;
      assert Uniquify(columns)[..k] == Uniquify(columns);
    } else {
      var init := columns[..|columns| - 1];
      UniquifyPrefix(init, k);
      assert init[..k] == columns[..k];
      assert Uniquify(columns)[..k] == Uniquify(init)[..k];
    }
  }

  /** A column keeps the name it asked for unless an earlier column took it. */
  lemma UniquifyKeeps(columns: seq<Column>, i: nat)
    requires i < |columns| && columns[i].base != ""
    ensures Uniquify(columns)[i] == columns[i].base || columns[i].base in Uniquify(columns)[..i]
  {
    UniquifyPrefix(columns, i + 1);
    var prefix := columns[..i + 1];
    assert prefix[..i] == columns[..i];
    UniquifyPrefix(columns, i);
    var names := Uniquify(columns[..i]);
    assert Uniquify(prefix) == names + [UniqueName(columns[i].base, NameSet(names))];
    if columns[i].base !in names {
      assert Candidate(columns[i].base, 0) == columns[i].base;
    }
  }

  /** When the requested names already differ, every column keeps its own. */
  lemma {:induction false} UniquifyKeepsAll(columns: seq<Column>, n: nat)
    requires n <= |columns|
    requires forall i :: 0 <= i < n ==> columns[i].base != ""
    requires forall i, j :: 0 <= i < j < n ==> columns[i].base != columns[j].base
    ensures forall i :: 0 <= i < n ==> Uniquify(columns)[i] == columns[i].base
  {
    if n > 0 {
      UniquifyKeepsAll(columns, n - 1);
      UniquifyKeeps(columns, n - 1);
    }
  }

  /** Repeated names are told apart by the suffixes _1, _2 and so on; a name without text gets
      the first suffix too. */
  lemma SuffixesStartAtOne(base: string, a: LogicalType, b: LogicalType, c: LogicalType)
    ensures base != "" ==> Uniquify([Column(base, a), Column(base, b), Column(base, c)])
                             == [base, base + "_1", base + "_2"]
    ensures Uniquify([Column("", a)]) == ["_1"]
  {
    var one, two, three := [Column(base, a)], [Column(base, a), Column(base, b)],
      [Column(base, a), Column(base, b), Column(base, c)];
    assert Decimal(1) == "1" && Decimal(2) == "2";
    assert one[..0] == [] && two[..1] == one && three[..2] == two && [Column("", a)][..0] == [];
    assert Candidate("", 1) == "_1" && Candidate("", 0) == "";
    UniqueIs("", {}, 1);
    if base != "" {
      assert Candidate(base, 1) == base + "_1" && Candidate(base, 2) == base + "_2";
      assert |base + "_1"| != |base| && (base + "_1")[|base| + 1] != (base + "_2")[|base| + 1];
      UniqueIs(base, {}, 0);
      assert Uniquify(one) == [] + [base] && NameSet([base]) == {base};
      UniqueIs(base, {base}, 1);
      assert Uniquify(two) == [base] + [base + "_1"] && NameSet([base, base + "_1"]) == {base, base + "_1"};
      UniqueIs(base, {base, base + "_1"}, 2);
    }
  }

  /** The first free suffix decides. */
  lemma UniqueIs(base: string, used: set<string>, k: nat)
    requires (forall j :: 0 <= j < k ==> Taken(Candidate(base, j), used)) && !Taken(Candidate(base, k), used)
    ensures UniqueName(base, used) == Candidate(base, k)
  {
    var free := FirstFree(base, used, 0);
    assert !Taken(Candidate(base, free), used);
  }

  /** Without a selection, a symbol has all its value columns. */
  lemma DefaultSelection(labels: seq<string>, symbolType: int)
    ensures SchemaColumns(labels, symbolType, [])
      == SchemaColumns(labels, symbolType, ValueColumnDefinitions(symbolType))
    ensures ValueColumnDefinitions(symbolType) != []
  {
  }

  // ---------------------------------------------------------------- column layout

  /** Where read_gdx finds each group of columns while scanning. */
  datatype Layout = Layout(domainCount: nat, metadataOffset: nat, metadataCount: nat, valueOffset: nat, valueCount: nat)

  function LayoutOf(labelCount: nat, dimension: nat, valueColumnCount: nat): Layout {
    var metadataCount := if dimension > 1 then 2 else 0;
    Layout(labelCount, labelCount, metadataCount, labelCount + metadataCount, valueColumnCount)
  }

  /** The layout computed at bind time addresses exactly the columns the schema declared,
      each with the type the scan writes into it. */
  lemma LayoutMatchesSchema(labels: seq<string>, symbolType: int, valueColumns: seq<ValueColumn>)
    requires valueColumns != []
    ensures var l := LayoutOf(|labels|, |labels|, |valueColumns|);
      var columns := SchemaColumns(labels, symbolType, valueColumns);
      && |SchemaNames(labels, symbolType, valueColumns)| == |columns| == l.valueOffset + l.valueCount
      && l.domainCount == |labels| && (forall i :: 0 <= i < |labels| ==> columns[i] == Column(Base(labels, i), VARCHAR))
      && (|labels| > 1 <==> l.metadataCount != 0)
      && (|labels| > 1 ==>
            && l.metadataOffset == |labels| && l.valueOffset == |labels| + 2
            && columns[|labels|] == Column("is_sparse_break", BOOLEAN)
            && columns[|labels| + 1] == Column("is_dense_run", BOOLEAN))
      && (forall i :: 0 <= i < l.valueCount ==>
            columns[l.valueOffset + i] == Column(valueColumns[i].name, valueColumns[i].logicalType))
  {
  }

  /** The value_columns parameter: a duplicate-free selection of the symbol's own columns. */
  method SelectValueColumns(available: seq<ValueColumn>, requested: seq<string>)
    returns (selected: Option<seq<ValueColumn>>)
    ensures selected.Some? <==>
      Distinct(requested) && forall r :: r in requested ==> exists v :: v in available && v.name == r
    ensures selected.Some? ==> |selected.value| == |requested|
    ensures selected.Some? ==>
      forall i :: 0 <= i < |requested| ==> selected.value[i] in available && selected.value[i].name == requested[i]
  {
    var columns: seq<ValueColumn> := [];
    var seen: set<string> := {};
    for i := 0 to |requested|
      invariant |columns| == i && seen == NameSet(requested[..i]) && Distinct(requested[..i])
      invariant forall j :: 0 <= j < i ==> columns[j] in available && columns[j].name == requested[j]
    {
      var k := 0;
      while k < |available| && available[k].name != requested[i]
        invariant 0 <= k <= |available|
        invariant forall j :: 0 <= j < k ==> available[j].name != requested[i]
      {
        k := k + 1;
      }
      if k == |available| {
        assert requested[i] in requested;
        return None;
      }
      if requested[i] in seen {
        var j :| 0 <= j < i && requested[j] == requested[i];
        return None;
      }
      seen := seen + {requested[i]};
      columns := columns + [available[k]];
    }
    selected := Some(columns);
  }
}
