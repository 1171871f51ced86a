/** The data read_gdx works on: GDX records, the table of element labels (UELs) they point
    into, and the rows they become. */
module Records {
  import opened Wrappers
  import opened Text
  import opened Schema

  /** A SQL value. A double carries the text it casts to. */
  datatype Value = Null | Varchar(text: string) | Integer(n: int) | Double(r: real, printed: string) | Boolean(b: bool)

  /** One GDX record: UEL numbers, and the value slots with special values already NULL. */
  datatype Record = Record(keys: seq<int>, level: Value, marginal: Value, lower: Value, upper: Value, scale: Value,
                           description: Value)

  /** A record as the library hands it out, with the first dimension that changed: counted from
      1, and 0 when all keys are the same. */
  datatype Fetched = Fetched(record: Record, dimFrst: nat)

  /** Entry 0 of a UEL table is unused. */
  type UelTable = seq<string>

  function UelString(uels: UelTable, uelNr: int): string {
    if 0 < uelNr < |uels| then uels[uelNr] else ""
  }

  /** `names[i]` is what the library answers for entry i + 1; an entry it does not answer
      shows its number. */
  function TableEntry(names: seq<Option<string>>, i: nat): string
    requires i <= |names|
  {
    if i == 0 then "" else if names[i - 1].Some? then names[i - 1].value else Decimal(i)
  }

  /** Loads the table once per open file; numbers outside it show as the empty text. */
  method PreloadUelTable(names: seq<Option<string>>) returns (uels: UelTable)
    ensures |uels| == |names| + 1
    ensures forall i :: 1 <= i <= |names| ==>
      UelString(uels, i) == if names[i - 1].Some? then names[i - 1].value else Decimal(i)
    ensures forall i: int :: i < 1 || i > |names| ==> UelString(uels, i) == ""
  {
    uels := [""];
    for i := 1 to |names| + 1
      invariant |uels| == i && forall k :: 0 <= k < i ==> uels[k] == TableEntry(names, k)
    {
      uels := uels + [TableEntry(names, i)];
    }
  }

  function Texts(uels: UelTable, record: Record): (texts: seq<string>)
    ensures |texts| == |record.keys|
  {
    seq(|record.keys|, i requires 0 <= i < |record.keys| => UelString(uels, record.keys[i]))
  }

  /** A record of an n-dimensional symbol whose keys are entries of the table. */
  predicate WellFormed(record: Record, n: nat, uels: UelTable) {
    |record.keys| == n && forall i :: 0 <= i < n ==> 0 < record.keys[i] < |uels|
  }

  predicate AllWellFormed(records: seq<Record>, n: nat, uels: UelTable) {
    forall r | r in records :: WellFormed(r, n, uels)
  }

  function ValueCell(kind: ValueColumnKind, record: Record): Value {
    match kind
    case SetMembership => if record.level.Null? then Null else Boolean(true)
    case SetText => record.description
    case Level => record.level
    case RawValue => record.level
    case Marginal => record.marginal
    case LowerBound => record.lower
    case UpperBound => record.upper
    case Scale => record.scale
  }

  function DomainCells(uels: UelTable, record: Record): seq<Value> {
    seq(|record.keys|, i requires 0 <= i < |record.keys| => Varchar(UelString(uels, record.keys[i])))
  }

  /** `dimFrst` is the first dimension that changed, as the library reports it with a record. */
  function MetadataCells(dimension: nat, dimFrst: nat): seq<Value> {
    if dimension > 1 then [Boolean(0 < dimFrst <= 1), Boolean(dimFrst == 0 || dimFrst > 1)] else []
  }

  function ValueCells(columns: seq<ValueColumn>, record: Record): seq<Value> {
    seq(|columns|, i requires 0 <= i < |columns| => ValueCell(columns[i].kind, record))
  }

  function RowOf(columns: seq<ValueColumn>, uels: UelTable, record: Record, dimFrst: nat): seq<Value> {
    DomainCells(uels, record) + MetadataCells(|record.keys|, dimFrst) + ValueCells(columns, record)
  }

  // ---------------------------------------------------------------- changed dimensions

  /** The first position at which two keys differ, counted from 1; 0 when there is none. */
  function FirstDifference(a: seq<int>, b: seq<int>): nat {
    if a == [] || b == [] then 0
    else if a[0] != b[0] then 1
    else
      var d := FirstDifference(a[1..], b[1..]);
      if d == 0 then 0 else d + 1
  }

  /** The first record of a read counts as a change of the first dimension. */
  function FirstChanged(previous: Option<Record>, r: Record): nat {
    if previous.None? then 1 else FirstDifference(previous.value.keys, r.keys)
  }

  /** A read of these records after `previous`: each is compared with the one returned before. */
  function Numbered(previous: Option<Record>, records: seq<Record>): (stream: seq<Fetched>)
    ensures |stream| == |records|
    decreases records
  {
    if records == [] then []
    else [Fetched(records[0], FirstChanged(previous, records[0]))] + Numbered(Some(records[0]), records[1..])
  }

  /** The order of a symbol's records in a file. */
  predicate KeyBefore(a: seq<int>, b: seq<int>) {
    a != [] && b != [] && (a[0] < b[0] || (a[0] == b[0] && KeyBefore(a[1..], b[1..])))
  }

  predicate KeySorted(records: seq<Record>) {
    forall i, j :: 0 <= i < j < |records| ==> KeyBefore(records[i].keys, records[j].keys)
  }

  // ---------------------------------------------------------------- dimension filters

  /** Which text each filtered dimension must carry. */
  type DimensionMap = map<nat, string>

  ghost predicate Accepts(filter: DimensionMap, texts: seq<string>) {
    forall d | d in filter :: d < |texts| && CIEquals(texts[d], filter[d])
  }

  ghost function Filtered(filter: DimensionMap, uels: UelTable, records: seq<Record>): seq<Record> {
    if records == [] then []
    else (if Accepts(filter, Texts(uels, records[0])) then [records[0]] else []) + Filtered(filter, uels, records[1..])
  }

  lemma {:induction false} FilteredSubset(filter: DimensionMap, uels: UelTable, records: seq<Record>)
    ensures forall r :: r in Filtered(filter, uels, records) <==> r in records && Accepts(filter, Texts(uels, r))
  {
    if records != [] {
      FilteredSubset(filter, uels, records[1..]);
      assert records == [records[0]] + records[1..];
    }
  }

  lemma {:induction false} FilteredByNothing(uels: UelTable, records: seq<Record>)
    ensures Filtered(map[], uels, records) == records
  {
    if records != [] {
      FilteredByNothing(uels, records[1..]);
      assert records == [records[0]] + records[1..];
    }
  }

  // ---------------------------------------------------------------- windows

  /** What row_offset and row_limit keep. */
  function Window<T>(s: seq<T>, offset: nat, limit: Option<nat>): seq<T> {
    var rest := if offset <= |s| then s[offset..] else [];
    if limit.Some? && limit.value <= |rest| then rest[..limit.value] else rest
  }
}
