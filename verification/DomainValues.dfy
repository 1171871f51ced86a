/** gdx_domain_values: distinct values per dimension, the two levels that cache them, and the
    cursors that read them out. */
module DomainValues {
  import opened Wrappers
  import opened Text
  import opened Sorting
  import opened Records
  import opened DimensionFilters
  import opened FilterCompiler

  // ---------------------------------------------------------------- the distinct scan

  /** UEL numbers occurring in dimension `d`. */
  function IndexSet(records: seq<Record>, d: nat): set<int> {
    set r | r in records && d < |r.keys| :: r.keys[d]
  }

  /** The texts of `indices` up to number `n`; numbers outside the table are skipped. */
  function Listed(indices: set<int>, uels: UelTable, n: nat): seq<string>
    requires n < |uels| || n == 0
  {
    if n == 0 then [] else Listed(indices, uels, n - 1) + (if n in indices then [uels[n]] else [])
  }

  function Last(uels: UelTable): nat {
    if |uels| == 0 then 0 else |uels| - 1
  }

  /** The distinct values of one dimension, in byte order. */
  function DistinctValues(records: seq<Record>, uels: UelTable, d: nat): seq<string> {
    Sort(Listed(IndexSet(records, d), uels, Last(uels)))
  }

  function AllDistinctValues(records: seq<Record>, uels: UelTable, dimension: nat): (all: seq<seq<string>>)
    ensures |all| == dimension
  {
    seq(dimension, d requires 0 <= d < dimension => DistinctValues(records, uels, d))
  }

  lemma {:induction false} ListedBag(indices: set<int>, uels: UelTable, n: nat, i: int)
    requires (n < |uels| || n == 0) && i !in indices
    ensures multiset(Listed(indices + {i}, uels, n)) ==
      multiset(Listed(indices, uels, n)) + (if 0 < i <= n then multiset{uels[i]} else multiset{})
  {
    if n > 0 {
      ListedBag(indices, uels, n - 1, i);
      var before, after := Listed(indices, uels, n - 1), Listed(indices + {i}, uels, n - 1);
      if n == i {
        assert Listed(indices + {i}, uels, n) == after + [uels[n]] && Listed(indices, uels, n) == before + [];
      } else if n in indices {
        assert Listed(indices + {i}, uels, n) == after + [uels[n]] && Listed(indices, uels, n) == before + [uels[n]];
      } else {
        assert Listed(indices + {i}, uels, n) == after + [] && Listed(indices, uels, n) == before + [];
      }
    }
  }

  lemma {:induction false} ListedMembers(indices: set<int>, uels: UelTable, n: nat, t: string)
    requires n < |uels| || n == 0
    ensures t in Listed(indices, uels, n) <==> exists i :: i in indices && 0 < i <= n && uels[i] == t
  {
    if n > 0 {
      ListedMembers(indices, uels, n - 1, t);
      assert t in Listed(indices, uels, n) <==> t in Listed(indices, uels, n - 1) || (n in indices && uels[n] == t);
    }
  }

  method CollectIndices(records: seq<Record>, d: nat) returns (indices: set<int>)
    requires forall r | r in records :: d < |r.keys|
    ensures indices == IndexSet(records, d)
  {
    indices := {};
    for k := 0 to |records|
      invariant indices == IndexSet(records[..k], d)
    {
      assert records[..k + 1] == records[..k] + [records[k]];
      indices := indices + {records[k].keys[d]};
    }
    assert records[..|records|] == records;
  }

  lemma NonEmpty(s: set<int>)
    ensures s != {} ==> exists i :: i in s
  {
    if forall i :: i !in s { assert s == {}; }
  }

  /** Translates the numbers in whatever order the hash set yields them, then sorts. */
  method SortedTexts(indices: set<int>, uels: UelTable) returns (values: seq<string>)
    ensures values == Sort(Listed(indices, uels, Last(uels)))
  {
    values := [];
    var remaining := indices;
    ghost var listed: set<int> := {};
    ListedNothing(uels, Last(uels));
    while remaining != {}
      invariant listed <= indices && remaining == indices - listed
      invariant multiset(values) == multiset(Listed(listed, uels, Last(uels)))
    {
      NonEmpty(remaining);
      var i :| i in remaining;
      ListedBag(listed, uels, Last(uels), i);
      remaining := remaining - {i};
      listed := listed + {i};
      if 0 < i < |uels| {
        values := values + [uels[i]];
      }
    }
    assert listed == indices;
    SortOrderIndependent(values, Listed(indices, uels, Last(uels)));
    values := Sort(values);
  }

  method ScanDimension(records: seq<Record>, uels: UelTable, d: nat) returns (values: seq<string>)
    requires forall r | r in records :: d < |r.keys|
    ensures values == DistinctValues(records, uels, d)
  {
    var indices := CollectIndices(records, d);
    values := SortedTexts(indices, uels);
  }

  lemma {:induction false} ListedNothing(uels: UelTable, n: nat)
    requires n < |uels| || n == 0
    ensures Listed({}, uels, n) == []
  {
    if n > 0 { ListedNothing(uels, n - 1); }
  }

  method ScanAll(records: seq<Record>, uels: UelTable, dimension: nat) returns (all: seq<seq<string>>)
    requires forall r | r in records :: |r.keys| == dimension
    ensures all == AllDistinctValues(records, uels, dimension)
  {
    all := [];
    for d := 0 to dimension
      invariant |all| == d && forall k :: 0 <= k < d ==> all[k] == DistinctValues(records, uels, k)
    {
      var values := ScanDimension(records, uels, d);
      all := all + [values];
    }
  }

  /** An unfiltered scan lists exactly the texts read_gdx shows in that column, in order. */
  lemma DistinctValuesAreColumnTexts(records: seq<Record>, uels: UelTable, n: nat, d: nat)
    requires AllWellFormed(records, n, uels) && d < n
    ensures Sorted(DistinctValues(records, uels, d))
    ensures forall t :: t in DistinctValues(records, uels, d) <==> exists r :: r in records && Texts(uels, r)[d] == t
  {
    var indices := IndexSet(records, d);
    var listed := Listed(indices, uels, Last(uels));
    SortSorts(listed);
    forall t ensures t in DistinctValues(records, uels, d) <==> exists r :: r in records && Texts(uels, r)[d] == t {
      ListedMembers(indices, uels, Last(uels), t);
      assert t in DistinctValues(records, uels, d) <==> t in multiset(listed);
      if t in listed {
        var i :| i in indices && 0 < i <= Last(uels) && uels[i] == t;
        var r :| r in records && d < |r.keys| && r.keys[d] == i;
        assert Texts(uels, r)[d] == t;
      }
      if exists r :: r in records && Texts(uels, r)[d] == t {
        var r :| r in records && Texts(uels, r)[d] == t;
        assert WellFormed(r, n, uels) && r.keys[d] in indices;
      }
    }
  }

  predicate InjectiveTable(uels: UelTable) {
    forall i, j :: 0 < i < j < |uels| ==> uels[i] != uels[j]
  }

  lemma {:induction false} ListedOnce(indices: set<int>, uels: UelTable, n: nat)
    requires (n < |uels| || n == 0) && InjectiveTable(uels)
    ensures forall t :: multiset(Listed(indices, uels, n))[t] <= 1
  {
    if n > 0 {
      ListedOnce(indices, uels, n - 1);
      ListedMembers(indices, uels, n - 1, uels[n]);
    }
  }

  /** With an injective UEL table the values are strictly increasing. */
  lemma DistinctValuesIncrease(records: seq<Record>, uels: UelTable, d: nat, i: nat, j: nat)
    requires InjectiveTable(uels) && i < j < |DistinctValues(records, uels, d)|
    ensures var v := DistinctValues(records, uels, d); v[i] != v[j] && AtMost(v[i], v[j])
  {
    var listed := Listed(IndexSet(records, d), uels, Last(uels));
    var v := DistinctValues(records, uels, d);
    SortSorts(listed);
    ListedOnce(IndexSet(records, d), uels, Last(uels));
    if v[i] == v[j] {
      TwiceInBag(v, i, j);
    }
  }

  /** A filtered scan shows a subset of what the unfiltered one shows. */
  lemma FilteredValuesSubset(records: seq<Record>, uels: UelTable, n: nat, d: nat, filter: DimensionMap, t: string)
    requires AllWellFormed(records, n, uels) && d < n
    requires t in DistinctValues(Filtered(filter, uels, records), uels, d)
    ensures t in DistinctValues(records, uels, d)
  {
    FilteredSubset(filter, uels, records);
    DistinctValuesAreColumnTexts(records, uels, n, d);
    DistinctValuesAreColumnTexts(Filtered(filter, uels, records), uels, n, d);
  }

  /** It shows all of them in every dimension if and only if it drops no record. */
  lemma FilteredValuesCompleteExactly(records: seq<Record>, uels: UelTable, n: nat, filter: DimensionMap)
    requires AllWellFormed(records, n, uels) && forall d | d in filter :: d < n
    ensures AllDistinctValues(Filtered(filter, uels, records), uels, n) == AllDistinctValues(records, uels, n)
       <==> forall r | r in records :: Accepts(filter, Texts(uels, r))
  {
    if forall r | r in records :: Accepts(filter, Texts(uels, r)) {
      FilteredAll(filter, uels, records);
    }
    forall r | r in records && !Accepts(filter, Texts(uels, r))
      ensures AllDistinctValues(Filtered(filter, uels, records), uels, n) != AllDistinctValues(records, uels, n)
    {
      var d :| d in filter && !CIEquals(Texts(uels, r)[d], filter[d]);
      DroppedText(records, uels, n, filter, r, d);
      assert AllDistinctValues(records, uels, n)[d] == DistinctValues(records, uels, d);
    }
  }

  lemma {:induction false} FilteredAll(filter: DimensionMap, uels: UelTable, records: seq<Record>)
    requires forall r | r in records :: Accepts(filter, Texts(uels, r))
    ensures Filtered(filter, uels, records) == records
  {
    if records != [] {
      assert records[0] in records && forall r | r in records[1..] :: r in records;
      FilteredAll(filter, uels, records[1..]);
      assert records == [records[0]] + records[1..];
    }
  }

  /** The text that made the filter drop a record occurs in no record it lets through. */
  lemma DroppedText(records: seq<Record>, uels: UelTable, n: nat, filter: DimensionMap, r: Record, d: nat)
    requires AllWellFormed(records, n, uels) && r in records && d in filter && d < n
    requires !CIEquals(Texts(uels, r)[d], filter[d])
    ensures DistinctValues(Filtered(filter, uels, records), uels, d) != DistinctValues(records, uels, d)
  {
    var kept, t := Filtered(filter, uels, records), Texts(uels, r)[d];
    FilteredSubset(filter, uels, records);
    DistinctValuesAreColumnTexts(records, uels, n, d);
    DistinctValuesAreColumnTexts(kept, uels, n, d);
    assert t in DistinctValues(records, uels, d);
    forall x | x in kept ensures Texts(uels, x)[d] != t { assert CIEquals(Texts(uels, x)[d], filter[d]); }
  }

  /** Over a table without repeated texts, two scans list the same values if and only if they
      show the same texts. */
  lemma SameValuesExactly(a: seq<Record>, b: seq<Record>, uels: UelTable, n: nat, d: nat)
    requires AllWellFormed(a, n, uels) && AllWellFormed(b, n, uels) && d < n && InjectiveTable(uels)
    ensures DistinctValues(a, uels, d) == DistinctValues(b, uels, d)
       <==> forall t :: Shows(a, uels, d, t) <==> Shows(b, uels, d, t)
  {
    DistinctValuesAreColumnTexts(a, uels, n, d);
    DistinctValuesAreColumnTexts(b, uels, n, d);
    if DistinctValues(a, uels, d) == DistinctValues(b, uels, d) {
      forall t ensures Shows(a, uels, d, t) <==> Shows(b, uels, d, t) {
        assert t in DistinctValues(a, uels, d) <==> t in DistinctValues(b, uels, d);
      }
    }
    if forall t :: Shows(a, uels, d, t) <==> Shows(b, uels, d, t) {
      ShownIndices(a, b, uels, n, d);
      ShownIndices(b, a, uels, n, d);
      assert IndexSet(a, d) == IndexSet(b, d);
    }
  }

  /** Some record carries the text in dimension `d`. */
  ghost predicate Shows(records: seq<Record>, uels: UelTable, d: nat, t: string) {
    exists r :: r in records && d < |r.keys| && Texts(uels, r)[d] == t
  }

  lemma ShownIndices(a: seq<Record>, b: seq<Record>, uels: UelTable, n: nat, d: nat)
    requires AllWellFormed(a, n, uels) && AllWellFormed(b, n, uels) && d < n && InjectiveTable(uels)
    requires forall t :: Shows(a, uels, d, t) ==> Shows(b, uels, d, t)
    ensures IndexSet(a, d) <= IndexSet(b, d)
  {
    forall i | i in IndexSet(a, d) ensures i in IndexSet(b, d) {
      var r :| r in a && d < |r.keys| && r.keys[d] == i;
      assert WellFormed(r, n, uels) && Shows(a, uels, d, uels[i]);
      var x :| x in b && d < |x.keys| && Texts(uels, x)[d] == uels[i];
      assert WellFormed(x, n, uels) && uels[x.keys[d]] == uels[i];
    }
  }

  // ---------------------------------------------------------------- registering filter texts

  predicate AllDifferent(values: seq<string>) {
    forall i, j :: 0 <= i < j < |values| ==> !CIEquals(values[i], values[j])
  }

  /** This scan registers every text anew, so a text requested twice already fails. */
  method RegisterAllValues(handle: GdxHandle, values: seq<string>) returns (ok: bool, userMap: map<string, int>)
    requires handle.userIndex == map[]
    modifies handle`userIndex
    ensures ok <==> AllDifferent(values)
    ensures ok ==> Injective(userMap) && FoldsTo(userMap, handle.userIndex) && forall v :: v in userMap <==> v in values
  {
    userMap := map[];
    for i := 0 to |values|
      invariant AllDifferent(values[..i])
      invariant forall v :: v in userMap <==> v in values[..i]
      invariant forall v | v in userMap :: userMap[v] <= i
      invariant Injective(userMap) && FoldsTo(userMap, handle.userIndex)
    {
      ghost var folded := handle.userIndex;
      EarlierText(values, i, userMap, folded);
      ok := handle.UelRegisterMap(i + 1, values[i]);
      if !ok {
        return false, userMap;
      }
      FoldOneMore(userMap, folded, values[i], i + 1);
      userMap := userMap[values[i] := i + 1];
      assert values[..i + 1] == values[..i] + [values[i]];
    }
    assert values[..|values|] == values;
    ok := true;
  }

  lemma EarlierText(values: seq<string>, i: nat, userMap: map<string, int>, folded: map<string, int>)
    requires i < |values| && FoldsTo(userMap, folded) && AllDifferent(values[..i])
    requires (forall v :: v in userMap <==> v in values[..i]) && forall v | v in userMap :: userMap[v] <= i
    ensures Lower(values[i]) in folded ==> !AllDifferent(values) && folded[Lower(values[i])] != i + 1
    ensures Lower(values[i]) !in folded ==> AllDifferent(values[..i + 1]) && values[i] !in userMap
  {
    if Lower(values[i]) in folded {
      var v :| v in userMap && Lower(v) == Lower(values[i]);
      var k :| 0 <= k < i && values[..i][k] == v;
      assert CIEquals(values[k], values[i]);
    } else {
      forall a, b | 0 <= a < b < i + 1 ensures !CIEquals(values[a], values[b]) {
        assert values[a] == values[..i][a] && values[a] in values[..i];
        if b < i { assert values[b] == values[..i][b]; }
      }
    }
  }

  /** read_gdx accepts one text for two dimensions; here the same filters are an error. */
  lemma RepeatedTextWitness(text: string)
    ensures CaseConsistent([text, text]) && !AllDifferent([text, text])
  {
    assert CIEquals([text, text][0], [text, text][1]);
  }

  /** Registration and filtered read together: exactly the records the filters describe. */
  method ReadFiltered(records: seq<Record>, uels: UelTable, dimension: nat, indices: seq<nat>, values: seq<string>)
    returns (ok: bool, selected: seq<Record>)
    requires (forall r | r in records :: |r.keys| == dimension) && |indices| == |values|
    requires forall d | d in indices :: d < dimension
    ensures ok <==> AllDifferent(values)
    ensures ok ==> selected == Filtered(LastFilters(indices, values), uels, records)
  {
    var handle := new GdxHandle();
    selected := [];
    var userMap;
    ok, userMap := RegisterAllValues(handle, values);
    if ok {
      var actions, _ := RegisterDimensionFilters(handle, userMap, indices, values, dimension);
      ghost var filter := LastFilters(indices, values);
      forall texts: seq<string> | |texts| == dimension
        ensures Passes(handle.userIndex, handle.filters, actions, texts) <==> Accepts(filter, texts)
      {
        CompiledAcceptsExactly(indices, values, dimension, userMap, handle.userIndex, texts);
      }
      FilteredReadSelects(handle.userIndex, handle.filters, actions, uels, records, filter);
      selected := FilteredRead(handle.userIndex, handle.filters, actions, uels, records);
    }
  }

  // ---------------------------------------------------------------- the two cache levels

  /** `cachedDomainValues` is the second level; empty means nothing stored. */
  datatype SymbolMetadata = SymbolMetadata(name: string, dimension: nat, cachedDomainValues: seq<seq<string>>)

  datatype CacheState = CacheState(symbols: seq<SymbolMetadata>, cache: map<string, seq<seq<string>>>)

  /** The file behind the cache: the records of each symbol and the UEL table. */
  datatype File = File(records: seq<seq<Record>>, uels: UelTable)

  /** A bound request; `filters` are resolved dimension indices and their texts. */
  datatype Request = Request(symbol: string, dimensionIndex: nat, filterIndices: seq<nat>, filterValues: seq<string>)

  predicate IsFiltered(q: Request) {
    q.filterIndices != []
  }

  function SymbolIndex(symbols: seq<SymbolMetadata>, symbol: string, from: nat): (r: Option<nat>)
    requires from <= |symbols|
    ensures r.Some? ==> from <= r.value < |symbols| && CIEquals(symbols[r.value].name, symbol)
    ensures r.Some? ==> forall i :: from <= i < r.value ==> !CIEquals(symbols[i].name, symbol)
    ensures r.None? ==> forall i :: from <= i < |symbols| ==> !CIEquals(symbols[i].name, symbol)
    decreases |symbols| - from
  {
    if from == |symbols| then None
    else if CIEquals(symbols[from].name, symbol) then Some(from)
    else SymbolIndex(symbols, symbol, from + 1)
  }

  ghost predicate ValidFile(file: File, symbols: seq<SymbolMetadata>) {
    && |file.records| == |symbols|
    && forall i :: 0 <= i < |symbols| ==> AllWellFormed(file.records[i], symbols[i].dimension, file.uels)
  }

  /** What binding guarantees: a known symbol, and dimensions it has. */
  predicate ValidRequest(symbols: seq<SymbolMetadata>, q: Request) {
    && SymbolIndex(symbols, q.symbol, 0).Some?
    && var dimension := symbols[SymbolIndex(symbols, q.symbol, 0).value].dimension;
       && q.dimensionIndex < dimension && |q.filterIndices| == |q.filterValues|
       && forall d | d in q.filterIndices :: d < dimension
  }

  /** The distinct values of the symbol the request names. */
  ghost function Truth(file: File, symbols: seq<SymbolMetadata>, symbol: string): seq<seq<string>>
    requires ValidFile(file, symbols) && SymbolIndex(symbols, symbol, 0).Some?
  {
    var i := SymbolIndex(symbols, symbol, 0).value;
    AllDistinctValues(file.records[i], file.uels, symbols[i].dimension)
  }

  /** The distinct values among the records its filters let through. */
  ghost function FilteredTruth(file: File, symbols: seq<SymbolMetadata>, q: Request): seq<seq<string>>
    requires ValidFile(file, symbols) && ValidRequest(symbols, q)
  {
    var i := SymbolIndex(symbols, q.symbol, 0).value;
    var filter := LastFilters(q.filterIndices, q.filterValues);
    AllDistinctValues(Filtered(filter, file.uels, file.records[i]), file.uels, symbols[i].dimension)
  }

  /** Where a cursor reads: a slot of one of the two levels. */
  datatype Source = Nothing | Cached(key: string, d: nat) | Stored(i: nat, d: nat)

  function Store(symbols: seq<SymbolMetadata>, i: nat, values: seq<seq<string>>): seq<SymbolMetadata>
    requires i < |symbols|
  {
    symbols[i := symbols[i].(cachedDomainValues := values)]
  }

  /** The first level after an unfiltered request: kept, else hydrated from the second level,
      else scanned. */
  ghost function Hydrated(file: File, s: CacheState, symbol: string): seq<seq<string>>
    requires ValidFile(file, s.symbols) && SymbolIndex(s.symbols, symbol, 0).Some?
  {
    var stored := s.symbols[SymbolIndex(s.symbols, symbol, 0).value].cachedDomainValues;
    if Lower(symbol) in s.cache then s.cache[Lower(symbol)]
    else if stored != [] then stored
    else Truth(file, s.symbols, symbol)
  }

  /** The state after a request, and its source; None when registering the filters throws. */
  ghost function Serve(file: File, s: CacheState, q: Request): (CacheState, Option<Source>)
    requires ValidFile(file, s.symbols) && ValidRequest(s.symbols, q)
  {
    var i := SymbolIndex(s.symbols, q.symbol, 0).value;
    var key := Lower(q.symbol);
    if IsFiltered(q) then
      if !AllDifferent(q.filterValues) then (s, None)
      else (s.(symbols := Store(s.symbols, i, FilteredTruth(file, s.symbols, q))), Some(Stored(i, q.dimensionIndex)))
    else
      var values := Hydrated(file, s, q.symbol);
      var scanned := key !in s.cache && s.symbols[i].cachedDomainValues == [];
      (CacheState(if scanned then Store(s.symbols, i, values) else s.symbols, s.cache[key := values]),
       Some(if q.dimensionIndex < |values| then Cached(key, q.dimensionIndex) else Nothing))
  }

  function Slot(values: seq<seq<string>>, d: nat): seq<string> {
    if d < |values| then values[d] else []
  }

  /** What a cursor on `source` sees at this moment. */
  function Contents(s: CacheState, source: Source): seq<string> {
    match source
    case Nothing => []
    case Cached(key, d) => if key in s.cache then Slot(s.cache[key], d) else []
    case Stored(i, d) => if i < |s.symbols| then Slot(s.symbols[i].cachedDomainValues, d) else []
  }

  class MetadataEntry {
    var symbols: seq<SymbolMetadata>
    var domainValuesCache: map<string, seq<seq<string>>>

    constructor (symbols: seq<SymbolMetadata>)
      ensures this.symbols == symbols && domainValuesCache == map[]
    {
      this.symbols := symbols;
      domainValuesCache := map[];
    }

    function View(): CacheState
      reads this
    {
      CacheState(symbols, domainValuesCache)
    }

    method FindSymbol(symbol: string) returns (r: Option<nat>)
      ensures r == SymbolIndex(symbols, symbol, 0)
    {
      r := None;
      var i := 0;
      while i < |symbols|
        invariant 0 <= i <= |symbols| && SymbolIndex(symbols, symbol, 0) == SymbolIndex(symbols, symbol, i)
      {
        if CIEquals(symbols[i].name, symbol) {
          return Some(i);
        }
        i := i + 1;
      }
    }

    /** The filtered scan stores its result in the second level; it throws exactly when two
        filter texts agree up to case. */
    method ScanFiltered(file: File, i: nat, q: Request) returns (ok: bool)
      requires ValidFile(file, symbols) && ValidRequest(symbols, q) && SymbolIndex(symbols, q.symbol, 0) == Some(i)
      modifies this`symbols
      ensures ok <==> AllDifferent(q.filterValues)
      ensures symbols == if ok then Store(old(symbols), i, FilteredTruth(file, old(symbols), q)) else old(symbols)
    {
      var dimension := symbols[i].dimension;
      ghost var filter := LastFilters(q.filterIndices, q.filterValues);
      var selected;
      ok, selected := ReadFiltered(file.records[i], file.uels, dimension, q.filterIndices, q.filterValues);
      if ok {
        FilteredSubset(filter, file.uels, file.records[i]);
        var all := ScanAll(selected, file.uels, dimension);
        symbols := Store(symbols, i, all);
      }
    }

    method InitGlobal(file: File, q: Request) returns (source: Option<Source>)
      requires ValidFile(file, symbols) && ValidRequest(symbols, q)
      modifies this
      ensures (View(), source) == Serve(file, old(View()), q)
    {
      var i := FindSymbol(q.symbol);
      if IsFiltered(q) {
        var ok := ScanFiltered(file, i.value, q);
        return if ok then Some(Stored(i.value, q.dimensionIndex)) else None;
      }
      var key := Lower(q.symbol);
      if key !in domainValuesCache {
        if symbols[i.value].cachedDomainValues != [] {
          domainValuesCache := domainValuesCache[key := symbols[i.value].cachedDomainValues];
        }
      }
      if key !in domainValuesCache {
        var all := ScanAll(file.records[i.value], file.uels, symbols[i.value].dimension);
        domainValuesCache := domainValuesCache[key := all];
        symbols := Store(symbols, i.value, all);
      }
      assert domainValuesCache == old(domainValuesCache)[key := domainValuesCache[key]];
      var cached := domainValuesCache[key];
      source := Some(if q.dimensionIndex < |cached| then Cached(key, q.dimensionIndex) else Nothing);
    }
  }

  // ---------------------------------------------------------------- runs of requests

  ghost predicate ValidRun(symbols: seq<SymbolMetadata>, run: seq<Request>) {
    forall q | q in run :: ValidRequest(symbols, q)
  }

  /** Names and dimensions never change, so requests stay valid. */
  ghost predicate SameShape(a: seq<SymbolMetadata>, b: seq<SymbolMetadata>) {
    |a| == |b| && forall i :: 0 <= i < |a| ==> a[i].name == b[i].name && a[i].dimension == b[i].dimension
  }

  lemma {:induction false} SameShapeIndex(a: seq<SymbolMetadata>, b: seq<SymbolMetadata>, symbol: string, from: nat)
    requires SameShape(a, b) && from <= |a|
    ensures SymbolIndex(a, symbol, from) == SymbolIndex(b, symbol, from)
    decreases |a| - from
  {
    if from < |a| { SameShapeIndex(a, b, symbol, from + 1); }
  }

  lemma ShapeKeepsMeaning(file: File, a: seq<SymbolMetadata>, b: seq<SymbolMetadata>, q: Request)
    requires SameShape(a, b) && ValidFile(file, a) && ValidRequest(a, q)
    ensures ValidFile(file, b) && ValidRequest(b, q) && SymbolIndex(a, q.symbol, 0) == SymbolIndex(b, q.symbol, 0)
    ensures Truth(file, a, q.symbol) == Truth(file, b, q.symbol)
    ensures FilteredTruth(file, a, q) == FilteredTruth(file, b, q)
  {
    SameShapeIndex(a, b, q.symbol, 0);
  }

  lemma {:induction false} SameKeySameSymbol(symbols: seq<SymbolMetadata>, a: string, b: string, from: nat)
    requires Lower(a) == Lower(b) && from <= |symbols|
    ensures SymbolIndex(symbols, a, from) == SymbolIndex(symbols, b, from)
    decreases |symbols| - from
  {
    if from < |symbols| { SameKeySameSymbol(symbols, a, b, from + 1); }
  }

  lemma SameSymbolSameKey(symbols: seq<SymbolMetadata>, a: string, b: string)
    requires SymbolIndex(symbols, a, 0).Some? && SymbolIndex(symbols, a, 0) == SymbolIndex(symbols, b, 0)
    ensures Lower(a) == Lower(b)
  {
  }

  lemma SameSymbolExactly(symbols: seq<SymbolMetadata>, a: string, b: string)
    requires SymbolIndex(symbols, a, 0).Some? && SymbolIndex(symbols, b, 0).Some?
    ensures SymbolIndex(symbols, a, 0) == SymbolIndex(symbols, b, 0) <==> Lower(a) == Lower(b)
  {
    if Lower(a) == Lower(b) { SameKeySameSymbol(symbols, a, b, 0); }
    if SymbolIndex(symbols, a, 0) == SymbolIndex(symbols, b, 0) { SameSymbolSameKey(symbols, a, b); }
  }

  /** What a request changes: the filtered result replaces the symbol's second level; an
      unfiltered request fills the levels that are empty; nothing else changes. */
  lemma ServeChanges(file: File, s: CacheState, q: Request, j: nat, key: string)
    requires ValidFile(file, s.symbols) && ValidRequest(s.symbols, q) && j < |s.symbols|
    ensures var r, i := Serve(file, s, q).0, SymbolIndex(s.symbols, q.symbol, 0).value;
      var hit := Lower(q.symbol) in s.cache;
      && |r.symbols| == |s.symbols|
      && r.symbols[j].name == s.symbols[j].name && r.symbols[j].dimension == s.symbols[j].dimension
      && r.symbols[j].cachedDomainValues ==
           (if j == i && IsFiltered(q) && AllDifferent(q.filterValues) then FilteredTruth(file, s.symbols, q)
            else if j == i && !IsFiltered(q) && !hit && s.symbols[i].cachedDomainValues == [] then
              Truth(file, s.symbols, q.symbol)
            else s.symbols[j].cachedDomainValues)
      && (key in r.cache <==> key in s.cache || (!IsFiltered(q) && key == Lower(q.symbol)))
      && (key in s.cache ==> r.cache[key] == s.cache[key])
      && (key in r.cache && key !in s.cache ==>
            r.cache[key] == (if s.symbols[i].cachedDomainValues != [] then s.symbols[i].cachedDomainValues
                             else Truth(file, s.symbols, q.symbol)))
  {
  }

  /** What a request answers: two filter texts equal up to case are an error; otherwise the
      requested dimension of the filtered result, or of the symbol's first-level entry. */
  lemma ServeAnswers(file: File, s: CacheState, q: Request)
    requires ValidFile(file, s.symbols) && ValidRequest(s.symbols, q)
    ensures var (r, source) := Serve(file, s, q);
      var i, key := SymbolIndex(s.symbols, q.symbol, 0).value, Lower(q.symbol);
      && (source.None? <==> IsFiltered(q) && !AllDifferent(q.filterValues))
      && (source.None? ==> r == s)
      && (source.Some? && IsFiltered(q) ==> source.value == Stored(i, q.dimensionIndex))
      && (source.Some? && !IsFiltered(q) ==>
            if q.dimensionIndex < |r.cache[key]| then source.value == Cached(key, q.dimensionIndex)
            else source.value == Nothing)
  {
  }

  /** The state after a run of requests. */
  ghost function After(file: File, s: CacheState, run: seq<Request>): (r: CacheState)
    requires ValidFile(file, s.symbols) && ValidRun(s.symbols, run)
    ensures SameShape(s.symbols, r.symbols)
  {
    if run == [] then s
    else
      var before, q := After(file, s, run[..|run| - 1]), run[|run| - 1];
      ShapeKeepsMeaning(file, s.symbols, before.symbols, q);
      Serve(file, before, q).0
  }

  lemma ServeKeepsFirstLevel(file: File, s: CacheState, q: Request, key: string)
    requires ValidFile(file, s.symbols) && ValidRequest(s.symbols, q)
    ensures var r := Serve(file, s, q).0;
      SameShape(s.symbols, r.symbols) && (key in s.cache ==> key in r.cache && r.cache[key] == s.cache[key])
  {
  }

  /** Once a symbol is in the first level, no run of requests changes it. */
  lemma {:induction false} FirstLevelNeverChanges(file: File, s: CacheState, run: seq<Request>, key: string)
    requires ValidFile(file, s.symbols) && ValidRun(s.symbols, run) && key in s.cache
    ensures key in After(file, s, run).cache && After(file, s, run).cache[key] == s.cache[key]
  {
    if run != [] {
      FirstLevelNeverChanges(file, s, run[..|run| - 1], key);
      ShapeKeepsMeaning(file, s.symbols, After(file, s, run[..|run| - 1]).symbols, run[|run| - 1]);
    }
  }

  ghost predicate Fresh(s: CacheState) {
    s.cache == map[] && forall i :: 0 <= i < |s.symbols| ==> s.symbols[i].cachedDomainValues == []
  }

  predicate NoUnfiltered(run: seq<Request>, symbol: string) {
    forall q | q in run :: IsFiltered(q) || Lower(q.symbol) != Lower(symbol)
  }

  /** A filtered request of the symbol that does not throw. */
  predicate Overwrites(q: Request, symbol: string) {
    IsFiltered(q) && Lower(q.symbol) == Lower(symbol) && AllDifferent(q.filterValues)
  }

  function LastOverwrite(run: seq<Request>, symbol: string): (r: Option<Request>)
    ensures r.Some? ==> r.value in run && Overwrites(r.value, symbol)
    ensures r.None? <==> forall q | q in run :: !Overwrites(q, symbol)
  {
    if run == [] then None
    else
      assert forall q | q in run :: q in run[..|run| - 1] || q == run[|run| - 1];
      if Overwrites(run[|run| - 1], symbol) then Some(run[|run| - 1]) else LastOverwrite(run[..|run| - 1], symbol)
  }

  /** What the last successful filtered request of the symbol found; empty when there is none. */
  ghost function LastStored(file: File, symbols: seq<SymbolMetadata>, run: seq<Request>,
                            symbol: string): seq<seq<string>>
    requires ValidFile(file, symbols) && ValidRun(symbols, run)
  {
    match LastOverwrite(run, symbol)
    case None => []
    case Some(q) => FilteredTruth(file, symbols, q)
  }

  /** Before its first unfiltered request a symbol has only what filtered ones left behind. */
  lemma {:induction false} SecondLevelAfter(file: File, s: CacheState, run: seq<Request>, symbol: string)
    requires ValidFile(file, s.symbols) && ValidRun(s.symbols, run) && Fresh(s)
    requires NoUnfiltered(run, symbol) && SymbolIndex(s.symbols, symbol, 0).Some?
    ensures var r, i := After(file, s, run), SymbolIndex(s.symbols, symbol, 0).value;
      Lower(symbol) !in r.cache && r.symbols[i].cachedDomainValues == LastStored(file, s.symbols, run, symbol)
  {
    if run != [] {
      var init, q := run[..|run| - 1], run[|run| - 1];
      var s1 := After(file, s, init);
      SecondLevelAfter(file, s, init, symbol);
      ShapeKeepsMeaning(file, s.symbols, s1.symbols, q);
      SameShapeIndex(s.symbols, s1.symbols, symbol, 0);
      SecondLevelServed(file, s1, q, symbol);
    }
  }

  /** One request, other than an unfiltered one of the symbol, and the symbol's second level. */
  lemma SecondLevelServed(file: File, s: CacheState, q: Request, symbol: string)
    requires ValidFile(file, s.symbols) && ValidRequest(s.symbols, q) && SymbolIndex(s.symbols, symbol, 0).Some?
    requires Lower(symbol) !in s.cache && (IsFiltered(q) || Lower(q.symbol) != Lower(symbol))
    ensures var r, i := Serve(file, s, q).0, SymbolIndex(s.symbols, symbol, 0).value;
      && Lower(symbol) !in r.cache && i < |r.symbols|
      && r.symbols[i].cachedDomainValues ==
           if Overwrites(q, symbol) then FilteredTruth(file, s.symbols, q) else s.symbols[i].cachedDomainValues
  {
    SameSymbolExactly(s.symbols, q.symbol, symbol);
    var i := SymbolIndex(s.symbols, q.symbol, 0).value;
    var r := Serve(file, s, q).0;
    assert forall j :: 0 <= j < |s.symbols| && j != i ==> r.symbols[j] == s.symbols[j];
  }

  /** What the first unfiltered request of a symbol puts into the first level. */
  ghost function FirstAnswer(file: File, symbols: seq<SymbolMetadata>, before: seq<Request>,
                             symbol: string): seq<seq<string>>
    requires ValidFile(file, symbols) && ValidRun(symbols, before) && SymbolIndex(symbols, symbol, 0).Some?
  {
    var stored := LastStored(file, symbols, before, symbol);
    if stored == [] then Truth(file, symbols, symbol) else stored
  }

  lemma FirstUnfiltered(file: File, s: CacheState, before: seq<Request>, q: Request)
    requires ValidFile(file, s.symbols) && ValidRun(s.symbols, before + [q]) && ValidRun(s.symbols, before)
    requires ValidRequest(s.symbols, q) && Fresh(s) && NoUnfiltered(before, q.symbol) && !IsFiltered(q)
    ensures var r := After(file, s, before + [q]);
      Lower(q.symbol) in r.cache && r.cache[Lower(q.symbol)] == FirstAnswer(file, s.symbols, before, q.symbol)
  {
    var s1 := After(file, s, before);
    SecondLevelAfter(file, s, before, q.symbol);
    ShapeKeepsMeaning(file, s.symbols, s1.symbols, q);
    assert (before + [q])[..|before|] == before;
    assert After(file, s, before + [q]) == Serve(file, s1, q).0;
  }

  /** The answer to unfiltered requests over all runs: whatever the first one finds, every
      later cursor of that symbol reads, in any letter case. */
  lemma UnfilteredAnswers(file: File, s: CacheState, before: seq<Request>, q: Request, after: seq<Request>,
                          later: Request)
    requires ValidFile(file, s.symbols) && ValidRun(s.symbols, before + [q] + after) && Fresh(s)
    requires ValidRun(s.symbols, before + [q]) && ValidRun(s.symbols, before) && ValidRequest(s.symbols, q)
    requires NoUnfiltered(before, q.symbol) && !IsFiltered(q)
    requires ValidRequest(s.symbols, later) && !IsFiltered(later) && Lower(later.symbol) == Lower(q.symbol)
    ensures var r := After(file, s, before + [q] + after);
      && ValidFile(file, r.symbols) && ValidRequest(r.symbols, later)
      && var (r', source) := Serve(file, r, later);
         && source.Some?
         && Contents(r', source.value)
              == Slot(FirstAnswer(file, s.symbols, before, q.symbol), later.dimensionIndex)
  {
    var s2 := After(file, s, before + [q]);
    FirstUnfiltered(file, s, before, q);
    AfterConcat(file, s, before + [q], after);
    FirstLevelNeverChanges(file, s2, after, Lower(q.symbol));
    var r := After(file, s, before + [q] + after);
    ShapeKeepsMeaning(file, s.symbols, r.symbols, later);
  }

  /** The filters of the request accept every record of its symbol. */
  ghost predicate AcceptsEveryRecord(file: File, symbols: seq<SymbolMetadata>, q: Request)
    requires ValidFile(file, symbols) && ValidRequest(symbols, q)
  {
    forall r | r in file.records[SymbolIndex(symbols, q.symbol, 0).value] ::
      Accepts(LastFilters(q.filterIndices, q.filterValues), Texts(file.uels, r))
  }

  /** The answer is the true list if and only if no filtered request of the symbol succeeded
      before the first unfiltered one, or the last of those was for filters that accept every
      record. */
  lemma AnswerIsTrueExactly(file: File, symbols: seq<SymbolMetadata>, before: seq<Request>, symbol: string)
    requires ValidFile(file, symbols) && ValidRun(symbols, before) && SymbolIndex(symbols, symbol, 0).Some?
    ensures FirstAnswer(file, symbols, before, symbol) == Truth(file, symbols, symbol) <==>
      (LastOverwrite(before, symbol).None?
       || AcceptsEveryRecord(file, symbols, LastOverwrite(before, symbol).value))
  {
    if LastOverwrite(before, symbol).Some? {
      var q := LastOverwrite(before, symbol).value;
      SameKeySameSymbol(symbols, q.symbol, symbol, 0);
      LastFiltersKeys(q.filterIndices, q.filterValues);
      var i := SymbolIndex(symbols, symbol, 0).value;
      FilteredValuesCompleteExactly(file.records[i], file.uels, symbols[i].dimension,
                                    LastFilters(q.filterIndices, q.filterValues));
    }
  }

  lemma ShapeKeepsRun(a: seq<SymbolMetadata>, b: seq<SymbolMetadata>, run: seq<Request>)
    requires SameShape(a, b) && ValidRun(a, run)
    ensures ValidRun(b, run)
  {
    forall q | q in run ensures ValidRequest(b, q) { SameShapeIndex(a, b, q.symbol, 0); }
  }

  lemma {:induction false} AfterConcat(file: File, s: CacheState, a: seq<Request>, b: seq<Request>)
    requires ValidFile(file, s.symbols) && ValidRun(s.symbols, a + b) && ValidRun(s.symbols, a)
    ensures var m := After(file, s, a);
      ValidFile(file, m.symbols) && ValidRun(m.symbols, b) && After(file, s, a + b) == After(file, m, b)
  {
    var m := After(file, s, a);
    assert forall x | x in b :: x in a + b;
    ShapeKeepsRun(s.symbols, m.symbols, b);
    if b == [] {
      assert a + b == a;
    } else {
      var init := b[..|b| - 1];
      assert a + b == (a + init) + [b[|b| - 1]] && (a + b)[..|a + b| - 1] == a + init;
      AfterConcat(file, s, a, init);
    }
  }

  /** A filtered request made first poisons the unfiltered answer: two records show a and b,
      the filter asks for a, and afterwards the unfiltered list has no b. */
  lemma PoisonedAnswerWitness(a: string, b: string)
    requires !CIEquals(a, b)
    ensures var file, symbols := File([[Key(1), Key(2)]], ["", a, b]), [SymbolMetadata("d", 1, [])];
      var run := [Request("d", 0, [0], [a])];
      && ValidFile(file, symbols) && ValidRun(symbols, run)
      && b in Truth(file, symbols, "d")[0]
      && FirstAnswer(file, symbols, run, "d") == [DistinctValues([Key(1)], ["", a, b], 0)]
      && b !in FirstAnswer(file, symbols, run, "d")[0]
  {
    var file, symbols := File([[Key(1), Key(2)]], ["", a, b]), [SymbolMetadata("d", 1, [])];
    var q := Request("d", 0, [0], [a]);
    TwoRecords(a, b);
    OneFilter(0, a);
    assert [q][..0] == [] && LastOverwrite([q], "d") == Some(q);
    assert FilteredTruth(file, symbols, q) == AllDistinctValues([Key(1)], file.uels, 1);
  }

  lemma OneFilter(d: nat, text: string)
    ensures LastFilters([d], [text]) == map[d := text]
  {
    assert [d][..0] == [] && [text][..0] == [] && LastFilters([], []) == map[];
  }

  lemma TwoRecords(a: string, b: string)
    requires !CIEquals(a, b)
    ensures var records, uels := [Key(1), Key(2)], ["", a, b];
      && AllWellFormed(records, 1, uels) && Filtered(map[0 := a], uels, records) == [Key(1)]
      && b in DistinctValues(records, uels, 0) && b !in DistinctValues([Key(1)], uels, 0)
  {
    var records, uels, filter: DimensionMap := [Key(1), Key(2)], ["", a, b], map[0 := a];
    assert Texts(uels, Key(2))[0] == b && Texts(uels, Key(1))[0] == a && Key(2) in records;
    assert Accepts(filter, Texts(uels, Key(1)));
    assert 0 in filter && !Accepts(filter, Texts(uels, Key(2)));
    assert records[1..] == [Key(2)] && [Key(2)][1..] == [];
    assert Filtered(filter, uels, []) == [] && Filtered(filter, uels, [Key(2)]) == [];
    assert AllWellFormed([Key(1)], 1, uels);
    DistinctValuesAreColumnTexts(records, uels, 1, 0);
    DistinctValuesAreColumnTexts([Key(1)], uels, 1, 0);
  }

  function Key(i: int): Record {
    Record([i], Null, Null, Null, Null, Null, Null)
  }

  // ---------------------------------------------------------------- cursors

  class DomainValuesCursor {
    const source: Source
    var currentIndex: nat

    constructor (source: Source)
      ensures this.source == source && currentIndex == 0
    {
      this.source := source;
      currentIndex := 0;
    }

    /** One chunk: what the source holds now, from the cursor's position. */
    method DomainValuesFunction(entry: MetadataEntry, vectorSize: nat) returns (chunk: seq<string>)
      requires vectorSize > 0
      modifies this`currentIndex
      ensures (chunk, currentIndex) == Pulled(entry.View(), source, old(currentIndex), vectorSize)
    {
      var values := Contents(entry.View(), source);
      if currentIndex >= |values| {
        return [];
      }
      var count := if vectorSize <= |values| - currentIndex then vectorSize else |values| - currentIndex;
      chunk := values[currentIndex..currentIndex + count];
      currentIndex := currentIndex + count;
    }
  }

  function Pulled(s: CacheState, source: Source, current: nat, vectorSize: nat): (seq<string>, nat) {
    var values := Contents(s, source);
    if current >= |values| then ([], current)
    else
      var next := if vectorSize <= |values| - current then current + vectorSize else |values|;
      (values[current..next], next)
  }

  /** Requests of anyone, and pulls of one cursor. */
  datatype Event = Ask(q: Request) | Pull(vectorSize: nat)

  ghost predicate ValidEvents(symbols: seq<SymbolMetadata>, events: seq<Event>) {
    forall e | e in events :: e.Ask? ==> ValidRequest(symbols, e.q)
  }

  ghost function Emitted(file: File, s: CacheState, source: Source, current: nat, events: seq<Event>): seq<string>
    requires ValidFile(file, s.symbols) && ValidEvents(s.symbols, events)
    decreases events
  {
    if events == [] then []
    else
      assert events[0] in events && forall e | e in events[1..] :: e in events;
      match events[0]
      case Ask(q) =>
        var next := Serve(file, s, q).0;
        ShapeKeepsEvents(file, s.symbols, next.symbols, events[1..]);
        Emitted(file, next, source, current, events[1..])
      case Pull(vectorSize) =>
        var (chunk, next) := Pulled(s, source, current, vectorSize);
        chunk + Emitted(file, s, source, next, events[1..])
  }

  lemma ShapeKeepsEvents(file: File, a: seq<SymbolMetadata>, b: seq<SymbolMetadata>, events: seq<Event>)
    requires SameShape(a, b) && ValidFile(file, a) && ValidEvents(a, events)
    ensures ValidFile(file, b) && ValidEvents(b, events)
  {
    forall e | e in events && e.Ask? ensures ValidRequest(b, e.q) { SameShapeIndex(a, b, e.q.symbol, 0); }
  }

  function PullTotal(events: seq<Event>): nat {
    if events == [] then 0 else (if events[0].Pull? then events[0].vectorSize else 0) + PullTotal(events[1..])
  }

  lemma EmittedUnfold(file: File, s: CacheState, source: Source, current: nat, events: seq<Event>)
    requires ValidFile(file, s.symbols) && ValidEvents(s.symbols, events) && events != []
    ensures events[0] in events && ValidEvents(s.symbols, events[1..])
    ensures events[0].Ask? ==>
      var next := Serve(file, s, events[0].q).0;
      && ValidFile(file, next.symbols) && ValidEvents(next.symbols, events[1..])
      && Emitted(file, s, source, current, events) == Emitted(file, next, source, current, events[1..])
    ensures events[0].Pull? ==>
      var (chunk, next) := Pulled(s, source, current, events[0].vectorSize);
      Emitted(file, s, source, current, events) == chunk + Emitted(file, s, source, next, events[1..])
  {
    assert events[0] in events && forall e | e in events[1..] :: e in events;
    if events[0].Ask? {
      ServeKeepsFirstLevel(file, s, events[0].q, "");
      ShapeKeepsEvents(file, s.symbols, Serve(file, s, events[0].q).0.symbols, events[1..]);
    }
  }

  /** The part of a list between two positions, cut off at its end. */
  function Stretch<T>(s: seq<T>, from: nat, to: nat): seq<T>
    requires from <= |s| && from <= to
  {
    s[from..if to <= |s| then to else |s|]
  }

  lemma PulledStretch(s: CacheState, source: Source, values: seq<string>, current: nat, vectorSize: nat, more: nat)
    requires Contents(s, source) == values && current <= |values|
    ensures var (chunk, next) := Pulled(s, source, current, vectorSize);
      && next <= |values|
      && chunk + Stretch(values, next, next + more) == Stretch(values, current, current + vectorSize + more)
  {
  }

  /** A pull, and then what the rest of the events emits. */
  lemma PullThenRest(file: File, s: CacheState, source: Source, values: seq<string>, current: nat, next: nat,
                     events: seq<Event>)
    requires ValidFile(file, s.symbols) && ValidEvents(s.symbols, events) && events != [] && events[0].Pull?
    requires ValidEvents(s.symbols, events[1..]) && Contents(s, source) == values && current <= |values|
    requires next == Pulled(s, source, current, events[0].vectorSize).1 && next <= |values|
    requires Emitted(file, s, source, next, events[1..]) == Stretch(values, next, next + PullTotal(events[1..]))
    ensures Emitted(file, s, source, current, events) == Stretch(values, current, current + PullTotal(events))
  {
    var n, more := events[0].vectorSize, PullTotal(events[1..]);
    EmittedUnfold(file, s, source, current, events);
    PulledStretch(s, source, values, current, n, more);
    assert PullTotal(events) == n + more;
  }

  lemma AskThenRest(file: File, s: CacheState, source: Source, current: nat, events: seq<Event>)
    requires ValidFile(file, s.symbols) && ValidEvents(s.symbols, events) && events != [] && events[0].Ask?
    ensures ValidRequest(s.symbols, events[0].q) && PullTotal(events) == PullTotal(events[1..])
    ensures var next := Serve(file, s, events[0].q).0;
      && ValidFile(file, next.symbols) && ValidEvents(next.symbols, events[1..])
      && Emitted(file, s, source, current, events) == Emitted(file, next, source, current, events[1..])
  {
    EmittedUnfold(file, s, source, current, events);
  }

  /** An unfiltered cursor emits exactly its list, cut off where the pulls end, however other
      requests interleave with its chunks. */
  lemma {:induction false} UnfilteredCursorUndisturbed(file: File, s: CacheState, key: string, d: nat,
                                                       current: nat, events: seq<Event>)
    requires ValidFile(file, s.symbols) && ValidEvents(s.symbols, events)
    requires key in s.cache && d < |s.cache[key]| && current <= |s.cache[key][d]|
    ensures Emitted(file, s, Cached(key, d), current, events)
         == Stretch(s.cache[key][d], current, current + PullTotal(events))
    decreases events
  {
    if events != [] {
      assert events[0] in events && forall e | e in events[1..] :: e in events;
      match events[0] {
        case Ask(q) =>
          AskThenRest(file, s, Cached(key, d), current, events);
          ServeKeepsFirstLevel(file, s, q, key);
          UnfilteredCursorUndisturbed(file, Serve(file, s, q).0, key, d, current, events[1..]);
        case Pull(vectorSize) =>
          var next := Pulled(s, Cached(key, d), current, vectorSize).1;
          UnfilteredCursorUndisturbed(file, s, key, d, next, events[1..]);
          PullThenRest(file, s, Cached(key, d), s.cache[key][d], current, next, events);
      }
    }
  }

  /** The records a request's filters let through. */
  ghost function RequestRecords(file: File, symbols: seq<SymbolMetadata>, q: Request): seq<Record>
    requires ValidFile(file, symbols) && ValidRequest(symbols, q)
  {
    var i := SymbolIndex(symbols, q.symbol, 0).value;
    Filtered(LastFilters(q.filterIndices, q.filterValues), file.uels, file.records[i])
  }

  /** The other request replaces the list behind the cursor of `q` by one with other texts. */
  ghost predicate Disturbs(file: File, symbols: seq<SymbolMetadata>, q: Request, other: Request)
    requires ValidFile(file, symbols) && ValidRequest(symbols, q) && ValidRequest(symbols, other)
  {
    && Overwrites(other, q.symbol)
    && exists t :: Shows(RequestRecords(file, symbols, q), file.uels, q.dimensionIndex, t)
                != Shows(RequestRecords(file, symbols, other), file.uels, q.dimensionIndex, t)
  }

  /** The list behind a cursor of `q` right after the request. */
  ghost function OwnList(file: File, symbols: seq<SymbolMetadata>, q: Request): seq<string>
    requires ValidFile(file, symbols) && ValidRequest(symbols, q)
  {
    DistinctValues(RequestRecords(file, symbols, q), file.uels, q.dimensionIndex)
  }

  lemma DisturbsExactly(file: File, symbols: seq<SymbolMetadata>, q: Request, other: Request)
    requires ValidFile(file, symbols) && ValidRequest(symbols, q) && ValidRequest(symbols, other)
    requires InjectiveTable(file.uels) && Overwrites(other, q.symbol)
    ensures q.dimensionIndex < |FilteredTruth(file, symbols, other)|
    ensures Disturbs(file, symbols, q, other) <==>
      FilteredTruth(file, symbols, other)[q.dimensionIndex] != OwnList(file, symbols, q)
  {
    SameKeySameSymbol(symbols, q.symbol, other.symbol, 0);
    var i := SymbolIndex(symbols, q.symbol, 0).value;
    var a, b := RequestRecords(file, symbols, q), RequestRecords(file, symbols, other);
    FilteredSubset(LastFilters(q.filterIndices, q.filterValues), file.uels, file.records[i]);
    FilteredSubset(LastFilters(other.filterIndices, other.filterValues), file.uels, file.records[i]);
    SameValuesExactly(a, b, file.uels, symbols[i].dimension, q.dimensionIndex);
  }

  /** If the request stores anything for symbol `i`, it puts `list` into slot `d`. */
  ghost predicate Leaves(file: File, symbols: seq<SymbolMetadata>, q: Request, i: nat, d: nat, list: seq<string>)
    requires ValidFile(file, symbols) && ValidRequest(symbols, q)
  {
    IsFiltered(q) && AllDifferent(q.filterValues) && SymbolIndex(symbols, q.symbol, 0) == Some(i) ==>
      d < |FilteredTruth(file, symbols, q)| && FilteredTruth(file, symbols, q)[d] == list
  }

  /** Slot `d` of symbol `i` holds `list`, and so does whatever the requests among the events
      put there. */
  ghost predicate Quiet(file: File, s: CacheState, i: nat, d: nat, list: seq<string>, events: seq<Event>)
    requires ValidFile(file, s.symbols) && ValidEvents(s.symbols, events)
  {
    && i < |s.symbols| && d < |s.symbols[i].cachedDomainValues| && s.symbols[i].cachedDomainValues[d] == list
    && forall e | e in events && e.Ask? :: Leaves(file, s.symbols, e.q, i, d, list)
  }

  lemma ServeStaysQuiet(file: File, s: CacheState, i: nat, d: nat, list: seq<string>, events: seq<Event>)
    requires ValidFile(file, s.symbols) && ValidEvents(s.symbols, events) && events != [] && events[0].Ask?
    requires Quiet(file, s, i, d, list, events) && ValidRequest(s.symbols, events[0].q)
    ensures var next := Serve(file, s, events[0].q).0;
      && ValidFile(file, next.symbols) && ValidEvents(next.symbols, events[1..])
      && Quiet(file, next, i, d, list, events[1..])
  {
    var next := Serve(file, s, events[0].q).0;
    assert events[0] in events && forall e | e in events[1..] :: e in events;
    ServeKeepsFirstLevel(file, s, events[0].q, "");
    ShapeKeepsEvents(file, s.symbols, next.symbols, events[1..]);
    ServeLeaves(file, s, events[0].q, i, d, list);
    forall e | e in events[1..] && e.Ask? ensures Leaves(file, next.symbols, e.q, i, d, list) {
      assert Leaves(file, s.symbols, e.q, i, d, list);
      ShapeKeepsMeaning(file, s.symbols, next.symbols, e.q);
    }
  }

  lemma ServeLeaves(file: File, s: CacheState, q: Request, i: nat, d: nat, list: seq<string>)
    requires ValidFile(file, s.symbols) && ValidRequest(s.symbols, q) && Leaves(file, s.symbols, q, i, d, list)
    requires i < |s.symbols| && d < |s.symbols[i].cachedDomainValues| && s.symbols[i].cachedDomainValues[d] == list
    ensures var symbols := Serve(file, s, q).0.symbols;
      i < |symbols| && d < |symbols[i].cachedDomainValues| && symbols[i].cachedDomainValues[d] == list
  {
  }

  lemma QuietPull(file: File, s: CacheState, i: nat, d: nat, list: seq<string>, current: nat, events: seq<Event>)
    returns (next: nat)
    requires ValidFile(file, s.symbols) && ValidEvents(s.symbols, events) && events != [] && events[0].Pull?
    requires Quiet(file, s, i, d, list, events) && current <= |list|
    ensures ValidEvents(s.symbols, events[1..]) && Quiet(file, s, i, d, list, events[1..])
    ensures Contents(s, Stored(i, d)) == list
    ensures next == Pulled(s, Stored(i, d), current, events[0].vectorSize).1 <= |list|
  {
    assert forall e | e in events[1..] :: e in events;
    next := Pulled(s, Stored(i, d), current, events[0].vectorSize).1;
  }

  /** While nothing else is put there, a filtered cursor emits its list, cut off where the
      pulls end. */
  lemma {:induction false} FilteredCursorUndisturbed(file: File, s: CacheState, i: nat, d: nat, list: seq<string>,
                                                     current: nat, events: seq<Event>)
    requires ValidFile(file, s.symbols) && ValidEvents(s.symbols, events) && Quiet(file, s, i, d, list, events)
    requires current <= |list|
    ensures Emitted(file, s, Stored(i, d), current, events) == Stretch(list, current, current + PullTotal(events))
    decreases events
  {
    if events != [] {
      match events[0] {
        case Ask(q) =>
          AskThenRest(file, s, Stored(i, d), current, events);
          ServeStaysQuiet(file, s, i, d, list, events);
          FilteredCursorUndisturbed(file, Serve(file, s, q).0, i, d, list, current, events[1..]);
        case Pull(vectorSize) =>
          var next := QuietPull(file, s, i, d, list, current, events);
          FilteredCursorUndisturbed(file, s, i, d, list, next, events[1..]);
          PullThenRest(file, s, Stored(i, d), list, current, next, events);
      }
    }
  }

  /** Events whose requests are among `others`. */
  ghost predicate AsksAmong(events: seq<Event>, others: set<Request>) {
    forall e | e in events && e.Ask? :: e.q in others
  }

  /** A request that disturbs the cursor is seen by the next pull. */
  lemma DisturbedPull(file: File, s: CacheState, q: Request, other: Request)
    requires ValidFile(file, s.symbols) && ValidRequest(s.symbols, q) && ValidRequest(s.symbols, other)
    requires IsFiltered(q) && AllDifferent(q.filterValues) && InjectiveTable(file.uels)
    requires Disturbs(file, s.symbols, q, other)
    ensures var s1, d := Serve(file, s, q).0, q.dimensionIndex;
      var theirs := Slot(FilteredTruth(file, s.symbols, other), d);
      var events := [Ask(other), Pull(|OwnList(file, s.symbols, q)| + |theirs|)];
      && ValidFile(file, s1.symbols) && ValidEvents(s1.symbols, events)
      && Emitted(file, s1, Stored(SymbolIndex(s.symbols, q.symbol, 0).value, d), 0, events) == theirs
      && theirs != OwnList(file, s.symbols, q)
  {
    var s1, i, d := Serve(file, s, q).0, SymbolIndex(s.symbols, q.symbol, 0).value, q.dimensionIndex;
    var theirs := Slot(FilteredTruth(file, s.symbols, other), d);
    var pull := Pull(|OwnList(file, s.symbols, q)| + |theirs|);
    var events := [Ask(other), pull];
    DisturbsExactly(file, s.symbols, q, other);
    SameKeySameSymbol(s.symbols, q.symbol, other.symbol, 0);
    ShapeKeepsMeaning(file, s.symbols, s1.symbols, other);
    assert Contents(Serve(file, s1, other).0, Stored(i, d)) == theirs;
    AskPull(file, s1, Stored(i, d), other, pull.vectorSize);
  }

  /** A request and then a pull that takes all there is. */
  lemma AskPull(file: File, s: CacheState, source: Source, other: Request, vectorSize: nat)
    requires ValidFile(file, s.symbols) && ValidRequest(s.symbols, other)
    requires |Contents(Serve(file, s, other).0, source)| <= vectorSize
    ensures var events := [Ask(other), Pull(vectorSize)];
      && ValidEvents(s.symbols, events)
      && Emitted(file, s, source, 0, events) == Contents(Serve(file, s, other).0, source)
  {
    var events, s2 := [Ask(other), Pull(vectorSize)], Serve(file, s, other).0;
    EmittedUnfold(file, s, source, 0, events);
    assert events[1..] == [Pull(vectorSize)] && [Pull(vectorSize)][1..] == [];
    EmittedUnfold(file, s2, source, 0, [Pull(vectorSize)]);
  }

  /** Requests from `others`, interleaved with the chunks of the cursor of `q`, do not show. */
  ghost predicate Unaffected(file: File, s: CacheState, q: Request, others: set<Request>, events: seq<Event>)
    requires ValidFile(file, s.symbols) && ValidRequest(s.symbols, q)
  {
    var s1 := Serve(file, s, q).0;
    ValidFile(file, s1.symbols) && ValidEvents(s1.symbols, events) && AsksAmong(events, others) ==>
      Emitted(file, s1, Stored(SymbolIndex(s.symbols, q.symbol, 0).value, q.dimensionIndex), 0, events)
        == Stretch(OwnList(file, s.symbols, q), 0, PullTotal(events))
  }

  /** A filtered cursor is not protected. Over a table without repeated texts it emits its own
      list, however requests from `others` interleave with its chunks, if and only if each of
      them that filters the same symbol successfully lets through the same texts in the
      cursor's dimension. */
  lemma FilteredCursorKeepsExactly(file: File, s: CacheState, q: Request, others: set<Request>)
    requires ValidFile(file, s.symbols) && ValidRequest(s.symbols, q)
    requires forall o | o in others :: ValidRequest(s.symbols, o)
    requires IsFiltered(q) && AllDifferent(q.filterValues) && InjectiveTable(file.uels)
    ensures Serve(file, s, q).1 == Some(Stored(SymbolIndex(s.symbols, q.symbol, 0).value, q.dimensionIndex))
    ensures (forall events :: Unaffected(file, s, q, others, events))
       <==> forall o | o in others :: !Disturbs(file, s.symbols, q, o)
  {
    if forall o | o in others :: !Disturbs(file, s.symbols, q, o) {
      forall events ensures Unaffected(file, s, q, others, events) {
        NobodyDisturbs(file, s, q, others, events);
      }
    }
    forall o | o in others && Disturbs(file, s.symbols, q, o)
      ensures exists events :: !Unaffected(file, s, q, others, events)
    {
      var events := SomebodyDisturbs(file, s, q, others, o);
    }
  }

  lemma NobodyDisturbs(file: File, s: CacheState, q: Request, others: set<Request>, events: seq<Event>)
    requires ValidFile(file, s.symbols) && ValidRequest(s.symbols, q)
    requires forall o | o in others :: ValidRequest(s.symbols, o)
    requires IsFiltered(q) && AllDifferent(q.filterValues) && InjectiveTable(file.uels)
    requires forall o | o in others :: !Disturbs(file, s.symbols, q, o)
    ensures Unaffected(file, s, q, others, events)
  {
    var s1, i, d := Serve(file, s, q).0, SymbolIndex(s.symbols, q.symbol, 0).value, q.dimensionIndex;
    if ValidFile(file, s1.symbols) && ValidEvents(s1.symbols, events) && AsksAmong(events, others) {
      QuietOthers(file, s, q, others, events);
      FilteredCursorUndisturbed(file, s1, i, d, OwnList(file, s.symbols, q), 0, events);
    }
  }

  lemma SomebodyDisturbs(file: File, s: CacheState, q: Request, others: set<Request>, o: Request)
    returns (events: seq<Event>)
    requires ValidFile(file, s.symbols) && ValidRequest(s.symbols, q) && ValidRequest(s.symbols, o) && o in others
    requires IsFiltered(q) && AllDifferent(q.filterValues) && InjectiveTable(file.uels)
    requires Disturbs(file, s.symbols, q, o)
    ensures !Unaffected(file, s, q, others, events)
  {
    var list, theirs := OwnList(file, s.symbols, q), Slot(FilteredTruth(file, s.symbols, o), q.dimensionIndex);
    var pull := Pull(|list| + |theirs|);
    events := [Ask(o), pull];
    DisturbedPull(file, s, q, o);
    AskPullTotal(o, pull.vectorSize);
    assert Stretch(list, 0, pull.vectorSize) == list;
  }

  lemma AskPullTotal(o: Request, n: nat)
    ensures PullTotal([Ask(o), Pull(n)]) == n
  {
    assert [Ask(o), Pull(n)][1..] == [Pull(n)] && [Pull(n)][1..] == [];
    assert PullTotal([Pull(n)]) == n + PullTotal([]);
  }

  lemma QuietOthers(file: File, s: CacheState, q: Request, others: set<Request>, events: seq<Event>)
    requires ValidFile(file, s.symbols) && ValidRequest(s.symbols, q)
    requires forall o | o in others :: ValidRequest(s.symbols, o)
    requires IsFiltered(q) && AllDifferent(q.filterValues) && InjectiveTable(file.uels)
    requires forall o | o in others :: !Disturbs(file, s.symbols, q, o)
    requires var s1 := Serve(file, s, q).0; ValidFile(file, s1.symbols) && ValidEvents(s1.symbols, events)
    requires AsksAmong(events, others)
    ensures Quiet(file, Serve(file, s, q).0, SymbolIndex(s.symbols, q.symbol, 0).value, q.dimensionIndex,
                  OwnList(file, s.symbols, q), events)
  {
    var s1, i, d := Serve(file, s, q).0, SymbolIndex(s.symbols, q.symbol, 0).value, q.dimensionIndex;
    forall e | e in events && e.Ask? ensures Leaves(file, s1.symbols, e.q, i, d, OwnList(file, s.symbols, q)) {
      OtherLeaves(file, s, q, e.q);
    }
  }

  lemma OtherLeaves(file: File, s: CacheState, q: Request, other: Request)
    requires ValidFile(file, s.symbols) && ValidRequest(s.symbols, q) && ValidRequest(s.symbols, other)
    requires InjectiveTable(file.uels) && !Disturbs(file, s.symbols, q, other)
    ensures var symbols := Serve(file, s, q).0.symbols;
      && ValidFile(file, symbols) && ValidRequest(symbols, other)
      && Leaves(file, symbols, other, SymbolIndex(s.symbols, q.symbol, 0).value, q.dimensionIndex,
                OwnList(file, s.symbols, q))
  {
    ShapeKeepsMeaning(file, s.symbols, Serve(file, s, q).0.symbols, other);
    SameSymbolExactly(s.symbols, q.symbol, other.symbol);
    if Overwrites(other, q.symbol) { DisturbsExactly(file, s.symbols, q, other); }
  }

  /** A filtered cursor that loses a value: dimension 1 shows a and b where dimension 0 is a,
      but only a where dimension 0 is b. After one chunk of one value, a request for b leaves
      nothing for the next chunk. */
  lemma LostValueWitness(a: string, b: string)
    requires !CIEquals(a, b)
    ensures var file := File([[Key2(1, 1), Key2(1, 2), Key2(2, 1)]], ["", a, b]);
      var s := CacheState([SymbolMetadata("d", 2, [])], map[]);
      var q, events := Request("d", 1, [0], [a]), [Pull(1), Ask(Request("d", 1, [0], [b])), Pull(1)];
      && ValidFile(file, s.symbols) && ValidRequest(s.symbols, q) && |OwnList(file, s.symbols, q)| >= 2
      && var s1 := Serve(file, s, q).0;
         && ValidFile(file, s1.symbols) && ValidEvents(s1.symbols, events)
         && |Emitted(file, s1, Stored(0, 1), 0, events)| == 1
  {
    var file := File([[Key2(1, 1), Key2(1, 2), Key2(2, 1)]], ["", a, b]);
    var s := CacheState([SymbolMetadata("d", 2, [])], map[]);
    var q, other := Request("d", 1, [0], [a]), Request("d", 1, [0], [b]);
    ThreeRecords(a, b);
    OneFilter(0, a);
    OneFilter(0, b);
    assert SymbolIndex(s.symbols, "d", 0) == Some(0);
    ShortenedList(file, s, q, other);
  }

  /** A request that leaves the cursor at most one value after it emitted one. */
  lemma ShortenedList(file: File, s: CacheState, q: Request, other: Request)
    requires ValidFile(file, s.symbols) && ValidRequest(s.symbols, q) && ValidRequest(s.symbols, other)
    requires IsFiltered(q) && AllDifferent(q.filterValues) && Overwrites(other, q.symbol) && other.symbol == q.symbol
    requires |OwnList(file, s.symbols, q)| > 0
    requires |DistinctValues(RequestRecords(file, s.symbols, other), file.uels, q.dimensionIndex)| <= 1
    ensures var s1, events := Serve(file, s, q).0, [Pull(1), Ask(other), Pull(1)];
      && ValidFile(file, s1.symbols) && ValidEvents(s1.symbols, events)
      && |Emitted(file, s1, Stored(SymbolIndex(s.symbols, q.symbol, 0).value, q.dimensionIndex), 0, events)| == 1
  {
    var s1 := Serve(file, s, q).0;
    ShapeKeepsMeaning(file, s.symbols, s1.symbols, other);
    PullAskPull(file, s1, Stored(SymbolIndex(s.symbols, q.symbol, 0).value, q.dimensionIndex), other);
  }

  lemma ThreeRecords(a: string, b: string)
    requires !CIEquals(a, b)
    ensures var records, uels := [Key2(1, 1), Key2(1, 2), Key2(2, 1)], ["", a, b];
      && AllWellFormed(records, 2, uels)
      && |DistinctValues(Filtered(map[0 := a], uels, records), uels, 1)| >= 2
      && |DistinctValues(Filtered(map[0 := b], uels, records), uels, 1)| <= 1
  {
    var records, uels := [Key2(1, 1), Key2(1, 2), Key2(2, 1)], ["", a, b];
    assert Texts(uels, Key2(1, 1)) == [a, a] && Texts(uels, Key2(1, 2)) == [a, b] && Texts(uels, Key2(2, 1)) == [b, a];
    assert Key2(1, 1) in records && Key2(1, 2) in records;
    TwoShown(records, uels, a, b);
    OneShown(records, uels, a, b);
  }

  lemma TwoShown(records: seq<Record>, uels: UelTable, a: string, b: string)
    requires AllWellFormed(records, 2, uels) && a != b && Key2(1, 1) in records && Key2(1, 2) in records
    requires Texts(uels, Key2(1, 1)) == [a, a] && Texts(uels, Key2(1, 2)) == [a, b]
    ensures |DistinctValues(Filtered(map[0 := a], uels, records), uels, 1)| >= 2
  {
    var filter: DimensionMap := map[0 := a];
    var kept := Filtered(filter, uels, records);
    FilteredSubset(filter, uels, records);
    assert Accepts(filter, [a, a]) && Accepts(filter, [a, b]);
    DistinctValuesAreColumnTexts(kept, uels, 2, 1);
    assert Texts(uels, Key2(1, 1))[1] == a && Texts(uels, Key2(1, 2))[1] == b;
    assert a in DistinctValues(kept, uels, 1) && b in DistinctValues(kept, uels, 1);
  }

  lemma OneShown(records: seq<Record>, uels: UelTable, a: string, b: string)
    requires AllWellFormed(records, 2, uels) && InjectiveTable(uels)
    requires forall r | r in records && CIEquals(Texts(uels, r)[0], b) :: Texts(uels, r)[1] == a
    ensures |DistinctValues(Filtered(map[0 := b], uels, records), uels, 1)| <= 1
  {
    var filter: DimensionMap := map[0 := b];
    var kept := Filtered(filter, uels, records);
    var values := DistinctValues(kept, uels, 1);
    FilteredSubset(filter, uels, records);
    DistinctValuesAreColumnTexts(kept, uels, 2, 1);
    assert 0 in filter;
    assert forall v | v in values :: v == a;
    assert forall k :: 0 <= k < |values| ==> values[k] in values;
    if |values| > 1 { DistinctValuesIncrease(kept, uels, 1, 0, 1); }
  }

  /** A chunk of one value, a request that leaves at most one value, and another chunk. */
  lemma PullAskPull(file: File, s: CacheState, source: Source, other: Request)
    requires ValidFile(file, s.symbols) && ValidRequest(s.symbols, other) && |Contents(s, source)| > 0
    requires |Contents(Serve(file, s, other).0, source)| <= 1
    ensures var events := [Pull(1), Ask(other), Pull(1)];
      ValidEvents(s.symbols, events) && |Emitted(file, s, source, 0, events)| == 1
  {
    var events, next := [Pull(1), Ask(other), Pull(1)], Serve(file, s, other).0;
    EmittedUnfold(file, s, source, 0, events);
    assert events[1..] == [Ask(other), Pull(1)] && events[1..][1..] == [Pull(1)];
    EmittedUnfold(file, s, source, 1, events[1..]);
    EmittedUnfold(file, next, source, 1, [Pull(1)]);
    assert [Pull(1)][1..] == [] && Emitted(file, next, source, 1, []) == [];
  }

  function Key2(i: int, j: int): Record {
    Record([i, j], Null, Null, Null, Null, Null, Null)
  }
}
