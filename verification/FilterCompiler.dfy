/** Compiling dimension filters for the GDX library: user indices for the requested texts,
    one filter number per filtered dimension, and what the compiled table lets through. */
module FilterCompiler {
  import opened Text
  import opened Records
  import opened DimensionFilters

  // A dimension without a filter, and the first filter number.
  const DOMC_EXPAND := -1
  const FIRST_FILTER_NR := 1000

  // ---------------------------------------------------------------- the library's side

  /** The part of a GDX handle that registration changes. Element texts are matched up to
      case, and one text cannot be registered under two user indices. */
  class GdxHandle {
    var userIndex: map<string, int>
    var filters: map<int, set<int>>

    constructor ()
      ensures userIndex == map[] && filters == map[]
    {
      userIndex, filters := map[], map[];
    }

    method UelRegisterMap(index: int, text: string) returns (ok: bool)
      modifies this`userIndex
      ensures ok <==> Lower(text) !in old(userIndex) || old(userIndex)[Lower(text)] == index
      ensures userIndex == if ok then old(userIndex)[Lower(text) := index] else old(userIndex)
    {
      ok := Lower(text) !in userIndex || userIndex[Lower(text)] == index;
      if ok {
        userIndex := userIndex[Lower(text) := index];
      }
    }

    method RegisterFilter(filterNr: int, index: int)
      modifies this`filters
      ensures filters == old(filters)[filterNr := {index}]
    {
      filters := filters[filterNr := {index}];
    }
  }

  /** Whether one dimension of a record passes the library's filtered read. */
  predicate PassesDimension(userIndex: map<string, int>, filters: map<int, set<int>>, action: int, text: string) {
    action == DOMC_EXPAND
    || (action in filters && Lower(text) in userIndex && userIndex[Lower(text)] in filters[action])
  }

  /** Whether the library's filtered read returns a record with these element texts. */
  predicate Passes(userIndex: map<string, int>, filters: map<int, set<int>>, actions: seq<int>, texts: seq<string>)
    requires |texts| == |actions|
  {
    forall d :: 0 <= d < |actions| ==> PassesDimension(userIndex, filters, actions[d], texts[d])
  }

  // ---------------------------------------------------------------- what is compiled

  /** User indices in order of first occurrence, from 1. */
  function UserIndices(values: seq<string>): map<string, int> {
    if values == [] then map[]
    else
      var indices, last := UserIndices(values[..|values| - 1]), values[|values| - 1];
      if last in indices then indices else indices[last := |indices| + 1]
  }

  /** Filter actions per dimension; a later filter of the same dimension replaces an earlier one. */
  function Actions(indices: seq<nat>, dimension: nat): (actions: seq<int>)
    ensures |actions| == dimension
  {
    if indices == [] then seq(dimension, _ => DOMC_EXPAND)
    else
      var actions, last := Actions(indices[..|indices| - 1], dimension), indices[|indices| - 1];
      if last < dimension then actions[last := FIRST_FILTER_NR + |indices| - 1] else actions
  }

  function FilterTable(userIndices: map<string, int>, values: seq<string>): map<int, set<int>>
    requires forall v | v in values :: v in userIndices
  {
    if values == [] then map[]
    else
      var last := |values| - 1;
      FilterTable(userIndices, values[..last])[FIRST_FILTER_NR + last := {userIndices[values[last]]}]
  }

  lemma {:induction false} FilterTableEntry(userIndices: map<string, int>, values: seq<string>, i: nat)
    requires (forall v | v in values :: v in userIndices) && i < |values|
    ensures FIRST_FILTER_NR + i in FilterTable(userIndices, values)
    ensures FilterTable(userIndices, values)[FIRST_FILTER_NR + i] == {userIndices[values[i]]}
  {
    if i < |values| - 1 {
      FilterTableEntry(userIndices, values[..|values| - 1], i);
    }
  }

  ghost function LastFilters(indices: seq<nat>, values: seq<string>): DimensionMap
    requires |indices| == |values|
  {
    if indices == [] then map[]
    else LastFilters(indices[..|indices| - 1], values[..|values| - 1])[indices[|indices| - 1] := values[|values| - 1]]
  }

  /** Requested texts that agree up to case are spelled the same. */
  predicate CaseConsistent(values: seq<string>) {
    forall i, j :: 0 <= i < j < |values| && CIEquals(values[i], values[j]) ==> values[i] == values[j]
  }

  predicate Injective(m: map<string, int>) {
    forall v, w | v in m && w in m :: m[v] == m[w] ==> v == w
  }

  function Upto(n: nat): (s: set<int>)
    ensures forall k :: k in s <==> 1 <= k <= n
  {
    if n == 0 then {} else Upto(n - 1) + {n}
  }

  /** Distinct texts get the consecutive indices 1, 2, ..., each exactly once. */
  lemma {:induction false} UserIndicesConsecutive(values: seq<string>)
    ensures forall v :: v in UserIndices(values) <==> v in values
    ensures Injective(UserIndices(values))
    ensures UserIndices(values).Values == Upto(|UserIndices(values)|)
  {
    if values != [] {
      var init, last := values[..|values| - 1], values[|values| - 1];
      UserIndicesConsecutive(init);
      assert forall v :: v in values <==> v in init || v == last;
      var before, after := UserIndices(init), UserIndices(values);
      if last !in before {
        OneMoreIndex(before, last);
      }
    }
  }

  lemma OneMoreIndex(m: map<string, int>, v: string)
    requires v !in m && Injective(m) && m.Values == Upto(|m|)
    ensures Injective(m[v := |m| + 1]) && m[v := |m| + 1].Values == Upto(|m[v := |m| + 1]|)
  {
    var n := |m| + 1;
    assert |m[v := n]| == n;
    forall w | w in m ensures m[w] != n { assert m[w] in m.Values; }
    ValuesOneMore(m, v, n);
    assert Upto(n) == m.Values + {n};
  }

  lemma ValuesOneMore(m: map<string, int>, v: string, n: int)
    requires v !in m
    ensures m[v := n].Values == m.Values + {n}
  {
    var after := m[v := n];
    forall k: int | k in after.Values ensures k in m.Values + {n} {
      var w :| w in after && after[w] == k;
      if w != v { assert m[w] in m.Values; }
    }
    forall k: int | k in m.Values + {n} ensures k in after.Values {
      if k == n {
        assert after[v] == k;
      } else {
        var w :| w in m && m[w] == k;
        assert after[w] == k;
      }
    }
  }

  // ---------------------------------------------------------------- the library's view

  /** The library's table: the folded text of each value, under that value's user index. */
  ghost predicate FoldsTo(m: map<string, int>, folded: map<string, int>) {
    && (forall v | v in m :: Lower(v) in folded && folded[Lower(v)] == m[v])
    && (forall t | t in folded :: exists v :: v in m && Lower(v) == t)
  }

  /** A folded text has the user index of `v` only when it is the folded `v`. */
  lemma FoldedExactly(m: map<string, int>, folded: map<string, int>, t: string, v: string)
    requires FoldsTo(m, folded) && Injective(m) && v in m
    ensures t in folded && folded[t] == m[v] <==> t == Lower(v)
  {
    if t in folded {
      var w :| w in m && Lower(w) == t;
    }
  }

  lemma FoldOneMore(m: map<string, int>, folded: map<string, int>, v: string, index: int)
    requires FoldsTo(m, folded) && v !in m && Lower(v) !in folded
    ensures FoldsTo(m[v := index], folded[Lower(v) := index])
  {
    var m', folded' := m[v := index], folded[Lower(v) := index];
    forall t | t in folded' ensures exists w :: w in m' && Lower(w) == t {
      if t == Lower(v) {
        assert v in m';
      } else {
        var w :| w in m && Lower(w) == t;
        assert w in m';
      }
    }
  }

  lemma {:induction false} ActionsMeaning(indices: seq<nat>, values: seq<string>, dimension: nat, d: nat)
    requires |indices| == |values| && d < dimension
    ensures d !in LastFilters(indices, values) ==> Actions(indices, dimension)[d] == DOMC_EXPAND
    ensures d in LastFilters(indices, values) ==> exists i ::
      0 <= i < |values| && Actions(indices, dimension)[d] == FIRST_FILTER_NR + i
        && indices[i] == d && values[i] == LastFilters(indices, values)[d]
  {
    if indices != [] {
      var k := |indices| - 1;
      ActionsMeaning(indices[..k], values[..k], dimension, d);
      if indices[k] == d {
        assert values[k] == LastFilters(indices, values)[d];
      } else if d in LastFilters(indices, values) {
        var i :| 0 <= i < k && Actions(indices[..k], dimension)[d] == FIRST_FILTER_NR + i
          && indices[..k][i] == d && values[..k][i] == LastFilters(indices[..k], values[..k])[d];
        assert indices[i] == d && values[i] == LastFilters(indices, values)[d];
      }
    }
  }

  lemma {:induction false} LastFiltersKeys(indices: seq<nat>, values: seq<string>)
    requires |indices| == |values|
    ensures forall d :: d in LastFilters(indices, values) <==> d in indices
  {
    if indices != [] {
      LastFiltersKeys(indices[..|indices| - 1], values[..|values| - 1]);
      assert forall d :: d in indices <==> d in indices[..|indices| - 1] || d == indices[|indices| - 1];
    }
  }

  lemma RepresentsInit(indices: seq<nat>, values: seq<string>, filter: DimensionMap)
    requires Represents(indices, values, filter) && indices != []
    ensures Represents(indices[..|indices| - 1], values[..|values| - 1], filter - {indices[|indices| - 1]})
  {
    var d, init := indices[|indices| - 1], indices[..|indices| - 1];
    forall k | k in filter - {d} ensures k in init {
      var i :| 0 <= i < |indices| && indices[i] == k;
      assert init[i] == k;
    }
  }

  /** Vectors that list a filter map compile to that map. */
  lemma {:induction false} LastFiltersOf(indices: seq<nat>, values: seq<string>, filter: DimensionMap)
    requires Represents(indices, values, filter)
    ensures LastFilters(indices, values) == filter
  {
    if indices != [] {
      var d := indices[|indices| - 1];
      RepresentsInit(indices, values, filter);
      LastFiltersOf(indices[..|indices| - 1], values[..|values| - 1], filter - {d});
      assert filter == (filter - {d})[d := values[|values| - 1]];
    } else {
      assert filter == map[];
    }
  }

  lemma DimensionAcceptsExactly(indices: seq<nat>, values: seq<string>, dimension: nat, m: map<string, int>,
                                folded: map<string, int>, d: nat, text: string)
    requires |indices| == |values| && d < dimension && (forall v | v in values :: v in m)
    requires Injective(m) && FoldsTo(m, folded)
    ensures PassesDimension(folded, FilterTable(m, values), Actions(indices, dimension)[d], text)
         == (d in LastFilters(indices, values) ==> CIEquals(text, LastFilters(indices, values)[d]))
  {
    ActionsMeaning(indices, values, dimension, d);
    if d in LastFilters(indices, values) {
      var i :| 0 <= i < |values| && Actions(indices, dimension)[d] == FIRST_FILTER_NR + i
        && indices[i] == d && values[i] == LastFilters(indices, values)[d];
      FilterTableEntry(m, values, i);
      FoldedExactly(m, folded, Lower(text), values[i]);
    }
  }

  /** The compiled table lets a record through exactly when it carries the requested text in
      every filtered dimension, also when one text is requested for several dimensions. */
  lemma CompiledAcceptsExactly(indices: seq<nat>, values: seq<string>, dimension: nat, m: map<string, int>,
                               folded: map<string, int>, texts: seq<string>)
    requires |indices| == |values| && |texts| == dimension && (forall v | v in values :: v in m)
    requires Injective(m) && FoldsTo(m, folded) && forall d | d in indices :: d < dimension
    ensures Passes(folded, FilterTable(m, values), Actions(indices, dimension), texts)
       <==> Accepts(LastFilters(indices, values), texts)
  {
    LastFiltersKeys(indices, values);
    forall d | 0 <= d < dimension
      ensures PassesDimension(folded, FilterTable(m, values), Actions(indices, dimension)[d], texts[d])
           == (d in LastFilters(indices, values) ==> CIEquals(texts[d], LastFilters(indices, values)[d]))
    {
      DimensionAcceptsExactly(indices, values, dimension, m, folded, d, texts[d]);
    }
  }

  // ---------------------------------------------------------------- the compiler

  /** The registration part of the scan's global state. */
  class FilterRegistration {
    var filterActions: seq<int>
    var nextFilterNr: int
    var uelUserMap: map<string, int>
    var nextUserIdx: int

    constructor ()
      ensures filterActions == [] && nextFilterNr == FIRST_FILTER_NR && uelUserMap == map[] && nextUserIdx == 1
    {
      filterActions, nextFilterNr, uelUserMap, nextUserIdx := [], FIRST_FILTER_NR, map[], 1;
    }

    /** Registers one new text under the next index. */
    method RegisterText(handle: GdxHandle, text: string) returns (ok: bool)
      modifies this`uelUserMap, this`nextUserIdx, handle`userIndex
      ensures ok <==> Lower(text) !in old(handle.userIndex) || old(handle.userIndex)[Lower(text)] == old(nextUserIdx)
      ensures ok ==> uelUserMap == old(uelUserMap)[text := old(nextUserIdx)] && nextUserIdx == old(nextUserIdx) + 1
      ensures ok ==> handle.userIndex == old(handle.userIndex)[Lower(text) := old(nextUserIdx)]
    {
      ok := handle.UelRegisterMap(nextUserIdx, text);
      if ok {
        uelUserMap := uelUserMap[text := nextUserIdx];
        nextUserIdx := nextUserIdx + 1;
      }
    }

    /** Registers each distinct text once. It fails exactly when two requested texts differ
        only in case. */
    method RegisterValues(handle: GdxHandle, values: seq<string>) returns (ok: bool)
      requires uelUserMap == map[] && nextUserIdx == 1 && handle.userIndex == map[]
      modifies this`uelUserMap, this`nextUserIdx, handle`userIndex
      ensures ok <==> CaseConsistent(values)
      ensures ok ==> uelUserMap == UserIndices(values) && FoldsTo(uelUserMap, handle.userIndex)
      ensures ok ==> nextUserIdx == |uelUserMap| + 1
    {
      assert Registered(values, 0, map[], map[]);
      for i := 0 to |values|
        invariant Registered(values, i, uelUserMap, handle.userIndex) && nextUserIdx == |uelUserMap| + 1
      {
        RegisterNext(values, i, uelUserMap, handle.userIndex);
        if values[i] !in uelUserMap {
          ok := RegisterText(handle, values[i]);
          if !ok {
            return false;
          }
        }
      }
      assert values[..|values|] == values;
      ok := true;
    }

    method RegisterFilters(handle: GdxHandle, indices: seq<nat>, values: seq<string>, dimension: nat)
      requires |indices| == |values| && (forall v | v in values :: v in uelUserMap) && handle.filters == map[]
      requires nextFilterNr == FIRST_FILTER_NR && forall d | d in indices :: d < dimension
      modifies this`filterActions, this`nextFilterNr, handle`filters
      ensures filterActions == Actions(indices, dimension)
      ensures handle.filters == FilterTable(uelUserMap, values)
    {
      filterActions, nextFilterNr := RegisterDimensionFilters(handle, uelUserMap, indices, values, dimension);
    }
  }

  /** One filter per filtered dimension, holding exactly the index of its value. */
  method RegisterDimensionFilters(handle: GdxHandle, userMap: map<string, int>, indices: seq<nat>,
                                  values: seq<string>, dimension: nat)
    returns (actions: seq<int>, nextFilterNr: int)
    requires |indices| == |values| && (forall v | v in values :: v in userMap) && handle.filters == map[]
    modifies handle`filters
    ensures actions == Actions(indices, dimension) && nextFilterNr == FIRST_FILTER_NR + |indices|
    ensures handle.filters == FilterTable(userMap, values)
  {
    actions := seq(dimension, _ => DOMC_EXPAND);
    nextFilterNr := FIRST_FILTER_NR;
    for i := 0 to |indices|
      invariant nextFilterNr == FIRST_FILTER_NR + i
      invariant actions == Actions(indices[..i], dimension)
      invariant handle.filters == FilterTable(userMap, values[..i])
    {
      var filterNr := nextFilterNr;
      nextFilterNr := nextFilterNr + 1;
      assert values[i] in values;
      handle.RegisterFilter(filterNr, userMap[values[i]]);
      assert indices[..i + 1][..i] == indices[..i] && values[..i + 1][..i] == values[..i];
      if indices[i] < dimension {
        actions := actions[indices[i] := filterNr];
      }
    }
    assert indices[..|indices|] == indices && values[..|values|] == values;
  }

  /** A compiled table lets through exactly what `filter` accepts. */
  ghost predicate Implements(userIndex: map<string, int>, filters: map<int, set<int>>, actions: seq<int>,
                             filter: DimensionMap)
  {
    forall texts: seq<string> :: |texts| == |actions| ==>
      (Passes(userIndex, filters, actions, texts) <==> Accepts(filter, texts))
  }

  lemma PassesAccepted(userIndex: map<string, int>, filters: map<int, set<int>>, actions: seq<int>,
                       filter: DimensionMap, texts: seq<string>)
    requires Implements(userIndex, filters, actions, filter) && |texts| == |actions|
    ensures Passes(userIndex, filters, actions, texts) <==> Accepts(filter, texts)
  {
  }

  /** The library's filtered read: the records that pass, in order. */
  function FilteredRead(userIndex: map<string, int>, filters: map<int, set<int>>, actions: seq<int>,
                        uels: UelTable, records: seq<Record>)
    : seq<Record>
    requires forall r | r in records :: |r.keys| == |actions|
  {
    if records == [] then []
    else
      assert records[0] in records && forall r | r in records[1..] :: r in records;
      (if Passes(userIndex, filters, actions, Texts(uels, records[0])) then [records[0]] else [])
        + FilteredRead(userIndex, filters, actions, uels, records[1..])
  }

  lemma {:induction false} FilteredReadSelects(userIndex: map<string, int>, filters: map<int, set<int>>,
                                               actions: seq<int>,
                                               uels: UelTable, records: seq<Record>, filter: DimensionMap)
    requires forall r | r in records :: |r.keys| == |actions|
    requires Implements(userIndex, filters, actions, filter)
    ensures FilteredRead(userIndex, filters, actions, uels, records) == Filtered(filter, uels, records)
  {
    if records != [] {
      assert records[0] in records && forall r | r in records[1..] :: r in records;
      PassesAccepted(userIndex, filters, actions, filter, Texts(uels, records[0]));
      FilteredReadSelects(userIndex, filters, actions, uels, records[1..], filter);
    }
  }

  /** The first `i` texts are registered, each distinct one once. */
  ghost predicate Registered(values: seq<string>, i: nat, m: map<string, int>, folded: map<string, int>)
    requires i <= |values|
  {
    CaseConsistent(values[..i]) && m == UserIndices(values[..i]) && FoldsTo(m, folded)
  }

  /** The next text is known, or new, or clashes with an earlier spelling. */
  lemma RegisterNext(values: seq<string>, i: nat, m: map<string, int>, folded: map<string, int>)
    requires i < |values| && Registered(values, i, m, folded)
    ensures values[i] in m ==> Registered(values, i + 1, m, folded)
    ensures values[i] !in m && Lower(values[i]) in folded ==>
      !CaseConsistent(values) && folded[Lower(values[i])] != |m| + 1
    ensures values[i] !in m && Lower(values[i]) !in folded ==>
      |m[values[i] := |m| + 1]| == |m| + 1
      && Registered(values, i + 1, m[values[i] := |m| + 1], folded[Lower(values[i]) := |m| + 1])
  {
    assert values[..i + 1][..i] == values[..i];
    UserIndicesConsecutive(values[..i]);
    forall v | v in m ensures m[v] <= |m| { assert m[v] in m.Values; }
    if values[i] in m {
      RepeatedStaysConsistent(values, i);
    } else if Lower(values[i]) in folded {
      ClashesWithEarlier(values, i, m, folded);
    } else {
      FreshStaysConsistent(values, i, m, folded);
      FoldOneMore(m, folded, values[i], |m| + 1);
      assert values[..i + 1][|values[..i + 1]| - 1] == values[i];
      assert UserIndices(values[..i + 1]) == m[values[i] := |m| + 1];
    }
  }

  lemma RepeatedStaysConsistent(values: seq<string>, i: nat)
    requires i < |values| && CaseConsistent(values[..i]) && values[i] in values[..i]
    ensures CaseConsistent(values[..i + 1])
  {
    var k :| 0 <= k < i && values[..i][k] == values[i];
    forall a, b | 0 <= a < b < i + 1 && CIEquals(values[a], values[b]) ensures values[a] == values[b] {
      if b == i && a != k {
        assert CIEquals(values[a], values[k]);
        if a < k { assert values[..i][a] == values[..i][k]; } else { assert values[..i][k] == values[..i][a]; }
      } else if b < i {
        assert values[..i][a] == values[..i][b];
      }
    }
  }

  /** A text cannot be registered when an earlier one equals it up to case. */
  lemma ClashesWithEarlier(values: seq<string>, i: nat, m: map<string, int>, folded: map<string, int>)
    requires i < |values| && values[i] !in m && Lower(values[i]) in folded
    requires FoldsTo(m, folded) && forall v | v in m :: v in values[..i] && m[v] <= |m|
    ensures !CaseConsistent(values) && folded[Lower(values[i])] != |m| + 1
  {
    var v :| v in m && Lower(v) == Lower(values[i]);
    var k :| 0 <= k < i && values[..i][k] == v;
    assert values[k] == v && v != values[i];
    assert CIEquals(values[k], values[i]);
  }

  lemma FreshStaysConsistent(values: seq<string>, i: nat, m: map<string, int>, folded: map<string, int>)
    requires i < |values| && CaseConsistent(values[..i]) && Lower(values[i]) !in folded
    requires FoldsTo(m, folded) && forall v | v in values[..i] :: v in m
    ensures CaseConsistent(values[..i + 1])
  {
    forall a, b | 0 <= a < b < i + 1 && CIEquals(values[a], values[b]) ensures values[a] == values[b] {
      assert values[a] == values[..i][a] && values[a] in values[..i];
      if b < i { assert values[..i][b] == values[b]; }
    }
  }

  lemma CompiledImplements(indices: seq<nat>, values: seq<string>, dimension: nat, m: map<string, int>,
                           folded: map<string, int>, filter: DimensionMap)
    requires Represents(indices, values, filter) && (forall v | v in values :: v in m)
    requires Injective(m) && FoldsTo(m, folded) && forall d | d in indices :: d < dimension
    ensures Implements(folded, FilterTable(m, values), Actions(indices, dimension), filter)
  {
    LastFiltersOf(indices, values, filter);
    forall texts: seq<string> | |texts| == dimension
      ensures Passes(folded, FilterTable(m, values), Actions(indices, dimension), texts) <==> Accepts(filter, texts)
    {
      CompiledAcceptsExactly(indices, values, dimension, m, folded, texts);
    }
  }

  /** From the bind data's vectors to the library: when the requested texts are consistent up
      to case, the compiled read returns exactly the records the filter map accepts. */
  method CompileFilters(handle: GdxHandle, indices: seq<nat>, values: seq<string>, dimension: nat,
                        ghost filter: DimensionMap)
    returns (ok: bool, actions: seq<int>)
    requires Represents(indices, values, filter) && forall d | d in indices :: d < dimension
    requires handle.userIndex == map[] && handle.filters == map[]
    modifies handle
    ensures ok <==> CaseConsistent(values)
    ensures ok ==> |actions| == dimension
    ensures ok ==> Implements(handle.userIndex, handle.filters, actions, filter)
  {
    var registration := new FilterRegistration();
    actions := [];
    ok := registration.RegisterValues(handle, values);
    if ok {
      assert Injective(registration.uelUserMap) && forall v | v in values :: v in registration.uelUserMap by {
        UserIndicesConsecutive(values);
      }
      registration.RegisterFilters(handle, indices, values, dimension);
      actions := registration.filterActions;
      CompiledImplements(indices, values, dimension, registration.uelUserMap, handle.userIndex, filter);
    }
  }
}
