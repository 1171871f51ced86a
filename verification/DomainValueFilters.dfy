/** The `dimension_filters` parameter of gdx_domain_values: which of its entries count, and for
    which dimension. */
module DomainValueFilters {
  import opened Wrappers
  import opened Text
  import opened DimensionFilters
  import opened FilterCompiler

  /** The filters that gdx_domain_values takes from its parameter: each under the first dimension
      with that label, in order; a name that no label equals is dropped without an error. */
  function FilterIndices(labels: seq<string>, parameter: seq<(string, string)>): seq<nat> {
    if parameter == [] then []
    else
      var init, last := parameter[..|parameter| - 1], parameter[|parameter| - 1];
      FilterIndices(labels, init)
        + (match FirstLabel(labels, last.0, 0) case Some(d) => [d] case None => [])
  }

  /** Texts are taken as they are, without trimming. */
  function FilterTexts(labels: seq<string>, parameter: seq<(string, string)>): (texts: seq<string>)
    ensures |texts| == |FilterIndices(labels, parameter)|
  {
    if parameter == [] then []
    else
      var init, last := parameter[..|parameter| - 1], parameter[|parameter| - 1];
      FilterTexts(labels, init) + (if FirstLabel(labels, last.0, 0).Some? then [last.1] else [])
  }

  method BindFilters(labels: seq<string>, parameter: seq<(string, string)>)
    returns (indices: seq<nat>, texts: seq<string>)
    ensures indices == FilterIndices(labels, parameter) && texts == FilterTexts(labels, parameter)
    ensures forall d | d in indices :: d < |labels|
  {
    indices, texts := [], [];
    for k := 0 to |parameter|
      invariant indices == FilterIndices(labels, parameter[..k]) && texts == FilterTexts(labels, parameter[..k])
      invariant forall d | d in indices :: d < |labels|
    {
      assert parameter[..k + 1][..k] == parameter[..k];
      var d := ResolveDimensionByName(labels, parameter[k].0);
      if d.Some? {
        indices := indices + [d.value];
        texts := texts + [parameter[k].1];
      }
    }
    assert parameter[..|parameter|] == parameter;
  }

  /** The positions of the entries that count, in order. */
  ghost predicate Positions(labels: seq<string>, parameter: seq<(string, string)>, positions: seq<nat>) {
    && (forall k :: 0 <= k < |positions| ==> positions[k] < |parameter|)
    && (forall j, k :: 0 <= j < k < |positions| ==> positions[j] < positions[k])
    && (forall m :: 0 <= m < |parameter| ==> (m in positions <==> KnownName(labels, parameter[m].0)))
  }

  /** Dimension `d` is the first one whose label equals the name up to case. */
  predicate IsFirstLabel(labels: seq<string>, name: string, d: nat) {
    d < |labels| && CIEquals(labels[d], name) && forall i :: 0 <= i < d ==> !CIEquals(labels[i], name)
  }

  /** Filters are those of the entries at `positions`: each has its own entry's text, under the
      first dimension that its name equals. */
  ghost predicate TakenFrom(labels: seq<string>, parameter: seq<(string, string)>, positions: seq<nat>,
                            indices: seq<nat>, texts: seq<string>)
  {
    && |indices| == |texts| == |positions|
    && forall k :: 0 <= k < |positions| ==>
         && positions[k] < |parameter| && texts[k] == parameter[positions[k]].1
         && IsFirstLabel(labels, parameter[positions[k]].0, indices[k])
  }

  /** The bound filters are those of the entries with a known name, in order. */
  lemma {:induction false} FiltersBound(labels: seq<string>, parameter: seq<(string, string)>)
    returns (positions: seq<nat>)
    ensures Positions(labels, parameter, positions)
    ensures TakenFrom(labels, parameter, positions, FilterIndices(labels, parameter), FilterTexts(labels, parameter))
  {
    positions := [];
    if parameter != [] {
      var init, last := parameter[..|parameter| - 1], parameter[|parameter| - 1];
      assert init + [last] == parameter;
      positions := FiltersBound(labels, init);
      PositionsOneMore(labels, init, last, positions);
      TakenOneMore(labels, init, last, positions, FilterIndices(labels, init), FilterTexts(labels, init));
      if KnownName(labels, last.0) { positions := positions + [|init|]; }
    }
  }

  lemma PositionsOneMore(labels: seq<string>, parameter: seq<(string, string)>, entry: (string, string),
                         positions: seq<nat>)
    requires Positions(labels, parameter, positions)
    ensures Positions(labels, parameter + [entry],
                      if KnownName(labels, entry.0) then positions + [|parameter|] else positions)
  {
    var all := parameter + [entry];
    var more := if KnownName(labels, entry.0) then positions + [|parameter|] else positions;
    forall m | 0 <= m < |all| ensures m in more <==> KnownName(labels, all[m].0) {
      if m < |parameter| { assert all[m] == parameter[m]; }
    }
  }

  lemma TakenOneMore(labels: seq<string>, parameter: seq<(string, string)>, entry: (string, string),
                     positions: seq<nat>, indices: seq<nat>, texts: seq<string>)
    requires TakenFrom(labels, parameter, positions, indices, texts)
    ensures match FirstLabel(labels, entry.0, 0)
      case Some(d) =>
        && KnownName(labels, entry.0)
        && TakenFrom(labels, parameter + [entry], positions + [|parameter|], indices + [d], texts + [entry.1])
      case None =>
        && !KnownName(labels, entry.0)
        && TakenFrom(labels, parameter + [entry], positions, indices + [], texts + [])
  {
    var all := parameter + [entry];
    forall k | 0 <= k < |positions| ensures all[positions[k]] == parameter[positions[k]] { }
  }

  /** What the entries say about dimension `d`: the text of the last one that names it, if any does. */
  ghost predicate Says(labels: seq<string>, parameter: seq<(string, string)>, d: nat, text: Option<string>) {
    match text
    case Some(t) => exists m :: 0 <= m < |parameter| && LastNaming(labels, parameter, m, d) && parameter[m].1 == t
    case None => forall m :: 0 <= m < |parameter| ==> !IsFirstLabel(labels, parameter[m].0, d)
  }

  predicate LastNaming(labels: seq<string>, parameter: seq<(string, string)>, m: nat, d: nat)
    requires m < |parameter|
  {
    && IsFirstLabel(labels, parameter[m].0, d)
    && forall later :: m < later < |parameter| ==> !IsFirstLabel(labels, parameter[later].0, d)
  }

  lemma LastFiltersOneMore(indices: seq<nat>, texts: seq<string>, d: nat, text: string)
    requires |indices| == |texts|
    ensures LastFilters(indices + [d], texts + [text]) == LastFilters(indices, texts)[d := text]
  {
    assert (indices + [d])[..|indices|] == indices && (texts + [text])[..|texts|] == texts;
  }

  /** What one more entry does to the filter map. */
  lemma OneMoreEntry(labels: seq<string>, parameter: seq<(string, string)>, entry: (string, string))
    ensures LastFilters(FilterIndices(labels, parameter + [entry]), FilterTexts(labels, parameter + [entry])) ==
      var filter := LastFilters(FilterIndices(labels, parameter), FilterTexts(labels, parameter));
      match FirstLabel(labels, entry.0, 0)
      case Some(d) => filter[d := entry.1]
      case None => filter
  {
    var indices, texts := FilterIndices(labels, parameter), FilterTexts(labels, parameter);
    assert (parameter + [entry])[..|parameter|] == parameter;
    match FirstLabel(labels, entry.0, 0) {
      case Some(d) => LastFiltersOneMore(indices, texts, d, entry.1);
      case None => assert indices + [] == indices && texts + [] == texts;
    }
  }

  /** Hence the filter on a dimension is the text of the last entry that names it. */
  lemma {:induction false} LastEntryWins(labels: seq<string>, parameter: seq<(string, string)>, d: nat)
    ensures var filter := LastFilters(FilterIndices(labels, parameter), FilterTexts(labels, parameter));
      Says(labels, parameter, d, if d in filter then Some(filter[d]) else None)
  {
    if parameter != [] {
      var init, last := parameter[..|parameter| - 1], parameter[|parameter| - 1];
      LastEntryWins(labels, init, d);
      assert init + [last] == parameter;
      OneMoreEntry(labels, init, last);
      var filter := LastFilters(FilterIndices(labels, init), FilterTexts(labels, init));
      SaysOneMore(labels, init, last, d, if d in filter then Some(filter[d]) else None);
    }
  }

  lemma SaysOneMore(labels: seq<string>, parameter: seq<(string, string)>, entry: (string, string), d: nat,
                    text: Option<string>)
    requires Says(labels, parameter, d, text)
    ensures Says(labels, parameter + [entry], d, if IsFirstLabel(labels, entry.0, d) then Some(entry.1) else text)
  {
    var all := parameter + [entry];
    if IsFirstLabel(labels, entry.0, d) {
      assert LastNaming(labels, all, |parameter|, d);
    } else if text.Some? {
      var m :| 0 <= m < |parameter| && LastNaming(labels, parameter, m, d) && parameter[m].1 == text.value;
      forall later | m < later < |all| ensures !IsFirstLabel(labels, all[later].0, d) {
        if later < |parameter| { assert all[later] == parameter[later]; }
      }
      assert LastNaming(labels, all, m, d);
    } else {
      forall m | 0 <= m < |all| ensures !IsFirstLabel(labels, all[m].0, d) {
        if m < |parameter| { assert all[m] == parameter[m]; }
      }
    }
  }

  predicate KnownName(labels: seq<string>, name: string) {
    exists d :: 0 <= d < |labels| && CIEquals(labels[d], name)
  }

  /** A parameter loses no filter if and only if every name is known, and turns into no filter at
      all, so that the request is served as an unfiltered one, if and only if none is. */
  lemma {:induction false} FiltersDroppedExactly(labels: seq<string>, parameter: seq<(string, string)>)
    ensures |FilterIndices(labels, parameter)| <= |parameter|
    ensures |FilterIndices(labels, parameter)| == |parameter| <==>
      forall kv | kv in parameter :: KnownName(labels, kv.0)
    ensures FilterIndices(labels, parameter) == [] <==> forall kv | kv in parameter :: !KnownName(labels, kv.0)
  {
    if parameter != [] {
      var init, last := parameter[..|parameter| - 1], parameter[|parameter| - 1];
      FiltersDroppedExactly(labels, init);
      assert last in parameter && forall kv | kv in parameter :: kv in init || kv == last;
      assert forall kv | kv in init :: kv in parameter;
      assert KnownName(labels, last.0) <==> FirstLabel(labels, last.0, 0).Some?;
    }
  }

  /** read_gdx rejects an unknown name; here it silently asks for everything. */
  lemma DroppedFilterWitness(labels: seq<string>, names: map<string, nat>, name: string, text: string)
    requires !KnownName(labels, name) && Normalize(name) !in names
    ensures FilterIndices(labels, [(name, text)]) == []
    ensures !Resolvable(map[Normalize(name) := Entry(Trim(text), name, "")], names)
  {
    FiltersDroppedExactly(labels, [(name, text)]);
    assert Normalize(name) in map[Normalize(name) := Entry(Trim(text), name, "")];
  }
}
