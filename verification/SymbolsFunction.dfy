/** gdx_symbols: loading the symbol list, and handing it out in chunks with the domain labels
    flattened into one list column. */
module SymbolsFunction {
  import opened Wrappers
  import opened Chunking
  import opened Schema
  import opened Text

  datatype Symbol = Symbol(name: string, typeCode: int, dimensionCount: nat, recordCount: nat, description: string,
                           domainLabels: seq<string>)

  // ---------------------------------------------------------------- loading

  /** What the library answers about one symbol; `domainResult` 0 is a failed domain query,
      1 an unknown domain. */
  datatype SymbolInfo = SymbolInfo(name: string, dimension: int, typeCode: int, recordCount: int, description: string,
                                   domainResult: int, domains: seq<string>)

  predicate UsableInfo(info: Option<SymbolInfo>) {
    info.Some? && (info.value.dimension > 0 ==> info.value.domainResult != 0)
  }

  function NonNegative(n: int): nat {
    if n < 0 then 0 else n
  }

  function LabelOf(info: SymbolInfo, i: nat): string
    requires i < |info.domains|
  {
    if info.domainResult == 1 || info.domains[i] == "" then "*" else info.domains[i]
  }

  /** A dimension with a known domain gives its column the domain's name; any other dimension
      gets a generated one. */
  lemma DomainNamesColumn(info: SymbolInfo, labels: seq<string>, i: nat)
    requires i < |labels| == |info.domains| && labels[i] == LabelOf(info, i)
    ensures info.domainResult != 1 && info.domains[i] != "" && info.domains[i] != "*" ==>
      Base(labels, i) == info.domains[i]
    ensures info.domainResult == 1 || info.domains[i] == "" || info.domains[i] == "*" ==>
      Base(labels, i) == "dim_" + Decimal(i + 1)
  {
  }

  /** Loading succeeds exactly when the library answers every query; then each symbol has one
      non-empty label per dimension. */
  method LoadMetadata(infos: seq<Option<SymbolInfo>>) returns (symbols: Option<seq<Symbol>>)
    requires forall i :: 0 <= i < |infos| && infos[i].Some? && infos[i].value.dimension > 0 ==>
      |infos[i].value.domains| == infos[i].value.dimension
    ensures symbols.Some? <==> forall i :: 0 <= i < |infos| ==>
      infos[i].Some? && (infos[i].value.dimension > 0 ==> infos[i].value.domainResult != 0)
    ensures symbols.Some? ==> |symbols.value| == |infos|
    ensures symbols.Some? ==> forall i :: 0 <= i < |infos| ==>
      && |symbols.value[i].domainLabels| == symbols.value[i].dimensionCount
      && symbols.value[i].dimensionCount == (if infos[i].value.dimension < 0 then 0 else infos[i].value.dimension)
      && symbols.value[i].recordCount == (if infos[i].value.recordCount < 0 then 0 else infos[i].value.recordCount)
      && symbols.value[i].name == infos[i].value.name && symbols.value[i].typeCode == infos[i].value.typeCode
      && symbols.value[i].description == infos[i].value.description
      && forall k :: 0 <= k < |symbols.value[i].domainLabels| ==>
           && symbols.value[i].domainLabels[k] != ""
           && symbols.value[i].domainLabels[k] ==
                (if infos[i].value.domainResult != 1 && infos[i].value.domains[k] != "" then infos[i].value.domains[k]
                 else "*")
  {
    var loaded: seq<Symbol> := [];
    for i := 0 to |infos|
      invariant |loaded| == i && forall j :: 0 <= j < i ==> UsableInfo(infos[j])
      invariant forall j :: 0 <= j < i ==>
        && |loaded[j].domainLabels| == loaded[j].dimensionCount == NonNegative(infos[j].value.dimension)
        && loaded[j].name == infos[j].value.name && loaded[j].recordCount == NonNegative(infos[j].value.recordCount)
        && loaded[j].typeCode == infos[j].value.typeCode && loaded[j].description == infos[j].value.description
        && forall k :: 0 <= k < |loaded[j].domainLabels| ==>
             loaded[j].domainLabels[k] == LabelOf(infos[j].value, k) && loaded[j].domainLabels[k] != ""
    {
      if infos[i].None? {
        return None;
      }
      var info := infos[i].value;
      var labels: seq<string> := [];
      if info.dimension > 0 {
        if info.domainResult == 0 {
          return None;
        }
        for k := 0 to info.dimension
          invariant |labels| == k
          invariant forall j :: 0 <= j < k ==> labels[j] == LabelOf(info, j) && labels[j] != ""
        {
          labels := labels + [LabelOf(info, k)];
        }
      }
      loaded := loaded + [Symbol(info.name, info.typeCode, NonNegative(info.dimension), NonNegative(info.recordCount),
                                 info.description, labels)];
    }
    symbols := Some(loaded);
  }

  // ---------------------------------------------------------------- the list column

  datatype ListEntry = ListEntry(offset: nat, length: nat)

  function Flatten(symbols: seq<Symbol>): seq<string> {
    if symbols == [] then [] else Flatten(symbols[..|symbols| - 1]) + symbols[|symbols| - 1].domainLabels
  }

  /** The list entries of a chunk whose child buffer already holds `start` strings. */
  function Entries(symbols: seq<Symbol>, start: nat): (entries: seq<ListEntry>)
    ensures |entries| == |symbols|
  {
    seq(|symbols|, i requires 0 <= i < |symbols| => EntryAt(symbols, start, i))
  }

  function EntryAt(symbols: seq<Symbol>, start: nat, i: nat): ListEntry
    requires i < |symbols|
  {
    ListEntry(start + |Flatten(symbols[..i])|, |symbols[i].domainLabels|)
  }

  /** What a reader of the list column sees in row `i`. */
  function ReadList(child: seq<string>, entry: ListEntry): seq<string> {
    if entry.offset + entry.length <= |child| then child[entry.offset..entry.offset + entry.length] else []
  }

  lemma {:induction false} FlattenSplit(symbols: seq<Symbol>, i: nat)
    requires i < |symbols|
    ensures |Flatten(symbols[..i])| + |symbols[i].domainLabels| <= |Flatten(symbols)|
    ensures Flatten(symbols)[..|Flatten(symbols[..i])|] == Flatten(symbols[..i])
    ensures Flatten(symbols)[|Flatten(symbols[..i])|..|Flatten(symbols[..i])| + |symbols[i].domainLabels|]
            == symbols[i].domainLabels
  {
    var init := symbols[..|symbols| - 1];
    if i < |symbols| - 1 {
      FlattenSplit(init, i);
      assert init[..i] == symbols[..i];
    }
  }

  /** Reading the list column back gives every symbol its own labels, whatever the child
      buffer held before. */
  lemma {:induction false} ListColumnRoundTrip(existing: seq<string>, symbols: seq<Symbol>, i: nat)
    requires i < |symbols|
    ensures ReadList(existing + Flatten(symbols), Entries(symbols, |existing|)[i]) == symbols[i].domainLabels
  {
    FlattenSplit(symbols, i);
    ReadShifted(existing, Flatten(symbols), EntryAt(symbols, |existing|, i), symbols[i].domainLabels);
  }

  lemma ReadShifted(existing: seq<string>, flat: seq<string>, entry: ListEntry, labels: seq<string>)
    requires |existing| <= entry.offset && entry.offset + entry.length <= |existing| + |flat|
    requires flat[entry.offset - |existing|..entry.offset - |existing| + entry.length] == labels
    ensures ReadList(existing + flat, entry) == labels
  {
    SliceShift(existing, flat, entry.offset - |existing|, entry.length);
  }

  lemma SliceShift<T>(a: seq<T>, b: seq<T>, from: nat, n: nat)
    requires from + n <= |b|
    ensures (a + b)[|a| + from..|a| + from + n] == b[from..from + n]
  {
  }

  /** Entries are contiguous, hence disjoint, and together cover exactly the new strings. */
  lemma EntriesContiguous(symbols: seq<Symbol>, start: nat, i: nat)
    requires i < |symbols|
    ensures var e := Entries(symbols, start);
      && (i == 0 ==> e[i].offset == start)
      && (i + 1 < |symbols| ==> e[i + 1].offset == e[i].offset + e[i].length)
      && (i + 1 == |symbols| ==> e[i].offset + e[i].length == start + |Flatten(symbols)|)
  {
    assert symbols[..i + 1][..i] == symbols[..i];
    if i + 1 == |symbols| { assert symbols[..i + 1] == symbols; }
  }

  /** One output chunk: the symbols it shows, and its list column. */
  datatype Chunk = Chunk(shown: seq<Symbol>, entries: seq<ListEntry>, child: seq<string>)

  class GdxSymbolsLocalState {
    var offset: nat

    constructor ()
      ensures offset == 0
    {
      offset := 0;
    }

    /** The next chunk; `existing` is what the list column's child buffer already holds. */
    method GdxSymbolsFunction(symbols: seq<Symbol>, vectorSize: nat, existing: seq<string>) returns (chunk: Chunk)
      requires offset <= |symbols|
      modifies this`offset
      ensures offset == if old(offset) + vectorSize <= |symbols| then old(offset) + vectorSize else |symbols|
      ensures chunk.shown == symbols[old(offset)..offset]
      ensures chunk.entries == Entries(chunk.shown, |existing|)
      ensures chunk.child == existing + Flatten(chunk.shown)
    {
      if offset >= |symbols| {
        return Chunk([], [], existing);
      }
      var count := if vectorSize <= |symbols| - offset then vectorSize else |symbols| - offset;
      chunk := FillChunk(symbols[offset..offset + count], existing);
      offset := offset + count;
    }
  }

  method CountLabels(shown: seq<Symbol>) returns (total: nat)
    ensures total == |Flatten(shown)|
  {
    total := 0;
    for i := 0 to |shown|
      invariant total == |Flatten(shown[..i])|
    {
      assert shown[..i + 1][..i] == shown[..i];
      total := total + |shown[i].domainLabels|;
    }
    assert shown[..|shown|] == shown;
  }

  /** Fills the output vectors of one chunk; the child buffer grows by the label count. */
  method FillChunk(shown: seq<Symbol>, existing: seq<string>) returns (chunk: Chunk)
    ensures chunk == Chunk(shown, Entries(shown, |existing|), existing + Flatten(shown))
  {
    var totalNewEntries := CountLabels(shown);
    var child := new string[|existing| + totalNewEntries](_ => "");
    ghost var expected := Entries(shown, |existing|);
    ghost var done: seq<string> := [];
    Write(child, 0, existing);
    var entries: seq<ListEntry> := [];
    var childOffset := |existing|;
    assert existing + done == existing;
    for i := 0 to |shown|
      invariant done == Flatten(shown[..i]) && entries == expected[..i]
      invariant childOffset == |existing| + |done| <= child.Length
      invariant child[..childOffset] == existing + done
    {
      OneMoreSymbol(shown, i);
      assert expected[..i + 1] == expected[..i] + [expected[i]];
      assert expected[i] == EntryAt(shown, |existing|, i);
      entries := entries + [ListEntry(childOffset, |shown[i].domainLabels|)];
      Write(child, childOffset, shown[i].domainLabels);
      ConcatAssociative(existing, done, shown[i].domainLabels);
      done := done + shown[i].domainLabels;
      childOffset := childOffset + |shown[i].domainLabels|;
    }
    assert shown[..|shown|] == shown && expected[..|shown|] == expected;
    assert childOffset == child.Length && child[..childOffset] == child[..];
    chunk := Chunk(shown, entries, child[..]);
  }

  lemma ConcatAssociative<T>(a: seq<T>, b: seq<T>, c: seq<T>)
    ensures (a + b) + c == a + (b + c)
  {
  }

  lemma OneMoreSymbol(symbols: seq<Symbol>, i: nat)
    requires i < |symbols|
    ensures Flatten(symbols[..i + 1]) == Flatten(symbols[..i]) + symbols[i].domainLabels
    ensures |Flatten(symbols[..i])| + |symbols[i].domainLabels| <= |Flatten(symbols)|
  {
    assert symbols[..i + 1][..i] == symbols[..i];
    FlattenSplit(symbols, i);
  }

  /** The inner loop: copies strings into the child buffer. */
  method Write(child: array<string>, at: nat, texts: seq<string>)
    requires at + |texts| <= child.Length
    modifies child
    ensures child[..at + |texts|] == old(child[..at]) + texts
  {
    for k := 0 to |texts|
      invariant child[..at + k] == old(child[..at]) + texts[..k]
    {
      ghost var before := child[..at + k];
      child[at + k] := texts[k];
      assert child[..at + k + 1] == before + [texts[k]];
    }
    assert texts[..|texts|] == texts;
  }

  function Labels(symbols: seq<Symbol>): seq<seq<string>> {
    seq(|symbols|, i requires 0 <= i < |symbols| => symbols[i].domainLabels)
  }

  lemma LabelsConcat(a: seq<Symbol>, b: seq<Symbol>)
    ensures Labels(a + b) == Labels(a) + Labels(b)
  {
  }

  /** A reader of one chunk's list column sees each shown symbol's labels. */
  method ReadLists(chunk: Chunk, ghost existing: seq<string>) returns (lists: seq<seq<string>>)
    requires chunk.entries == Entries(chunk.shown, |existing|) && chunk.child == existing + Flatten(chunk.shown)
    ensures lists == Labels(chunk.shown)
  {
    lists := [];
    for i := 0 to |chunk.entries|
      invariant lists == Labels(chunk.shown)[..i]
    {
      ListColumnRoundTrip(existing, chunk.shown, i);
      lists := lists + [ReadList(chunk.child, chunk.entries[i])];
    }
  }

  /** Running the table function once per vector size and reading each list column back gives
      every symbol's labels once, in order, cut off where the sizes end. */
  method ReadSymbols(symbols: seq<Symbol>, sizes: seq<nat>, existing: seq<string>) returns (lists: seq<seq<string>>)
    ensures lists == Labels(symbols[..if Total(sizes) <= |symbols| then Total(sizes) else |symbols|])
  {
    var state := new GdxSymbolsLocalState();
    lists := [];
    assert sizes[0..] == sizes;
    for k := 0 to |sizes|
      invariant state.offset <= |symbols| && lists == Labels(symbols[..state.offset])
      invariant state.offset + Total(sizes[k..]) == Total(sizes)
        || (state.offset == |symbols| && Total(sizes) >= |symbols|)
    {
      ghost var before := state.offset;
      assert sizes[k..][1..] == sizes[k + 1..];
      var chunk := state.GdxSymbolsFunction(symbols, sizes[k], existing);
      var read := ReadLists(chunk, existing);
      LabelsConcat(symbols[..before], chunk.shown);
      assert symbols[..before] + symbols[before..state.offset] == symbols[..state.offset];
      lists := lists + read;
    }
  }
}
