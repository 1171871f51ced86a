/** The streaming scan of read_gdx: a cursor that is resumed once per output chunk, and the
    handle it finishes and closes along the way. */
module Scan {
  import opened Wrappers
  import opened Schema
  import opened Records
  import opened Chunking

  datatype ScanError = ReadDoneFailed | CloseFailed

  /** Calls into the library, in order. Release frees the handle. */
  datatype Event = Fetch | ReadDone(ok: bool) | Close(ok: bool) | Release

  // ---------------------------------------------------------------- the handle protocol

  /** No fetch after the read is ended or the handle closed; a successful read-done is final
      and comes before any close; a successful close is final; nothing follows the release. */
  ghost predicate Protocol(log: seq<Event>) {
    forall i, j :: 0 <= i < j < |log| ==> MayFollow(log[i], log[j])
  }

  predicate MayFollow(earlier: Event, later: Event) {
    match earlier
    case Fetch => true
    case ReadDone(ok) => !later.Fetch? && !(ok && later.ReadDone?)
    case Close(ok) => !later.Fetch? && !later.ReadDone? && !(ok && later.Close?)
    case Release => false
  }

  lemma ProtocolOneMore(log: seq<Event>, e: Event)
    requires Protocol(log) && forall x | x in log :: MayFollow(x, e)
    ensures Protocol(log + [e])
  {
    forall i, j | 0 <= i < j < |log| + 1 ensures MayFollow((log + [e])[i], (log + [e])[j]) {
      assert log[i] in log;
    }
  }

  /** The protocol, call by call: what may not come before each kind of call. */
  predicate InOrder(earlier: Event, later: Event) {
    && earlier != Release
    && (later.Fetch? ==> earlier.Fetch?)
    && (later.ReadDone? ==> !earlier.Close? && earlier != ReadDone(true))
    && (later.Close? ==> earlier != Close(true))
  }

  lemma ProtocolExactly(log: seq<Event>)
    ensures Protocol(log) <==> forall i, j :: 0 <= i < j < |log| ==> InOrder(log[i], log[j])
  {
    forall i, j | 0 <= i < j < |log| ensures MayFollow(log[i], log[j]) <==> InOrder(log[i], log[j]) { }
  }

  function Count(log: seq<Event>, e: Event): nat {
    if log == [] then 0 else (if log[0] == e then 1 else 0) + Count(log[1..], e)
  }

  /** The protocol allows one successful read-done, one successful close and one release. */
  lemma {:induction false} ProtocolCounts(log: seq<Event>, e: Event)
    requires Protocol(log) && (e == ReadDone(true) || e == Close(true) || e == Release)
    ensures Count(log, e) == if e in log then 1 else 0
  {
    if log != [] {
      var rest := log[1..];
      forall i, j | 0 <= i < j < |rest| ensures MayFollow(rest[i], rest[j]) {
        assert MayFollow(log[i + 1], log[j + 1]);
      }
      ProtocolCounts(rest, e);
      forall j | 0 <= j < |rest| ensures MayFollow(log[0], rest[j]) { assert rest[j] == log[j + 1]; }
      assert log == [log[0]] + rest;
    }
  }

  /** Every way a handle's life can end: released once, closed just before, and closed
      successfully exactly when that last close succeeded. */
  ghost predicate Ended(log: seq<Event>) {
    && Protocol(log)
    && |log| >= 2 && log[|log| - 1] == Release && log[|log| - 2].Close?
  }

  lemma EndedCounts(log: seq<Event>)
    requires Ended(log)
    ensures Count(log, Release) == 1
    ensures log[|log| - 2] in {Close(true), Close(false)}
    ensures Count(log, Close(true)) == if log[|log| - 2] == Close(true) then 1 else 0
  {
    ProtocolCounts(log, Release);
    ProtocolCounts(log, Close(true));
    var last := |log| - 2;
    forall i | 0 <= i < last ensures MayFollow(log[i], log[last]) { }
    assert Close(true) == log[last] ==> Close(true) in log;
  }

  // ---------------------------------------------------------------- the scan state

  function Rows(columns: seq<ValueColumn>, uels: UelTable, stream: seq<Fetched>): seq<seq<Value>> {
    seq(|stream|, i requires 0 <= i < |stream| => RowOf(columns, uels, stream[i].record, stream[i].dimFrst))
  }

  /** Every row fits the schema: one cell per declared column, texts in the domain columns,
      two truth values of which at most one is true, and each value cell in its own slot. */
  lemma RowFitsSchema(labels: seq<string>, symbolType: int, columns: seq<ValueColumn>, uels: UelTable, f: Fetched)
    requires columns != [] && |f.record.keys| == |labels|
    ensures var l := LayoutOf(|labels|, |labels|, |columns|);
      var row := RowOf(columns, uels, f.record, f.dimFrst);
      && |row| == |SchemaNames(labels, symbolType, columns)|
      && (forall d :: 0 <= d < l.domainCount ==> row[d] == Varchar(UelString(uels, f.record.keys[d])))
      && (l.metadataCount == 2 ==>
            && row[l.metadataOffset] == Boolean(f.dimFrst == 1)
            && row[l.metadataOffset + 1] == Boolean(f.dimFrst != 1))
      && (forall i :: 0 <= i < l.valueCount ==> row[l.valueOffset + i] == ValueCell(columns[i].kind, f.record))
  {
    LayoutMatchesSchema(labels, symbolType, columns);
  }

  /** What stands under each value column, by its name. */
  predicate ShowsSlot(name: string, cell: Value, record: Record) {
    match name
    case "is_member" => cell == if record.level.Null? then Null else Boolean(true)
    case "description" => cell == record.description
    case "value" => cell == record.level
    case "level" => cell == record.level
    case "marginal" => cell == record.marginal
    case "lower" => cell == record.lower
    case "upper" => cell == record.upper
    case "scale" => cell == record.scale
    case _ => false
  }

  /** The type of a value column, by its name. */
  predicate HasType(name: string, logicalType: LogicalType) {
    match name
    case "is_member" => logicalType == BOOLEAN
    case "description" => logicalType == VARCHAR
    case _ => logicalType == DOUBLE
  }

  function ColumnNames(columns: seq<ValueColumn>): seq<string> {
    seq(|columns|, i requires 0 <= i < |columns| => columns[i].name)
  }

  /** The columns of each kind of symbol, by name and type: sets, parameters, variables and
      equations, and anything else. */
  lemma ValueColumnNames(symbolType: int)
    ensures ColumnNames(ValueColumnDefinitions(symbolType)) ==
      if symbolType == GMS_DT_SET then ["is_member", "description"]
      else if symbolType == GMS_DT_VAR || symbolType == GMS_DT_EQU then ["level", "marginal", "lower", "upper", "scale"]
      else ["value"]
    ensures forall v | v in ValueColumnDefinitions(symbolType) :: HasType(v.name, v.logicalType)
    ensures GMS_DT_SET == 0 && GMS_DT_PAR == 1 && GMS_DT_VAR == 2 && GMS_DT_EQU == 3
  {
  }

  lemma SlotByName(symbolType: int, column: ValueColumn, record: Record)
    requires column in ValueColumnDefinitions(symbolType)
    ensures ShowsSlot(column.name, ValueCell(column.kind, record), record)
  {
  }

  /** With the symbol's own columns, all of them or a selection, each cell shows the slot that
      its column is named after. */
  lemma RowShowsSlots(labels: seq<string>, symbolType: int, columns: seq<ValueColumn>, uels: UelTable, f: Fetched,
                      i: nat)
    requires columns != [] && |f.record.keys| == |labels| && i < |columns|
    requires columns[i] in ValueColumnDefinitions(symbolType)
    ensures var l := LayoutOf(|labels|, |labels|, |columns|);
      var row := RowOf(columns, uels, f.record, f.dimFrst);
      && l.valueOffset + i < |row| == |SchemaColumns(labels, symbolType, columns)|
      && SchemaColumns(labels, symbolType, columns)[l.valueOffset + i].base == columns[i].name
      && ShowsSlot(columns[i].name, row[l.valueOffset + i], f.record)
  {
    RowFitsSchema(labels, symbolType, columns, uels, f);
    LayoutMatchesSchema(labels, symbolType, columns);
    SlotByName(symbolType, columns[i], f.record);
  }

  /** How many records a scan consumes in all: one beyond the window when there is one. */
  function FetchedAtEnd(total: nat, offset: nat, limit: Option<nat>): nat {
    if limit.None? || total <= offset + limit.value then total else offset + limit.value + 1
  }

  lemma RowsOneMore(columns: seq<ValueColumn>, uels: UelTable, selected: seq<Fetched>, from: nat, to: nat)
    requires from <= to < |selected|
    ensures Rows(columns, uels, selected[from..to + 1]) ==
      Rows(columns, uels, selected[from..to]) + [RowOf(columns, uels, selected[to].record, selected[to].dimFrst)]
  {
    assert selected[from..to + 1] == selected[from..to] + [selected[to]];
  }

  /** The record behind the ones skipped and emitted is the next one of the window. */
  lemma WindowAt(records: seq<Fetched>, offset: nat, limit: Option<nat>, emitted: nat)
    requires offset + emitted < |records| && (limit.Some? ==> emitted < limit.value)
    ensures emitted < |Window(records, offset, limit)|
    ensures Window(records, offset, limit)[emitted] == records[offset + emitted]
  {
  }

  /** The window is used up when the records are, or when a record is met beyond the limit. */
  lemma WindowUsedUp(records: seq<Fetched>, offset: nat, limit: Option<nat>, skipped: nat, emitted: nat, position: nat)
    requires skipped <= offset && (emitted > 0 ==> skipped == offset) && emitted <= |Window(records, offset, limit)|
    requires position == skipped + emitted == |records|
      || (limit.Some? && skipped == offset && emitted >= limit.value && position == skipped + emitted + 1 <= |records|)
    ensures emitted == |Window(records, offset, limit)| && position == FetchedAtEnd(|records|, offset, limit)
  {
  }

  class ReadGdxGlobalState {
    const valueColumns: seq<ValueColumn>
    const uels: UelTable
    const records: seq<Fetched>
    const offset: nat
    const limit: Option<nat>

    var position: nat
    var rowsSkipped: nat
    var rowsEmitted: nat
    var rowsRead: nat
    var hasHandle: bool
    var dataReadStarted: bool
    var dataReadFinished: bool
    var handleClosed: bool
    var dataExhausted: bool
    ghost var log: seq<Event>

    ghost function Selected(): seq<Fetched> {
      Window(records, offset, limit)
    }

    /** The handle and its log, also when initialization failed before a read was started. */
    ghost predicate HandleFits()
      reads this
    {
      && Protocol(log)
      && (dataReadStarted ==> hasHandle || handleClosed)
      && (hasHandle ==> !handleClosed && Release !in log && Close(true) !in log)
      && (!dataReadFinished ==> ReadDone(true) !in log && forall e | e in log :: !e.Close?)
      && (!dataReadFinished ==> hasHandle || !dataReadStarted)
      && (!hasHandle ==> if handleClosed then Ended(log) else log == [])
    }

    /** Rows already handed out are a prefix of the window. */
    ghost predicate Valid()
      reads this
    {
      && HandleFits()
      && dataReadStarted
      && rowsEmitted <= |Selected()|
      && rowsRead <= rowsEmitted
      && (dataExhausted ==> rowsEmitted == |Selected()| && position == FetchedAtEnd(|records|, offset, limit))
      && (!dataExhausted ==>
            && hasHandle && !dataReadFinished && !handleClosed
            && (forall e | e in log :: e.Fetch?)
            && Streaming())
    }

    /** Between chunks of an unfinished scan, every record consumed was skipped or emitted. */
    ghost predicate Streaming()
      reads this
    {
      && position == rowsSkipped + rowsEmitted && position <= |records|
      && rowsSkipped <= offset && (rowsEmitted > 0 ==> rowsSkipped == offset)
      && rowsEmitted <= |Selected()|
    }

    /** The state after initialization has started the read. */
    constructor (valueColumns: seq<ValueColumn>, uels: UelTable, records: seq<Fetched>, offset: nat, limit: Option<nat>)
      ensures Valid() && !dataExhausted && rowsEmitted == 0 && log == []
      ensures this.valueColumns == valueColumns && this.uels == uels && this.records == records
      ensures this.offset == offset && this.limit == limit
    {
      this.valueColumns, this.uels, this.records, this.offset, this.limit := valueColumns, uels, records, offset, limit;
      position, rowsSkipped, rowsEmitted, rowsRead := 0, 0, 0, 0;
      hasHandle, dataReadStarted := true, true;
      dataReadFinished, handleClosed, dataExhausted := false, false, false;
      log := [];
    }

    /** The state that is left when initialization throws: the handle may exist, but no read
        was started. */
    constructor Unstarted(valueColumns: seq<ValueColumn>, uels: UelTable, offset: nat, limit: Option<nat>,
                          hasHandle: bool)
      ensures HandleFits() && !dataReadStarted && this.hasHandle == hasHandle && log == []
    {
      this.valueColumns, this.uels, this.records, this.offset, this.limit := valueColumns, uels, [], offset, limit;
      position, rowsSkipped, rowsEmitted, rowsRead := 0, 0, 0, 0;
      this.hasHandle, dataReadStarted := hasHandle, false;
      dataReadFinished, handleClosed, dataExhausted := false, false, false;
      log := [];
    }

    /** Without a started read there is nothing to end; `ok` is what the library's read-done
        answers if it is called. */
    method FinishReading(throwOnError: bool, ok: bool) returns (r: Result<(), ScanError>)
      requires HandleFits()
      modifies this`dataReadFinished, this`log
      ensures HandleFits()
      ensures r.Ok? ==> dataReadFinished
      ensures r.Err? ==> r.error == ReadDoneFailed && throwOnError && !ok && dataReadFinished == old(dataReadFinished)
      ensures throwOnError && !ok && hasHandle && dataReadStarted && !old(dataReadFinished) ==> r.Err?
      ensures log == if old(dataReadFinished) || !dataReadStarted then old(log) else old(log) + [ReadDone(ok)]
      ensures old(Valid()) && dataExhausted ==> Valid()
    {
      if !hasHandle || !dataReadStarted || dataReadFinished {
        dataReadFinished := true;
        return Ok(());
      }
      ProtocolOneMore(log, ReadDone(ok));
      log := log + [ReadDone(ok)];
      if !ok && throwOnError {
        return Err(ReadDoneFailed);
      }
      dataReadFinished := true;
      r := Ok(());
    }

    /** `ok` is what the library's close answers if it is called. */
    method CloseHandle(throwOnError: bool, ok: bool) returns (r: Result<(), ScanError>)
      requires HandleFits() && dataReadFinished
      modifies this`hasHandle, this`handleClosed, this`log
      ensures HandleFits()
      ensures r.Ok? ==> !hasHandle && (old(hasHandle) ==> handleClosed && Ended(log))
      ensures r.Err? <==> throwOnError && !ok && old(hasHandle) && !old(handleClosed)
      ensures r.Err? ==> r.error == CloseFailed && hasHandle && !handleClosed
      ensures log == old(log) + (if !old(hasHandle) then [] else if r.Err? then [Close(ok)] else [Close(ok), Release])
    {
      if !hasHandle || handleClosed {
        return Ok(());
      }
      ProtocolOneMore(log, Close(ok));
      ghost var closed := log + [Close(ok)];
      log := closed;
      if !ok && throwOnError {
        return Err(CloseFailed);
      }
      ProtocolOneMore(closed, Release);
      hasHandle := false;
      log := log + [Release];
      assert log == old(log) + [Close(ok), Release];
      handleClosed := true;
      r := Ok(());
    }

    method EndScan(doneOk: bool, closeOk: bool) returns (r: Result<(), ScanError>)
      requires Valid() && dataExhausted
      modifies this`dataReadFinished, this`hasHandle, this`handleClosed, this`log
      ensures Valid()
      ensures r.Ok? ==> !hasHandle && Ended(log)
      ensures r.Err? ==> !doneOk || !closeOk
      ensures old(hasHandle) && !old(dataReadFinished) ==> (r.Ok? <==> doneOk && closeOk)
      ensures old(hasHandle) && !old(dataReadFinished) && r.Err? ==>
        r.error == if !doneOk then ReadDoneFailed else CloseFailed
    {
      r := FinishReading(true, doneOk);
      if r.Ok? {
        r := CloseHandle(true, closeOk);
      }
    }

    /** The next record of the library's read, if there is one. */
    method FetchNext() returns (fetched: Option<Fetched>)
      requires Protocol(log) && (forall e | e in log :: e.Fetch?) && position <= |records|
      modifies this`position, this`log
      ensures Protocol(log) && forall e | e in log :: e.Fetch?
      ensures fetched == if old(position) < |records| then Some(records[old(position)]) else None
      ensures position == if fetched.Some? then old(position) + 1 else old(position)
    {
      ProtocolOneMore(log, Fetch);
      log := log + [Fetch];
      fetched := None;
      if position < |records| {
        fetched := Some(records[position]);
        position := position + 1;
      }
    }

    /** One turn of the loop: a record is skipped, emitted, or shows that the window is used up. */
    method Advance() returns (row: Option<seq<Value>>)
      requires Valid() && !dataExhausted
      modifies this`position, this`rowsSkipped, this`rowsEmitted, this`dataExhausted, this`log
      ensures Valid()
      ensures row.Some? ==> !dataExhausted && rowsEmitted == old(rowsEmitted) + 1
      ensures row.Some? ==>
        var f := Selected()[old(rowsEmitted)]; row.value == RowOf(valueColumns, uels, f.record, f.dimFrst)
      ensures row.None? ==> rowsEmitted == old(rowsEmitted)
      ensures !dataExhausted ==> old(position) < position <= |records|
    {
      var fetched := FetchNext();
      if fetched.None? {
        WindowUsedUp(records, offset, limit, rowsSkipped, rowsEmitted, position);
        dataExhausted := true;
        return None;
      }
      if rowsSkipped < offset {
        rowsSkipped := rowsSkipped + 1;
        return None;
      }
      if limit.Some? && rowsEmitted >= limit.value {
        WindowUsedUp(records, offset, limit, rowsSkipped, rowsEmitted, position);
        dataExhausted := true;
        return None;
      }
      WindowAt(records, offset, limit, rowsEmitted);
      row := Some(RowOf(valueColumns, uels, fetched.value.record, fetched.value.dimFrst));
      rowsEmitted := rowsEmitted + 1;
    }

    /** The inner loop: consumes records until the chunk is full or the window is used up. */
    method Fill(vectorSize: nat) returns (rows: seq<seq<Value>>)
      requires Valid() && !dataExhausted && vectorSize > 0
      modifies this`position, this`rowsSkipped, this`rowsEmitted, this`dataExhausted, this`log
      ensures old(rowsEmitted) <= rowsEmitted <= |Selected()|
      ensures rowsEmitted ==
        if old(rowsEmitted) + vectorSize <= |Selected()| then old(rowsEmitted) + vectorSize else |Selected()|
      ensures rows == Rows(valueColumns, uels, Selected()[old(rowsEmitted)..rowsEmitted])
      ensures dataExhausted <==> |rows| < vectorSize
      ensures Valid()
    {
      rows := [];
      while |rows| < vectorSize && !dataExhausted
        invariant Valid() && (dataExhausted ==> |rows| < vectorSize)
        invariant rowsEmitted == old(rowsEmitted) + |rows| && |rows| <= vectorSize
        invariant rows == Rows(valueColumns, uels, Selected()[old(rowsEmitted)..rowsEmitted])
        decreases !dataExhausted, |records| - position
      {
        ghost var before := rowsEmitted;
        var row := Advance();
        if row.Some? {
          RowsOneMore(valueColumns, uels, Selected(), old(rowsEmitted), before);
          rows := rows + [row.value];
        }
      }
    }

    /** One call of the table function. A chunk is the next stretch of the window; the call
        that finds the window used up also ends the read and closes the handle. */
    method ReadGdxFunction(vectorSize: nat, doneOk: bool, closeOk: bool) returns (r: Result<seq<seq<Value>>, ScanError>)
      requires Valid() && vectorSize > 0
      modifies this
      ensures Valid()
      ensures rowsEmitted ==
        if old(rowsEmitted) + vectorSize <= |Selected()| then old(rowsEmitted) + vectorSize else |Selected()|
      ensures r.Ok? ==> old(rowsEmitted) <= rowsEmitted
                        && r.value == Rows(valueColumns, uels, Selected()[old(rowsEmitted)..rowsEmitted])
      ensures dataExhausted <==> old(dataExhausted) || rowsEmitted - old(rowsEmitted) < vectorSize
      ensures old(dataExhausted) ==> r == Ok([]) && log == old(log) && position == old(position)
      ensures r.Ok? && dataExhausted && !old(dataExhausted) ==> !hasHandle
      ensures r.Err? ==> dataExhausted && r.error == if !doneOk then ReadDoneFailed else CloseFailed
      ensures dataExhausted && !old(dataExhausted) ==> (r.Ok? <==> doneOk && closeOk)
      ensures rowsRead - old(rowsRead) == rowsEmitted - old(rowsEmitted)
    {
      if dataExhausted {
        return Ok([]);
      }
      var rows := Fill(vectorSize);
      if rows == [] {
        dataExhausted := true;
        var ended := EndScan(doneOk, closeOk);
        return if ended.Ok? then Ok([]) else Err(ended.error);
      }
      rowsRead := rowsRead + |rows|;
      if dataExhausted {
        var ended := EndScan(doneOk, closeOk);
        if ended.Err? {
          return Err(ended.error);
        }
      }
      r := Ok(rows);
    }

    /** Destruction, at any point of a scan or after a failed initialization: a handle is
        released exactly once. */
    method Destroy(doneOk: bool, closeOk: bool)
      requires HandleFits()
      modifies this`dataReadFinished, this`hasHandle, this`handleClosed, this`log
      ensures !hasHandle
      ensures if old(hasHandle) || old(handleClosed) then Ended(log) else log == []
      ensures log == old(log)
        + (if old(hasHandle) && dataReadStarted && !old(dataReadFinished) then [ReadDone(doneOk)] else [])
        + (if old(hasHandle) then [Close(closeOk), Release] else [])
    {
      ghost var reading := hasHandle && dataReadStarted && !dataReadFinished;
      ghost var finishing := if reading then [ReadDone(doneOk)] else [];
      ghost var closing := if hasHandle then [Close(closeOk), Release] else [];
      var _ := FinishReading(false, doneOk);
      assert log == old(log) + finishing;
      ghost var finished := log;
      var _ := CloseHandle(false, closeOk);
      assert log == finished + closing;
    }
  }

  // ---------------------------------------------------------------- whole scans

  /** Calling the table function until the first empty chunk yields exactly the window,
      whatever the vector size. */
  method Drain(state: ReadGdxGlobalState, vectorSize: nat) returns (rows: seq<seq<Value>>, calls: nat)
    requires state.Valid() && !state.dataExhausted && state.rowsEmitted == 0 && vectorSize > 0
    modifies state
    ensures rows == Rows(state.valueColumns, state.uels, Window(state.records, state.offset, state.limit))
    ensures state.position == FetchedAtEnd(|state.records|, state.offset, state.limit)
    ensures !state.hasHandle && Ended(state.log)
    ensures (calls - 2) * vectorSize < |rows| || calls <= 2
  {
    rows, calls := [], 0;
    ghost var selected := state.Selected();
    while true
      invariant state.Valid() && state.rowsEmitted <= |selected|
      invariant rows == Rows(state.valueColumns, state.uels, selected[..state.rowsEmitted])
      invariant !state.dataExhausted ==> state.rowsEmitted == calls * vectorSize
      invariant state.dataExhausted ==> !state.hasHandle && calls > 0 && (calls - 1) * vectorSize <= |selected|
      invariant state.dataExhausted ==> rows == [] || (calls - 1) * vectorSize < |selected|
      decreases |selected| - state.rowsEmitted, !state.dataExhausted
    {
      ghost var before := state.rowsEmitted;
      var chunk := state.ReadGdxFunction(vectorSize, true, true);
      calls := calls + 1;
      if chunk.value == [] {
        break;
      }
      assert selected[..state.rowsEmitted] == selected[..before] + selected[before..state.rowsEmitted];
      rows := rows + chunk.value;
    }
    assert selected[..|selected|] == selected;
  }

  /** The same for vector sizes that change from call to call: the chunks are those of a plain
      cursor over the window. */
  method ReadChunks(state: ReadGdxGlobalState, sizes: seq<nat>) returns (chunks: seq<seq<seq<Value>>>)
    requires state.Valid() && !state.dataExhausted && state.rowsEmitted == 0 && forall n | n in sizes :: n > 0
    modifies state
    ensures state.Valid()
    ensures chunks == RowChunks(state.valueColumns, state.uels,
                                Chunks(Window(state.records, state.offset, state.limit), 0, sizes))
    ensures var window := Window(state.records, state.offset, state.limit);
      Concat(chunks) == Rows(state.valueColumns, state.uels,
                             window[..if Total(sizes) <= |window| then Total(sizes) else |window|])
  {
    chunks := [];
    ghost var columns, uels, selected := state.valueColumns, state.uels, state.Selected();
    for k := 0 to |sizes|
      invariant state.Valid() && state.rowsEmitted <= |selected|
      invariant chunks + RowChunks(columns, uels, Chunks(selected, state.rowsEmitted, sizes[k..]))
             == RowChunks(columns, uels, Chunks(selected, 0, sizes))
    {
      ghost var before, done := state.rowsEmitted, chunks;
      assert sizes[k] in sizes && sizes[k..][1..] == sizes[k + 1..];
      ChunksFirst(selected, before, sizes[k..]);
      var chunk := state.ReadGdxFunction(sizes[k], true, true);
      ghost var rest := Chunks(selected, state.rowsEmitted, sizes[k + 1..]);
      RowChunksFirst(columns, uels, selected[before..state.rowsEmitted], rest, done);
      chunks := chunks + [chunk.value];
    }
    ChunkSizeIndependence(selected, 0, sizes);
    ConcatRowChunks(columns, uels, Chunks(selected, 0, sizes));
  }

  function RowChunks(columns: seq<ValueColumn>, uels: UelTable, chunks: seq<seq<Fetched>>): (r: seq<seq<seq<Value>>>)
    ensures |r| == |chunks|
  {
    seq(|chunks|, i requires 0 <= i < |chunks| => Rows(columns, uels, chunks[i]))
  }

  lemma RowChunksFirst(columns: seq<ValueColumn>, uels: UelTable, first: seq<Fetched>, rest: seq<seq<Fetched>>,
                       before: seq<seq<seq<Value>>>)
    ensures before + RowChunks(columns, uels, [first] + rest) ==
      before + [Rows(columns, uels, first)] + RowChunks(columns, uels, rest)
  {
    assert RowChunks(columns, uels, [first] + rest) == [Rows(columns, uels, first)] + RowChunks(columns, uels, rest);
  }

  lemma {:induction false} ConcatRowChunks(columns: seq<ValueColumn>, uels: UelTable, chunks: seq<seq<Fetched>>)
    ensures Concat(RowChunks(columns, uels, chunks)) == Rows(columns, uels, Concat(chunks))
  {
    if chunks != [] {
      ConcatRowChunks(columns, uels, chunks[1..]);
      assert RowChunks(columns, uels, chunks)[1..] == RowChunks(columns, uels, chunks[1..]);
      RowsConcat(columns, uels, chunks[0], Concat(chunks[1..]));
    }
  }

  lemma RowsConcat(columns: seq<ValueColumn>, uels: UelTable, a: seq<Fetched>, b: seq<Fetched>)
    ensures Rows(columns, uels, a + b) == Rows(columns, uels, a) + Rows(columns, uels, b)
  {
  }
}
