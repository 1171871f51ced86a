/** The older buffered read: a callback the library invokes once per record until it answers
    zero. It buffers exactly the records the streaming scan emits. */
module BufferedRead {
  import opened Wrappers
  import opened Records
  import opened Scan

  /** The context the callback updates, as a value. */
  datatype Context = Context(skipRemaining: nat, emitted: nat, scanned: nat, stopRequested: bool,
                             buffered: seq<Fetched>)

  function Start(offset: nat): Context {
    Context(offset, 0, 0, false, [])
  }

  /** One callback: the new context and whether to continue. */
  function Step(c: Context, limit: Option<nat>, record: Fetched): (Context, bool) {
    var c1 := c.(scanned := c.scanned + 1);
    if c1.skipRemaining > 0 then (c1.(skipRemaining := c1.skipRemaining - 1), true)
    else if limit.Some? && c1.emitted >= limit.value then (c1.(stopRequested := true), false)
    else
      var c2 := c1.(buffered := c1.buffered + [record], emitted := c1.emitted + 1);
      if limit.Some? && c2.emitted >= limit.value then (c2.(stopRequested := true), false) else (c2, true)
  }

  /** The library's loop: records in order until the callback asks to stop. */
  function Feed(c: Context, limit: Option<nat>, records: seq<Fetched>): Context
    decreases records
  {
    if records == [] then c
    else
      var (next, proceed) := Step(c, limit, records[0]);
      if proceed then Feed(next, limit, records[1..]) else next
  }

  class FilteredReadContext {
    const limit: Option<nat>
    var skipRemaining: nat
    var emitted: nat
    var recordsScanned: nat
    var stopRequested: bool
    var bufferedRecords: seq<Fetched>

    constructor (offset: nat, limit: Option<nat>)
      ensures View() == Start(offset) && this.limit == limit
    {
      this.limit := limit;
      skipRemaining, emitted, recordsScanned, stopRequested, bufferedRecords := offset, 0, 0, false, [];
    }

    function View(): Context
      reads this
    {
      Context(skipRemaining, emitted, recordsScanned, stopRequested, bufferedRecords)
    }

    method ReadCallback(record: Fetched) returns (proceed: bool)
      modifies this
      ensures (View(), proceed) == Step(old(View()), limit, record)
    {
      recordsScanned := recordsScanned + 1;
      if skipRemaining > 0 {
        skipRemaining := skipRemaining - 1;
        return true;
      }
      if limit.Some? && emitted >= limit.value {
        stopRequested := true;
        return false;
      }
      bufferedRecords := bufferedRecords + [record];
      emitted := emitted + 1;
      if limit.Some? && emitted >= limit.value {
        stopRequested := true;
        return false;
      }
      proceed := true;
    }
  }

  /** The library's read with a callback. */
  method DataReadRawFast(context: FilteredReadContext, records: seq<Fetched>)
    modifies context
    ensures context.View() == Feed(old(context.View()), context.limit, records)
    ensures Running(old(context.View()), context.limit) ==>
      context.bufferedRecords == old(context.bufferedRecords)
        + Window(records, old(context.skipRemaining), Remaining(old(context.View()), context.limit))
  {
    if Running(context.View(), context.limit) { FeedBuffersWindow(context.View(), context.limit, records); }
    assert records[0..] == records;
    for i := 0 to |records|
      invariant Feed(old(context.View()), context.limit, records) == Feed(context.View(), context.limit, records[i..])
    {
      assert records[i..][1..] == records[i + 1..];
      var proceed := context.ReadCallback(records[i]);
      if !proceed {
        return;
      }
    }
  }

  // ---------------------------------------------------------------- equivalence

  /** A context that has not stopped yet. */
  predicate Running(c: Context, limit: Option<nat>) {
    && c.emitted == |c.buffered| && !c.stopRequested
    && (limit.Some? ==> c.emitted < limit.value || (limit.value == 0 && c.emitted == 0))
  }

  function Remaining(c: Context, limit: Option<nat>): Option<nat>
    requires Running(c, limit)
  {
    if limit.Some? then Some(limit.value - c.emitted) else None
  }

  /** From any running context, feeding records buffers the window that is left. */
  lemma {:induction false} FeedBuffersWindow(c: Context, limit: Option<nat>, records: seq<Fetched>)
    requires Running(c, limit)
    ensures Feed(c, limit, records).buffered == c.buffered + Window(records, c.skipRemaining, Remaining(c, limit))
    decreases records
  {
    if records != [] {
      var (next, proceed) := Step(c, limit, records[0]);
      var rest := records[1..];
      assert records == [records[0]] + rest;
      if proceed {
        FeedBuffersWindow(next, limit, rest);
        if c.skipRemaining > 0 {
          assert c.skipRemaining <= |records| ==> records[c.skipRemaining..] == rest[c.skipRemaining - 1..];
        } else {
          assert records[0..] == records && rest[0..] == rest;
          assert Window(records, 0, Remaining(c, limit)) == [records[0]] + Window(rest, 0, Remaining(next, limit));
        }
      } else {
        assert records[0..] == records;
        assert limit.value - c.emitted <= 1;
        assert records[..1] == [records[0]];
      }
    }
  }

  /** How many records the buffered read consumes: it stops at the record that fills the limit. */
  function ScannedAtEnd(total: nat, offset: nat, limit: Option<nat>): nat {
    if limit.None? then total
    else
      var last := offset + (if limit.value == 0 then 1 else limit.value);
      if total <= last then total else last
  }

  lemma {:induction false} FeedScans(c: Context, limit: Option<nat>, records: seq<Fetched>)
    requires Running(c, limit)
    ensures Feed(c, limit, records).scanned == c.scanned + ScannedAtEnd(|records|, c.skipRemaining, Remaining(c, limit))
    decreases records
  {
    if records != [] {
      var (next, proceed) := Step(c, limit, records[0]);
      if proceed {
        FeedScans(next, limit, records[1..]);
      }
    }
  }

  /** The callback asks to stop exactly when the limit is reached, or a record is met beyond a
      limit of zero. */
  lemma {:induction false} StopsExactly(c: Context, limit: Option<nat>, records: seq<Fetched>)
    requires Running(c, limit)
    ensures Feed(c, limit, records).stopRequested <==>
      limit.Some? && |records| > 0
      && |records| >= c.skipRemaining + (if limit.value == 0 then 1 else limit.value - c.emitted)
    decreases records
  {
    if records != [] {
      var (next, proceed) := Step(c, limit, records[0]);
      if proceed {
        StopsExactly(next, limit, records[1..]);
      }
    }
  }

  /** The buffered read keeps exactly what the streaming scan emits; the streaming scan
      consumes one record more exactly when a non-zero limit leaves records over. */
  lemma {:induction false} StreamingEqualsBuffered(records: seq<Fetched>, offset: nat, limit: Option<nat>)
    ensures var c := Feed(Start(offset), limit, records);
      && c.buffered == Window(records, offset, limit)
      && FetchedAtEnd(|records|, offset, limit) - c.scanned
           == (if limit.Some? && limit.value > 0 && |records| > offset + limit.value then 1 else 0)
  {
    FeedBuffersWindow(Start(offset), limit, records);
    FeedScans(Start(offset), limit, records);
  }
}
