/** Cursors that hand out a sequence in chunks of at most a given size per call. */
module Chunking {

  /** The chunks a cursor hands out for a list of vector sizes, one per call. */
  function Chunks<T>(selected: seq<T>, emitted: nat, sizes: seq<nat>): seq<seq<T>>
    requires emitted <= |selected|
    decreases sizes
  {
    if sizes == [] then []
    else
      var next := if emitted + sizes[0] <= |selected| then emitted + sizes[0] else |selected|;
      [selected[emitted..next]] + Chunks(selected, next, sizes[1..])
  }

  lemma ChunksFirst<T>(selected: seq<T>, emitted: nat, sizes: seq<nat>)
    requires emitted <= |selected| && sizes != []
    ensures var next := if emitted + sizes[0] <= |selected| then emitted + sizes[0] else |selected|;
      && Chunks(selected, emitted, sizes) == [selected[emitted..next]] + Chunks(selected, next, sizes[1..])
      && |Chunks(selected, emitted, sizes)| == |sizes|
    decreases sizes
  {
    var next := if emitted + sizes[0] <= |selected| then emitted + sizes[0] else |selected|;
    if sizes[1..] != [] { ChunksFirst(selected, next, sizes[1..]); }
  }

  function Concat<T>(chunks: seq<seq<T>>): seq<T> {
    if chunks == [] then [] else chunks[0] + Concat(chunks[1..])
  }

  function Total(sizes: seq<nat>): nat {
    if sizes == [] then 0 else sizes[0] + Total(sizes[1..])
  }

  lemma {:induction false} TotalOneMore(sizes: seq<nat>, last: nat)
    ensures Total(sizes + [last]) == Total(sizes) + last
  {
    if sizes == [] {
      assert [] + [last] == [last] && [last][1..] == [];
    } else {
      assert (sizes + [last])[1..] == sizes[1..] + [last];
      TotalOneMore(sizes[1..], last);
    }
  }

  /** Chunk sizes do not matter, not even when they change from call to call: the chunks
      concatenate to what was selected, cut off where the sizes end. */
  lemma {:induction false} ChunkSizeIndependence<T>(selected: seq<T>, emitted: nat, sizes: seq<nat>)
    requires emitted <= |selected|
    ensures Concat(Chunks(selected, emitted, sizes)) ==
      selected[emitted..if emitted + Total(sizes) <= |selected| then emitted + Total(sizes) else |selected|]
    decreases sizes
  {
    if sizes != [] {
      var next := if emitted + sizes[0] <= |selected| then emitted + sizes[0] else |selected|;
      ChunkSizeIndependence(selected, next, sizes[1..]);
      var chunks := Chunks(selected, emitted, sizes);
      assert chunks[0] == selected[emitted..next] && chunks[1..] == Chunks(selected, next, sizes[1..]);
    }
  }
}
