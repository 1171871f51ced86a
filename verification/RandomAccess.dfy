/** RandomAccessAdapter: the object that serves the GDX library's positioned reads from a
    file handle or from another provider, and closes what it wraps exactly once. */
module RandomAccess {
  import opened Wrappers
  import opened Chunking

  type Byte = bv8

  datatype Mode = Unset | FileMode | ExternalProvider

  /** An open file that does not change. */
  datatype FileHandle = FileHandle(id: nat, content: seq<Byte>)

  /** Which callbacks a provider supplies. */
  datatype Provider = Provider(id: nat, hasReadAt: bool, hasGetSize: bool, hasClose: bool)

  // ---------------------------------------------------------------- what happens upstream

  /** Dropped ends the use of a provider that has no close callback. */
  datatype Event = Opened(id: nat) | Used(id: nat) | Closed(id: nat) | Dropped(id: nat)

  /** The upstream resource in use after a log. */
  function Live(log: seq<Event>): Option<nat> {
    if log == [] then None
    else match log[|log| - 1]
      case Opened(id) => Some(id)
      case Used(id) => Some(id)
      case Closed(_) => None
      case Dropped(_) => None
  }

  /** A resource is opened only when none is in use, and used or closed only while it is. */
  ghost predicate WellRun(log: seq<Event>) {
    log == [] ||
    var init, e := log[..|log| - 1], log[|log| - 1];
    WellRun(init) && (if e.Opened? then Live(init).None? else Live(init) == Some(e.id))
  }

  lemma WellRunOneMore(log: seq<Event>, e: Event)
    requires WellRun(log) && (if e.Opened? then Live(log).None? else Live(log) == Some(e.id))
    ensures WellRun(log + [e]) && Live(log + [e]) == if e.Opened? || e.Used? then Some(e.id) else None
  {
    assert (log + [e])[..|log|] == log;
  }

  function Openings(log: seq<Event>, id: nat): nat {
    if log == [] then 0
    else Openings(log[..|log| - 1], id) + (if log[|log| - 1] == Opened(id) then 1 else 0)
  }

  function Endings(log: seq<Event>, id: nat): nat {
    if log == [] then 0
    else
      var last := log[|log| - 1];
      Endings(log[..|log| - 1], id) + (if last == Closed(id) || last == Dropped(id) then 1 else 0)
  }

  /** Every opening is matched by one ending, except that of the resource still in use. */
  lemma {:induction false} EndedExactlyOnce(log: seq<Event>, id: nat)
    requires WellRun(log)
    ensures Openings(log, id) == Endings(log, id) + (if Live(log) == Some(id) then 1 else 0)
  {
    if log != [] {
      EndedExactlyOnce(log[..|log| - 1], id);
    }
  }

  /** Nothing is asked of a resource after its ending unless it was opened again. */
  lemma {:induction false} NoUseAfterEnd(log: seq<Event>, i: nat, j: nat)
    requires WellRun(log) && i < j < |log| && (log[i].Closed? || log[i].Dropped?) && log[j].id == log[i].id
    ensures exists k :: i < k <= j && log[k] == Opened(log[i].id)
  {
    var init := log[..|log| - 1];
    if j < |log| - 1 {
      NoUseAfterEnd(init, i, j);
      var k :| i < k <= j && init[k] == Opened(init[i].id);
      assert log[k] == Opened(log[i].id);
    } else if !(exists k :: i < k < j && log[k] == Opened(log[i].id)) {
      NotLive(init, i);
      assert log[j] == Opened(log[i].id);
    }
  }

  lemma {:induction false} NotLive(log: seq<Event>, i: nat)
    requires WellRun(log) && i < |log| && (log[i].Closed? || log[i].Dropped?)
    requires forall k :: i < k < |log| ==> log[k] != Opened(log[i].id)
    ensures Live(log) != Some(log[i].id)
  {
    if i < |log| - 1 {
      NotLive(log[..|log| - 1], i);
    }
  }

  // ---------------------------------------------------------------- reads

  function Available(size: nat, offset: nat, requested: nat): nat {
    if offset >= size then 0 else if size - offset < requested then size - offset else requested
  }

  /** A read is short only when it reaches the end of the file. */
  lemma AvailableExactly(size: nat, offset: nat, requested: nat)
    ensures var n := Available(size, offset, requested);
      && n <= requested && (n > 0 ==> offset + n <= size) && (n < requested ==> offset + n >= size)
  {
  }

  /** What a provider does with a read: the bytes it writes, and how many it says it wrote. */
  datatype Answer = Answer(bytes: seq<Byte>, reported: nat)

  datatype AdapterError = NullHandle | MissingCallbacks | NullBuffer | NotInitialized | ReadFailed

  class RandomAccessAdapter {
    var mode: Mode
    var ownedHandle: Option<FileHandle>
    var hasCachedSize: bool
    var cachedSize: nat
    var upstreamProvider: Option<Provider>
    var closed: bool
    var lastError: string
    ghost var log: seq<Event>

    ghost predicate Valid()
      reads this
    {
      && WellRun(log)
      && (mode != Unset ==> !closed)
      && (mode == Unset ==> Live(log).None?)
      && (mode == FileMode ==>
            && ownedHandle.Some? && Live(log) == Some(ownedHandle.value.id)
            && (hasCachedSize ==> cachedSize == |ownedHandle.value.content|))
      && (mode == ExternalProvider ==>
            && upstreamProvider.Some? && Live(log) == Some(upstreamProvider.value.id)
            && upstreamProvider.value.hasReadAt && upstreamProvider.value.hasGetSize)
    }

    constructor ()
      ensures Valid() && mode == Unset && log == []
    {
      mode, ownedHandle, hasCachedSize, cachedSize := Unset, None, false, 0;
      upstreamProvider, closed, lastError, log := None, false, "", [];
    }

    predicate IsInitialized()
      reads this
    {
      mode != Unset
    }

    /** The event that ends the use of whatever is wrapped now. */
    ghost function Ending(): seq<Event>
      reads this
      requires Valid()
    {
      if mode == FileMode then [Closed(ownedHandle.value.id)]
      else if mode == ExternalProvider then
        var provider := upstreamProvider.value;
        [if provider.hasClose then Closed(provider.id) else Dropped(provider.id)]
      else []
    }

    /** Records that something is asked of what is wrapped. */
    ghost method LogUse(id: nat)
      requires Valid() && Live(log) == Some(id)
      modifies this`log
      ensures Valid() && log == old(log) + [Used(id)]
    {
      WellRunOneMore(log, Used(id));
      log := log + [Used(id)];
    }

    method CloseInternal()
      requires Valid()
      modifies this
      ensures Valid() && mode == Unset && closed
      ensures log == old(log) + old(Ending())
      ensures old(closed) ==> log == old(log)
      ensures old(mode) == FileMode ==> log == old(log) + [Closed(old(ownedHandle).value.id)]
      ensures old(mode) == ExternalProvider && old(upstreamProvider).value.hasClose ==>
        log == old(log) + [Closed(old(upstreamProvider).value.id)]
      ensures old(mode) == Unset ==> log == old(log)
    {
      if closed {
        return;
      }
      match mode {
        case FileMode =>
          if ownedHandle.Some? {
            WellRunOneMore(log, Closed(ownedHandle.value.id));
            log := log + [Closed(ownedHandle.value.id)];
          }
          ownedHandle := None;
        case ExternalProvider =>
          var provider := upstreamProvider.value;
          ghost var ending := if provider.hasClose then Closed(provider.id) else Dropped(provider.id);
          WellRunOneMore(log, ending);
          log := log + [ending];
          upstreamProvider := None;
        case Unset =>
      }
      hasCachedSize, cachedSize, lastError := false, 0, "";
      mode, closed := Unset, true;
    }

    method Reset()
      requires Valid()
      modifies this
      ensures Valid() && mode == Unset && !closed && ownedHandle.None? && upstreamProvider.None?
      ensures log == old(log) + old(Ending())
    {
      CloseInternal();
      ownedHandle, hasCachedSize, cachedSize := None, false, 0;
      upstreamProvider, mode, closed, lastError := None, Unset, false, "";
    }

    /** A rejected handle leaves the adapter as it was; an accepted one is installed after the
        previous resource has been closed. */
    method InitializeFromFileHandle(newHandle: Option<FileHandle>) returns (r: Result<(), AdapterError>)
      requires Valid()
      modifies this
      ensures Valid()
      ensures newHandle.None? ==> r == Err(NullHandle) && log == old(log) && mode == old(mode)
      ensures newHandle.None? ==> ownedHandle == old(ownedHandle) && upstreamProvider == old(upstreamProvider)
      ensures newHandle.Some? ==> r == Ok(()) && mode == FileMode && ownedHandle == newHandle
      ensures newHandle.Some? ==> log == old(log) + old(Ending()) + [Opened(newHandle.value.id)]
    {
      if newHandle.None? {
        return Err(NullHandle);
      }
      Reset();
      WellRunOneMore(log, Opened(newHandle.value.id));
      ownedHandle, mode, closed := newHandle, FileMode, false;
      hasCachedSize, cachedSize, lastError := false, 0, "";
      log := log + [Opened(newHandle.value.id)];
      r := Ok(());
    }

    method InitializeFromProvider(provider: Provider) returns (r: Result<(), AdapterError>)
      requires Valid()
      modifies this
      ensures Valid()
      ensures r.Ok? <==> provider.hasReadAt && provider.hasGetSize
      ensures r.Err? ==> log == old(log) && mode == old(mode)
      ensures r.Err? ==> ownedHandle == old(ownedHandle) && upstreamProvider == old(upstreamProvider)
      ensures r.Ok? ==> mode == ExternalProvider && upstreamProvider == Some(provider)
      ensures r.Ok? ==> log == old(log) + old(Ending()) + [Opened(provider.id)]
    {
      if !provider.hasReadAt || !provider.hasGetSize {
        return Err(MissingCallbacks);
      }
      Reset();
      WellRunOneMore(log, Opened(provider.id));
      upstreamProvider, mode, closed := Some(provider), ExternalProvider, false;
      hasCachedSize, cachedSize, lastError := false, 0, "";
      log := log + [Opened(provider.id)];
      r := Ok(());
    }

    /** One positioned read. `sizeFails`, `readFails` and `answer` are what the file system or
        the provider does when asked; what a provider reports is passed on as it is. */
    method ReadAt(offset: nat, dst: array<Byte>, requested: nat, sizeFails: bool, readFails: bool,
                  answer: Option<Answer>)
      returns (ok: bool, outRead: nat)
      requires Valid() && requested <= dst.Length && (answer.Some? ==> |answer.value.bytes| <= requested)
      modifies this`hasCachedSize, this`cachedSize, this`lastError, this`log, dst
      ensures Valid()
      ensures ok <==> lastError == ""
      ensures !ok ==> outRead == 0 && dst[..] == old(dst[..])
      ensures forall i :: requested <= i < dst.Length ==> dst[i] == old(dst[i])
      ensures mode == Unset ==> !ok && log == old(log)
      ensures mode != Unset && requested == 0 ==> ok && outRead == 0 && log == old(log) && dst[..] == old(dst[..])
      ensures mode == FileMode && requested > 0 ==>
        (ok <==> (old(hasCachedSize) || !sizeFails) && (offset >= |ownedHandle.value.content| || !readFails))
      ensures mode == FileMode && ok ==>
        var content := ownedHandle.value.content;
        && outRead == Available(|content|, offset, requested)
        && (outRead > 0 ==> dst[..outRead] == content[offset..offset + outRead])
        && forall i :: outRead <= i < dst.Length ==> dst[i] == old(dst[i])
      ensures mode == ExternalProvider && requested > 0 ==> (ok <==> answer.Some?)
      ensures mode == ExternalProvider && requested > 0 && ok ==>
        var written := answer.value.bytes;
        && outRead == answer.value.reported && dst[..|written|] == written
        && forall i :: |written| <= i < dst.Length ==> dst[i] == old(dst[i])
      ensures log == old(log) || (Live(old(log)).Some? && log == old(log) + [Used(Live(old(log)).value)])
    {
      outRead, lastError := 0, "";
      if !IsInitialized() {
        lastError := "RandomAccessAdapter used before initialization";
        return false, 0;
      }
      if requested == 0 {
        return true, 0;
      }
      match mode {
        case FileMode =>
          var handle := ownedHandle.value;
          LogUse(handle.id);
          if !hasCachedSize {
            if sizeFails {
              lastError := "size query failed";
              return false, 0;
            }
            cachedSize := |handle.content|;
            hasCachedSize := true;
          }
          var fileSize := cachedSize;
          if offset >= fileSize {
            return true, 0;
          }
          var remaining := fileSize - offset;
          var toRead := if remaining < requested then remaining else requested;
          if readFails {
            lastError := "read failed";
            return false, 0;
          }
          CopyInto(dst, handle.content[offset..offset + toRead]);
          return true, toRead;
        case ExternalProvider =>
          var provider := upstreamProvider.value;
          LogUse(provider.id);
          if answer.None? {
            lastError := "Upstream random-access read failed";
            return false, 0;
          }
          CopyInto(dst, answer.value.bytes);
          return true, answer.value.reported;
      }
    }

    /** The size a caller is told: in file mode always the length of the file. */
    method QuerySize(sizeFails: bool, answer: Option<nat>) returns (size: Option<nat>)
      requires Valid()
      modifies this`hasCachedSize, this`cachedSize, this`lastError, this`log
      ensures Valid()
      ensures mode == Unset ==> size.None? && log == old(log)
      ensures mode == FileMode ==> size == None || size == Some(|ownedHandle.value.content|)
      ensures mode == FileMode && (!sizeFails || old(hasCachedSize)) ==> size.Some?
      ensures mode == ExternalProvider ==> size == answer
      ensures log == old(log) || (Live(old(log)).Some? && log == old(log) + [Used(Live(old(log)).value)])
    {
      lastError := "";
      match mode {
        case Unset =>
          lastError := "RandomAccessAdapter used before initialization";
          return None;
        case FileMode =>
          if !hasCachedSize {
            LogUse(ownedHandle.value.id);
            if sizeFails {
              lastError := "size query failed";
              return None;
            }
            cachedSize := |ownedHandle.value.content|;
            hasCachedSize := true;
          }
          return Some(cachedSize);
        case ExternalProvider =>
          LogUse(upstreamProvider.value.id);
          if answer.None? {
            lastError := "Upstream random-access size query failed";
          }
          return answer;
      }
    }

    /** The public read: errors become exceptions. A read of nothing asks for nothing, a file
        yields the bytes at the offset, and a provider's answer is passed on. */
    method Read(buffer: array?<Byte>, offset: nat, size: nat, sizeFails: bool, readFails: bool, answer: Option<Answer>)
      returns (r: Result<nat, AdapterError>)
      requires Valid() && (buffer != null ==> size <= buffer.Length)
      requires answer.Some? ==> |answer.value.bytes| <= size
      modifies this`hasCachedSize, this`cachedSize, this`lastError, this`log, buffer
      ensures Valid()
      ensures buffer == null && size > 0 ==> r == Err(NullBuffer) && log == old(log)
      ensures mode == Unset && !(buffer == null && size > 0) ==> r == Err(NotInitialized)
      ensures mode != Unset && size == 0 ==> r == Ok(0) && log == old(log)
      ensures mode == FileMode && buffer != null && size > 0 ==>
        var content := ownedHandle.value.content;
        var works := (old(hasCachedSize) || !sizeFails) && (offset >= |content| || !readFails);
        && r == (if works then Ok(Available(|content|, offset, size)) else Err(ReadFailed))
        && (r.Ok? && r.value > 0 ==> buffer[..r.value] == content[offset..offset + r.value])
      ensures mode == ExternalProvider && buffer != null && size > 0 ==>
        && r == (if answer.Some? then Ok(answer.value.reported) else Err(ReadFailed))
        && (r.Ok? ==> buffer[..|answer.value.bytes|] == answer.value.bytes)
      ensures r.Err? && buffer != null ==> buffer[..] == old(buffer[..])
    {
      if buffer == null && size > 0 {
        return Err(NullBuffer);
      }
      if !IsInitialized() {
        return Err(NotInitialized);
      }
      if size == 0 {
        return Ok(0);
      }
      var ok, outRead := ReadAt(offset, buffer, size, sizeFails, readFails, answer);
      r := if ok then Ok(outRead) else Err(ReadFailed);
    }

    /** Destruction closes what is still open. */
    method Destroy()
      requires Valid()
      modifies this
      ensures WellRun(log) && Live(log).None? && log == old(log) + old(Ending())
    {
      CloseInternal();
    }
  }

  method CopyInto(dst: array<Byte>, bytes: seq<Byte>)
    requires |bytes| <= dst.Length
    modifies dst
    ensures dst[..|bytes|] == bytes
    ensures forall i :: |bytes| <= i < dst.Length ==> dst[i] == old(dst[i])
  {
    for k := 0 to |bytes|
      invariant dst[..k] == bytes[..k]
      invariant forall i :: k <= i < dst.Length ==> dst[i] == old(dst[i])
    {
      dst[k] := bytes[k];
      assert bytes[..k + 1] == bytes[..k] + [bytes[k]];
    }
    assert bytes[..|bytes|] == bytes;
  }

  /** Successive reads of any sizes join to a prefix of the file as long as the sizes asked
      for. An empty block of a positive size comes exactly when a block is asked for after the
      whole file has been read. */
  method ReadBlocks(adapter: RandomAccessAdapter, buffer: array<Byte>, sizes: seq<nat>)
    returns (bytes: seq<Byte>, ended: bool)
    requires adapter.Valid() && adapter.mode == FileMode
    requires forall n | n in sizes :: 0 < n <= buffer.Length
    modifies adapter, buffer
    ensures adapter.Valid() && adapter.mode == FileMode && adapter.ownedHandle == old(adapter.ownedHandle)
    ensures var content := adapter.ownedHandle.value.content;
      && bytes == content[..Available(|content|, 0, Total(sizes))]
      && (ended <==> sizes != [] && Total(sizes[..|sizes| - 1]) >= |content|)
      && (ended ==> bytes == content)
  {
    bytes, ended := [], false;
    ghost var content := adapter.ownedHandle.value.content;
    for k := 0 to |sizes|
      invariant adapter.Valid() && adapter.mode == FileMode && adapter.ownedHandle == old(adapter.ownedHandle)
      invariant bytes == content[..Available(|content|, 0, Total(sizes[..k]))]
      invariant ended <==> k > 0 && Total(sizes[..k - 1]) >= |content|
    {
      assert sizes[k] in sizes && sizes[..k + 1][..k] == sizes[..k];
      if k > 0 { TotalGrows(sizes, k); }
      assert sizes[..k + 1] == sizes[..k] + [sizes[k]];
      TotalOneMore(sizes[..k], sizes[k]);
      var _, outRead := adapter.ReadAt(|bytes|, buffer, sizes[k], false, false, None);
      NextBlock(content, Total(sizes[..k]), sizes[k]);
      if outRead == 0 {
        ended := true;
      } else {
        bytes := bytes + buffer[..outRead];
      }
    }
    assert sizes[..|sizes|] == sizes;
    if sizes != [] { TotalGrows(sizes, |sizes|); }
  }

  /** What is available after `total` bytes and one more block. */
  lemma NextBlock(content: seq<Byte>, total: nat, n: nat)
    ensures var at := Available(|content|, 0, total);
      var more := Available(|content|, at, n);
      && Available(|content|, 0, total + n) == at + more
      && content[..at + more] == content[..at] + content[at..at + more]
  {
  }

  lemma TotalGrows(sizes: seq<nat>, k: nat)
    requires 0 < k <= |sizes|
    ensures Total(sizes[..k - 1]) <= Total(sizes[..k])
  {
    assert sizes[..k] == sizes[..k - 1] + [sizes[k - 1]];
    TotalOneMore(sizes[..k - 1], sizes[k - 1]);
  }
}
