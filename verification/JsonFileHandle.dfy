/** Reading a file or a pipe through JSONFileHandle: what came out of a pipe is cached, so that it can be read again
    from the start after a reset. */
module JsonFileHandle {
  import opened JsonText

  /** The file or pipe below. A read may be short; it returns 0 bytes only at the end or when asked for none. */
  class FileHandle {
    const data: Bytes
    const isPipe: bool
    var position: nat

    ghost predicate Valid()
      reads this
    {
      position <= |data|
    }

    constructor (data: Bytes, isPipe: bool)
      ensures Valid() && this.data == data && this.isPipe == isPipe && position == 0
    {
      this.data, this.isPipe, position := data, isPipe, 0;
    }

    method Read(pointer: array<char>, at: nat, size: nat) returns (n: nat)
      requires Valid() && at + size <= pointer.Length
      modifies `position, pointer
      ensures Valid() && n <= size && position == old(position) + n
      ensures n == 0 <==> size == 0 || old(position) == |data|
      ensures pointer[at..at + n] == data[old(position)..position] && pointer[..at] == old(pointer[..at])
    {
      if size == 0 || position == |data| {
        return 0;
      }
      n :| 0 < n <= size && position + n <= |data|;
      forall i | 0 <= i < n {
        pointer[at + i] := data[position + i];
      }
      position := position + n;
    }

    /** Not possible on a pipe. */
    method Reset()
      requires !isPipe
      modifies `position
      ensures position == 0
    {
      position := 0;
    }
  }

  function Concat(buffers: seq<Bytes>): Bytes {
    if buffers == [] then [] else Concat(buffers[..|buffers| - 1]) + buffers[|buffers| - 1]
  }

  function Min(a: nat, b: nat): nat { if a < b then a else b }

  class JSONFileHandle {
    const file: FileHandle
    var readPosition: nat
    var lastReadRequested: bool
    var cachedBuffers: seq<Bytes>
    var cachedSize: nat

    /** The cache holds all that was taken from a pipe; a file is at the position of the next read. */
    ghost predicate Valid()
      reads this, file
    {
      && file.Valid()
      && cachedSize == |Concat(cachedBuffers)|
      && if file.isPipe then Concat(cachedBuffers) == file.data[..file.position] && readPosition <= file.position
         else cachedBuffers == [] && readPosition == file.position
    }

    constructor (file: FileHandle)
      requires file.Valid() && file.position == 0
      ensures Valid() && this.file == file && readPosition == 0 && !lastReadRequested
    {
      this.file, readPosition, lastReadRequested, cachedBuffers, cachedSize := file, 0, false, [], 0;
    }

    /** `RequestedReadsComplete` is about the reads of a parallel scan, which this class leaves out. */
    method Reset()
      requires Valid()
      modifies this, file
      ensures Valid() && readPosition == 0 && !lastReadRequested && cachedBuffers == old(cachedBuffers)
      ensures file.isPipe ==> file.position == old(file.position)
    {
      readPosition := 0;
      lastReadRequested := false;
      if !file.isPipe {
        file.Reset();
      }
    }

    method ReadInternal(pointer: array<char>, at: nat, requestedSize: nat) returns (total: nat)
      requires file.Valid() && at + requestedSize <= pointer.Length
      modifies file, pointer
      ensures file.Valid() && total == Min(requestedSize, |file.data| - old(file.position))
      ensures file.position == old(file.position) + total
      ensures pointer[at..at + total] == file.data[old(file.position)..file.position]
      ensures pointer[..at] == old(pointer[..at])
    {
      total := 0;
      while total < requestedSize
        invariant total <= requestedSize && file.Valid() && file.position == old(file.position) + total
        invariant pointer[at..at + total] == file.data[old(file.position)..file.position]
        invariant pointer[..at] == old(pointer[..at])
      {
        ghost var before, p0 := pointer[..at + total], old(file.position);
        assert before[at..] == file.data[p0..p0 + total] && before[..at] == old(pointer[..at]);
        var readSize := file.Read(pointer, at + total, requestedSize - total);
        if readSize == 0 {
          break;
        }
        assert pointer[..at + total + readSize][..at + total] == pointer[..at + total];
        assert pointer[..at + total + readSize][at + total..] == pointer[at + total..at + total + readSize];
        Append(pointer[..at + total + readSize], before, at, file.data, p0, p0 + total, file.position);
        assert pointer[..at] == pointer[..at + total + readSize][..at];
        assert pointer[at..at + total + readSize] == pointer[..at + total + readSize][at..];
        total := total + readSize;
      }
    }

    method ReadFromCache(pointer: array<char>, at: nat, requestedSize: nat) returns (readSize: nat)
      requires at + requestedSize <= pointer.Length && readPosition <= cachedSize == |Concat(cachedBuffers)|
      modifies `readPosition, pointer
      ensures readSize == Min(requestedSize, cachedSize - old(readPosition))
      ensures readPosition == old(readPosition) + readSize
      ensures pointer[at..at + readSize] == Concat(cachedBuffers)[old(readPosition)..readPosition]
    {
      hide Concat;
      readSize := 0;
      ghost var p0, cache := readPosition, Concat(cachedBuffers);
      var totalOffset: nat, size: nat := 0, requestedSize;
      var buffers := cachedBuffers;
      NoBuffers(buffers);
      var i := 0;
      while i < |buffers|
        invariant i <= |buffers| && readSize + size == requestedSize
        invariant readPosition == p0 + readSize && readPosition <= |cache|
        invariant size == 0 || totalOffset <= readPosition
        invariant readPosition <= totalOffset || readSize == 0
        invariant totalOffset <= |cache| && Concat(buffers[..i]) == cache[..totalOffset]
        invariant pointer[at..at + readSize] == cache[p0..readPosition]
      {
        if size == 0 {
          break;
        }
        NextBuffer(buffers, i);
        var buffer := buffers[i];
        if readPosition < totalOffset + |buffer| {
          var copySize := CopyInto(pointer, at, at + readSize, size, buffer, totalOffset, readPosition, cache, p0);
          readSize, size := readSize + copySize, size - copySize;
          readPosition := readPosition + copySize;
        }
        totalOffset := totalOffset + |buffer|;
        i := i + 1;
      }
      assert buffers[..|buffers|] == buffers;
    }

    /** What the cache has for a read, if there is one. */
    method ReadCached(pointer: array<char>, requestedSize: nat) returns (fromCache: nat)
      requires Valid() && requestedSize <= pointer.Length
      modifies `readPosition, pointer
      ensures Valid() && fromCache <= requestedSize && readPosition == old(readPosition) + fromCache
      ensures file.isPipe ==> readPosition <= file.position
      ensures pointer[..fromCache] == file.data[old(readPosition)..readPosition]
      ensures fromCache < requestedSize ==> readPosition == file.position
      ensures !file.isPipe ==> fromCache == 0
    {
      hide Concat;
      EmptyCache(cachedBuffers);
      fromCache := 0;
      if cachedBuffers != [] || readPosition < cachedSize {
        fromCache := ReadFromCache(pointer, 0, requestedSize);
        SliceOfPrefix(file.data, file.position, old(readPosition), readPosition);
      }
    }

    /** False when the end was reported before. Otherwise exactly the bytes of the stream behind `readPosition`, as
        many as requested or left; a pipe is read only for what the cache does not have. */
    method Read(pointer: array<char>, requestedSize: nat) returns (ok: bool, readSize: nat)
      requires Valid() && 0 < requestedSize <= pointer.Length
      modifies this, file, pointer
      ensures Valid() && ok == !old(lastReadRequested)
      ensures !ok ==> readSize == 0 && readPosition == old(readPosition) && file.position == old(file.position)
                      && lastReadRequested
      ensures ok ==>
        && readSize == Min(requestedSize, |file.data| - old(readPosition))
        && readPosition == old(readPosition) + readSize
        && pointer[..readSize] == file.data[old(readPosition)..readPosition]
        && lastReadRequested == (readSize == 0)
        && file.position == if old(file.position) < readPosition then readPosition else old(file.position)
    {
      hide Concat;
      readSize := 0;
      if lastReadRequested {
        return false, 0;
      }
      var fromCache := ReadCached(pointer, requestedSize);
      label Cached:
      var temp := ReadInternal(pointer, fromCache, requestedSize - fromCache);
      assert pointer[..fromCache] == old@Cached(pointer[..fromCache]);
      assert pointer[..fromCache + temp] == pointer[..fromCache] + pointer[fromCache..fromCache + temp];
      if file.isPipe && temp != 0 {
        OneMore(cachedBuffers, pointer[fromCache..fromCache + temp]);
        cachedBuffers := cachedBuffers + [pointer[fromCache..fromCache + temp]];
        cachedSize := cachedSize + temp;
      }
      readPosition := readPosition + temp;
      readSize := fromCache + temp;
      if readSize == 0 {
        lastReadRequested := true;
      }
      return true, readSize;
    }
  }

  /** Bytes read behind those already there continue the stretch of `data` from p to q up to r. */
  lemma Append(bytes: Bytes, before: Bytes, at: nat, data: Bytes, p: nat, q: nat, r: nat)
    requires at <= |before| && p <= q <= r <= |data| && |bytes| == |before| + r - q
    requires bytes[..|before|] == before && before[at..] == data[p..q] && bytes[|before|..] == data[q..r]
    ensures bytes[..at] == before[..at] && bytes[at..] == data[p..r]
  {
    assert bytes == bytes[..|before|] + bytes[|before|..];
    assert data[p..r] == data[p..q] + data[q..r];
  }

  /** memcpy of what a cached buffer, which holds the bytes of the cache from `offset` on, has for `position`. */
  method CopyInto(pointer: array<char>, start: nat, at: nat, size: nat, buffer: Bytes, offset: nat, position: nat,
                  ghost cache: Bytes, ghost p: nat)
    returns (copySize: nat)
    requires start <= at && at + size <= pointer.Length && p <= position
    requires offset <= position <= offset + |buffer| <= |cache|
    requires cache[offset..offset + |buffer|] == buffer && pointer[start..at] == cache[p..position]
    modifies pointer
    ensures copySize == Min(size, offset + |buffer| - position)
    ensures pointer[start..at + copySize] == cache[p..position + copySize]
  {
    var within := position - offset;
    copySize := Min(size, |buffer| - within);
    forall i | 0 <= i < copySize {
      pointer[at + i] := buffer[within + i];
    }
    Stretch(cache, p, position, offset, buffer, copySize);
    assert pointer[start..at + copySize] == old(pointer[start..at]) + buffer[within..within + copySize];
  }

  /** The bytes copied out of a buffer are the next bytes of the cache. */
  lemma Stretch(cache: Bytes, p: nat, q: nat, offset: nat, buffer: Bytes, size: nat)
    requires offset + |buffer| <= |cache| && cache[offset..offset + |buffer|] == buffer
    requires p <= q && offset <= q && q + size <= offset + |buffer|
    ensures cache[p..q] + buffer[q - offset..q - offset + size] == cache[p..q + size]
  {
    var piece := buffer[q - offset..q - offset + size];
    assert forall i | 0 <= i < size :: piece[i] == buffer[q - offset + i] == cache[q + i];
    assert piece == cache[q..q + size];
  }

  lemma NoBuffers(buffers: seq<Bytes>)
    ensures Concat(buffers[..0]) == []
  {}

  lemma EmptyCache(buffers: seq<Bytes>)
    ensures buffers == [] ==> Concat(buffers) == []
  {}

  lemma SliceOfPrefix(data: Bytes, n: nat, p: nat, q: nat)
    requires p <= q <= n <= |data|
    ensures data[..n][p..q] == data[p..q]
  {}

  lemma OneMore(buffers: seq<Bytes>, buffer: Bytes)
    ensures Concat(buffers + [buffer]) == Concat(buffers) + buffer
  {
    assert (buffers + [buffer])[..|buffers|] == buffers;
  }

  lemma {:induction false} PrefixOfConcat(buffers: seq<Bytes>, i: nat)
    requires i <= |buffers|
    ensures Concat(buffers[..i]) <= Concat(buffers)
    decreases |buffers|
  {
    if i < |buffers| {
      var front := buffers[..|buffers| - 1];
      assert front[..i] == buffers[..i];
      PrefixOfConcat(front, i);
    } else {
      assert buffers[..i] == buffers;
    }
  }

  lemma NextBuffer(buffers: seq<Bytes>, i: nat)
    requires i < |buffers|
    ensures var before, cache := Concat(buffers[..i]), Concat(buffers);
      && |before| + |buffers[i]| <= |cache| && before == cache[..|before|]
      && Concat(buffers[..i + 1]) == cache[..|before| + |buffers[i]|]
      && buffers[i] == cache[|before|..|before| + |buffers[i]|]
  {
    PrefixOfConcat(buffers, i + 1);
    assert buffers[..i + 1][..i] == buffers[..i];
  }

  // ---- Any sequence of reads and resets ----

  datatype Call = Reset | Read(size: nat)

  /** What reads of a plain file return: a pipe has to look the same. `None` bytes, as [], once the end was seen. */
  function Expected(data: Bytes, calls: seq<Call>, position: nat, ended: bool): seq<Bytes>
    requires position <= |data|
  {
    if calls == [] then []
    else match calls[0]
      case Reset => Expected(data, calls[1..], 0, false)
      case Read(n) =>
        var end := if ended then position else position + Min(n, |data| - position);
        [data[position..end]] + Expected(data, calls[1..], end, ended || end == position)
  }

  lemma ExpectedStep(data: Bytes, calls: seq<Call>, k: nat, position: nat, ended: bool)
    requires k < |calls| && position <= |data|
    ensures Expected(data, calls[k..], position, ended) ==
      match calls[k]
      case Reset => Expected(data, calls[k + 1..], 0, false)
      case Read(n) =>
        var end := if ended then position else position + Min(n, |data| - position);
        [data[position..end]] + Expected(data, calls[k + 1..], end, ended || end == position)
  {
    assert calls[k..][1..] == calls[k + 1..];
  }

  /** Re-reading a pipe gives what re-reading the same bytes from a file would give, whatever the short reads were. */
  method Replay(handle: JSONFileHandle, calls: seq<Call>) returns (results: seq<Bytes>)
    requires handle.Valid() && handle.readPosition == 0 && !handle.lastReadRequested
    requires forall c | c in calls && c.Read? :: c.size > 0
    modifies handle, handle.file
    ensures handle.Valid() && results == Expected(handle.file.data, calls, 0, false)
  {
    hide Expected, Concat;
    results := [];
    ghost var data := handle.file.data;
    assert calls[0..] == calls;
    for k := 0 to |calls|
      invariant handle.Valid() && handle.readPosition <= |data|
      invariant results + Expected(data, calls[k..], handle.readPosition, handle.lastReadRequested) ==
        Expected(data, calls, 0, false)
    {
      ExpectedStep(data, calls, k, handle.readPosition, handle.lastReadRequested);
      match calls[k] {
        case Reset => handle.Reset();
        case Read(n) =>
          assert calls[k] in calls;
          var bytes := ReadBytes(handle, n);
          results := results + [bytes];
      }
    }
    ExpectedEnd(data, calls, handle.readPosition, handle.lastReadRequested);
  }

  lemma ExpectedEnd(data: Bytes, calls: seq<Call>, position: nat, ended: bool)
    requires position <= |data|
    ensures Expected(data, calls[|calls|..], position, ended) == []
  {}

  method ReadBytes(handle: JSONFileHandle, n: nat) returns (bytes: Bytes)
    requires handle.Valid() && n > 0 && handle.readPosition <= |handle.file.data|
    modifies handle, handle.file
    ensures handle.Valid()
    ensures var data, position := handle.file.data, old(handle.readPosition);
            var end := if old(handle.lastReadRequested) then position else position + Min(n, |data| - position);
            && handle.readPosition == end && bytes == data[position..end]
            && handle.lastReadRequested == (old(handle.lastReadRequested) || end == position)
  {
    var pointer := new char[n];
    var ok, size := handle.Read(pointer, n);
    return pointer[..size];
  }

  ghost function Requested(calls: seq<Call>): nat {
    if calls == [] then 0 else (if calls[0].Read? then calls[0].size else 0) + Requested(calls[1..])
  }

  /** Reads without a reset in between give the stream without gaps or repetitions, from wherever they start. */
  lemma {:induction false} ReadsAreContiguous(data: Bytes, calls: seq<Call>, position: nat)
    requires position <= |data| && forall c <- calls :: c.Read? && c.size > 0
    ensures Concat(Expected(data, calls, position, position == |data|))
         == data[position..position + Min(Requested(calls), |data| - position)]
    decreases |calls|
  {
    hide Concat;
    if calls == [] {
      EmptyCache([]);
    } else {
      assert calls[0] in calls;
      var n := calls[0].size;
      var end := position + Min(n, |data| - position);
      var rest := Expected(data, calls[1..], end, end == |data|);
      ReadsAreContiguous(data, calls[1..], end);
      ConcatFront(data[position..end], rest);
      EndedAtEnd(data, calls[1..]);
    }
  }

  lemma {:induction false} ConcatFront(first: Bytes, rest: seq<Bytes>)
    ensures Concat([first] + rest) == first + Concat(rest)
    decreases |rest|
  {
    var all := [first] + rest;
    if rest != [] {
      var n := |rest| - 1;
      assert all[..n + 1] == [first] + rest[..n];
      ConcatFront(first, rest[..n]);
    }
  }

  /** At the end it makes no difference whether the end has been reported. */
  lemma {:induction false} EndedAtEnd(data: Bytes, calls: seq<Call>)
    requires forall c <- calls :: c.Read?
    ensures Expected(data, calls, |data|, true) == Expected(data, calls, |data|, false)
  {
    if calls != [] {
      assert calls[0] in calls;
    }
  }
}
