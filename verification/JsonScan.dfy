/** The whole-file scan of json_reader.cpp (SCAN_ENTIRE_FILE): one scanner reads the file piece by piece
    and carries the unfinished end of each buffer to the front of the next one. */
module JsonScan {
  import opened Wrappers
  import opened JsonText
  import opened JsonSplit

  const STANDARD_VECTOR_SIZE: nat := 2048
  const YYJSON_PADDING_SIZE: nat := 4

  /** How a call ends: with units, at the end of the file, or with one of the two errors it can throw. */
  datatype Outcome = Delivered | Exhausted | ParseError | ObjectTooLarge

  method SkipWhitespace(buffer: array<char>, start: nat, size: nat) returns (offset: nat)
    requires start <= size <= buffer.Length
    ensures start <= offset <= size
    ensures buffer[offset..size] == TrimLeft(buffer[start..size])
  {
    offset := start;
    while offset != size
      invariant start <= offset <= size
      invariant TrimLeft(buffer[offset..size]) == TrimLeft(buffer[start..size])
      decreases size - offset
    {
      if !IsSpace(buffer[offset]) {
        break;
      }
      assert buffer[offset..size][1..] == buffer[offset + 1..size];
      offset := offset + 1;
    }
  }

  method TrimWhitespace(line: Bytes) returns (trimmed: Bytes)
    ensures trimmed == TrimRight(TrimLeft(line))
  {
    trimmed := TrimFront(line);
    ghost var t := trimmed;
    var size := |trimmed|;
    assert t[..size] == t;
    while size != 0 && IsSpace(trimmed[size - 1])
      invariant size <= |t| && TrimRight(t[..size]) == TrimRight(t)
    {
      assert t[..size][..size - 1] == t[..size - 1];
      size := size - 1;
    }
    trimmed := trimmed[..size];
  }

  method TrimFront(line: Bytes) returns (trimmed: Bytes)
    ensures trimmed == TrimLeft(line)
  {
    var pointer := 0;
    while pointer != |line| && IsSpace(line[pointer])
      invariant pointer <= |line| && TrimLeft(line[pointer..]) == TrimLeft(line)
      decreases |line| - pointer
    {
      assert line[pointer..][1..] == line[pointer + 1..];
      pointer := pointer + 1;
    }
    trimmed := line[pointer..];
  }

  method NextNewline(buffer: array<char>, start: nat, size: nat) returns (end: Option<nat>)
    requires start + size <= buffer.Length
    ensures end == Displaced(NewlineAt(buffer[start..start + size]), start)
  {
    ghost var s := buffer[start..start + size];
    var i := start;
    while i < start + size
      invariant start <= i <= start + size
      invariant '\n' !in s[..i - start]
    {
      assert buffer[i] == s[i - start];
      if buffer[i] == '\n' {
        return Some(i);
      }
      assert s[..i + 1 - start] == s[..i - start] + [s[i - start]];
      i := i + 1;
    }
    assert s[..|s|] == s;
    end := None;
  }

  /** What the parser finds in the text behind an offset; positions are relative to that offset. */
  datatype Found =
    | Unit(text: Bytes, next: nat)  // a unit that parses, trimmed, and where the next one may start
    | Tail(start: nat)              // an unfinished value that belongs to the next buffer
    | Nothing
    | Malformed
    | TooLarge

  method FindEnd(format: Format, buffer: array<char>, jsonStart: nat, remaining: nat) returns (jsonEnd: Option<nat>)
    requires remaining > 0 && jsonStart + remaining <= buffer.Length && !IsSpace(buffer[jsonStart])
    ensures jsonEnd == Displaced(Cut(format, buffer[jsonStart..jsonStart + remaining]), jsonStart)
  {
    if format.NewlineDelimited? {
      jsonEnd := NextNewline(buffer, jsonStart, remaining);
    } else {
      jsonEnd := NextJSON(buffer, jsonStart, remaining);
    }
  }

  function FoundIn(format: Format, parses: Bytes -> bool, last: bool, max: nat, s: Bytes): (found: Found)
    ensures found.Unit? ==> 0 < found.next <= |s|
    ensures found.Tail? ==> found.start <= |s|
  {
    var t := TrimLeft(s);
    var start := |s| - |t|;
    if t == [] then Nothing
    else
      var cut := Cut(format, t);
      if cut.None? && |t| > max then TooLarge
      else if cut.None? && !last then Tail(start)
      else
        var size := UnitSize(format, t);
        if size == 0 || !parses(t[..size]) then Malformed
        else Unit(TrimRight(t[..size]), |s| - |TrimLeft(t[size..])|)
  }

  function UnitSize(format: Format, t: Bytes): nat
    requires t != []
  {
    if Cut(format, t).Some? then Cut(format, t).value else |t|
  }

  // ---- What taking one unit does to the text t that is read and to the text that is not read yet ----

  lemma TrimLeftNothing(s: Bytes)
    requires s == [] || !IsSpace(s[0])
    ensures TrimLeft(s) == s
  {}

  lemma SkipSpaceAhead(format: Format, parses: Bytes -> bool, max: nat, t: Bytes, unread: Bytes)
    ensures Split(format, parses, t + unread) == Split(format, parses, TrimLeft(t) + unread)
    ensures Fits(format, t + unread, max) == Fits(format, TrimLeft(t) + unread, max)
  {
    TrimLeftConcat(t, unread);
    TrimLeftConcat(TrimLeft(t), unread);
    TrimLeftNothing(TrimLeft(t));
    hide TrimLeft;
    ConsumeAfterSpace(format, parses, t + unread, TrimLeft(t) + unread);
  }

  /** A unit whose end is visible in t. */
  lemma TakeCut(format: Format, parses: Bytes -> bool, max: nat, t: Bytes, unread: Bytes, size: nat)
    requires t != [] && !IsSpace(t[0]) && Cut(format, t) == Some(size)
    ensures size == 0 || !parses(t[..size]) ==> Split(format, parses, t + unread).failed
    ensures size != 0 && parses(t[..size]) ==>
      Leads(format, parses, max, t + unread, [TrimRight(t[..size])], TrimLeft(t[size..]) + unread)
  {
    var whole := t + unread;
    CutGrows(format, t, whole);
    TrimLeftNothing(whole);
    ConsumeUnit(format, parses, whole, whole, size);
    assert whole[..size] == t[..size] && whole[size..] == t[size..] + unread;
    SkipSpaceAhead(format, parses, max, t[size..], unread);
    hide Consume, Cut, TrimLeft, TrimRight;
    CloseAfterPrepend(parses, [TrimRight(t[..size])], Consume(format, parses, whole[size..]));
  }

  /** The unfinished end of the last buffer. */
  lemma TakeRest(format: Format, parses: Bytes -> bool, t: Bytes)
    requires t != [] && !IsSpace(t[0]) && Cut(format, t).None?
    ensures Split(format, parses, t)
         == if !parses(t) then Progress([], [], true)
            else Prepend([TrimRight(t)], Split(format, parses, []))
  {
    TrimLeftNothing(t);
    ConsumeNothing(format, parses, t, t);
  }

  lemma TooLargeAhead(format: Format, parses: Bytes -> bool, max: nat, t: Bytes, unread: Bytes)
    requires t != [] && !IsSpace(t[0]) && Cut(format, t).None? && |t| > max
    ensures !Fits(format, t + unread, max)
  {
    TrimLeftNothing(t);
    ConsumeNothing(format, parses, t, t);
    if Fits(format, t + unread, max) {
      RestFits(format, parses, t, unread, max);
    }
  }

  /** `taken` units lead from pending text `before` to pending text `after`. */
  ghost predicate Leads(format: Format, parses: Bytes -> bool, max: nat,
                        before: Bytes, taken: seq<Bytes>, after: Bytes)
  {
    && Split(format, parses, before) == Prepend(taken, Split(format, parses, after))
    && (Fits(format, before, max) ==> Fits(format, after, max))
  }

  lemma LeadsNowhere(format: Format, parses: Bytes -> bool, max: nat, s: Bytes)
    ensures Leads(format, parses, max, s, [], s)
  {
    hide Split, Fits;
    assert [] + Split(format, parses, s).units == Split(format, parses, s).units;
  }

  lemma LeadsOn(format: Format, parses: Bytes -> bool, max: nat,
                a: Bytes, u: seq<Bytes>, b: Bytes, v: seq<Bytes>, c: Bytes)
    requires Leads(format, parses, max, a, u, b) && Leads(format, parses, max, b, v, c)
    ensures Leads(format, parses, max, a, u + v, c)
  {
    hide Split, Fits;
    PrependTwice(u, v, Split(format, parses, c));
  }

  ghost predicate Explains(found: Found, format: Format, parses: Bytes -> bool, last: bool, max: nat,
                           t: Bytes, unread: Bytes)
  {
    match found
    case Unit(text, next) => next <= |t| && Leads(format, parses, max, t + unread, [text], t[next..] + unread)
    case Tail(start) =>
      !last && |t| - max <= start <= |t| && Leads(format, parses, max, t + unread, [], t[start..] + unread)
    case Nothing => Leads(format, parses, max, t + unread, [], unread)
    case Malformed => Split(format, parses, t + unread).failed
    case TooLarge => !Fits(format, t + unread, max)
  }

  /** What was found is the next unit of everything that is still to be delivered. */
  lemma FoundIsNext(format: Format, parses: Bytes -> bool, last: bool, max: nat, s: Bytes, unread: Bytes)
    requires last ==> unread == []
    ensures Explains(FoundIn(format, parses, last, max, s), format, parses, last, max, s, unread)
  {
    var t := TrimLeft(s);
    TrimLeftIsSuffix(s);
    SkipSpaceAhead(format, parses, max, s, unread);
    LeadsNowhere(format, parses, max, t + unread);
    assert s[|s| - |t|..] == t;
    if t == [] {
      assert [] + unread == unread;
    } else if Cut(format, t).Some? {
      FoundCut(format, parses, last, max, s, t, unread);
    } else {
      FoundNoCut(format, parses, last, max, s, t, unread);
    }
  }

  lemma FoundCut(format: Format, parses: Bytes -> bool, last: bool, max: nat, s: Bytes, t: Bytes, unread: Bytes)
    requires t == TrimLeft(s) != [] && Cut(format, t).Some?
    requires Split(format, parses, s + unread) == Split(format, parses, t + unread)
    requires Fits(format, s + unread, max) == Fits(format, t + unread, max)
    ensures Explains(FoundIn(format, parses, last, max, s), format, parses, last, max, s, unread)
  {
    hide Split, Fits, Cut, TrimLeft, TrimRight, Leads, FoundIn;
    var size := Cut(format, t).value;
    var rest := TrimLeft(t[size..]);
    TakeCut(format, parses, max, t, unread, size);
    FoundUnit(format, parses, last, max, s, t);
    if size != 0 && parses(t[..size]) {
      LeadsFrom(format, parses, max, s + unread, t + unread, [TrimRight(t[..size])], rest + unread);
      NextStart(s, t, size, rest);
    }
  }

  lemma NextStart(s: Bytes, t: Bytes, size: nat, rest: Bytes)
    requires t == TrimLeft(s) && size <= |t| && rest == TrimLeft(t[size..])
    ensures |rest| <= |s| && s[|s| - |rest|..] == rest
  {
    hide TrimLeft;
    TrimLeftIsSuffix(s);
    TrimLeftIsSuffix(t[size..]);
    SuffixOfDrop(rest, t, size, s);
  }

  lemma FoundUnit(format: Format, parses: Bytes -> bool, last: bool, max: nat, s: Bytes, t: Bytes)
    requires t == TrimLeft(s) != [] && Cut(format, t).Some?
    ensures var size := Cut(format, t).value;
            FoundIn(format, parses, last, max, s)
            == if size == 0 || !parses(t[..size]) then Malformed
               else Unit(TrimRight(t[..size]), |s| - |TrimLeft(t[size..])|)
  {
    hide Cut, TrimLeft, TrimRight;
  }

  lemma LeadsFrom(format: Format, parses: Bytes -> bool, max: nat, s: Bytes, t: Bytes, u: seq<Bytes>, c: Bytes)
    requires Leads(format, parses, max, t, u, c)
    requires Split(format, parses, s) == Split(format, parses, t) && Fits(format, s, max) == Fits(format, t, max)
    ensures Leads(format, parses, max, s, u, c)
  {
    hide Split, Fits;
  }

  lemma FoundNoCut(format: Format, parses: Bytes -> bool, last: bool, max: nat, s: Bytes, t: Bytes, unread: Bytes)
    requires t == TrimLeft(s) != [] && Cut(format, t).None?
    requires Split(format, parses, s + unread) == Split(format, parses, t + unread)
    requires Fits(format, s + unread, max) == Fits(format, t + unread, max)
    requires last ==> unread == []
    ensures Explains(FoundIn(format, parses, last, max, s), format, parses, last, max, s, unread)
  {
    TrimLeftIsSuffix(s);
    assert s[|s| - |t|..] == t;
    if |t| > max {
      TooLargeAhead(format, parses, max, t, unread);
    } else if last {
      TakeRest(format, parses, t);
      assert t + unread == t && t[..|t|] == t;
      assert TrimLeft(t[|t|..]) == [] && s[|s|..] + unread == [];
    } else {
      hide Split, Fits;
      LeadsNowhere(format, parses, max, t + unread);
    }
  }

  lemma LeadsToFailure(format: Format, parses: Bytes -> bool, max: nat, before: Bytes, taken: seq<Bytes>, after: Bytes)
    requires Leads(format, parses, max, before, taken, after)
    ensures Split(format, parses, after).failed ==> Split(format, parses, before).failed
    ensures !Fits(format, after, max) ==> !Fits(format, before, max)
  {}

  /** `taken` was delivered of `all` so far, and t with the unread text is what is left of it. */
  lemma ChunkStep(format: Format, parses: Bytes -> bool, last: bool, max: nat,
                  all: Bytes, taken: seq<Bytes>, t: Bytes, unread: Bytes)
    requires Leads(format, parses, max, all, taken, t + unread) && (last ==> unread == [])
    ensures var found := FoundIn(format, parses, last, max, t);
      && (found.Unit? ==> Leads(format, parses, max, all, taken + [found.text], t[found.next..] + unread))
      && (found.Tail? ==>
            !last && |t| - max <= found.start && Leads(format, parses, max, all, taken, t[found.start..] + unread))
      && (found.Nothing? ==> Leads(format, parses, max, all, taken, [] + unread))
      && (found.Malformed? ==> Split(format, parses, all).failed)
      && (found.TooLarge? ==> !Fits(format, all, max))
  {
    hide Split, Fits, Leads, FoundIn;
    FoundIsNext(format, parses, last, max, t, unread);
    LeadsToFailure(format, parses, max, all, taken, t + unread);
    var found := FoundIn(format, parses, last, max, t);
    assert [] + unread == unread && taken + [] == taken;
    if found.Unit? {
      LeadsOn(format, parses, max, all, taken, t + unread, [found.text], t[found.next..] + unread);
    } else if found.Tail? {
      LeadsOn(format, parses, max, all, taken, t + unread, [], t[found.start..] + unread);
    } else if found.Nothing? {
      LeadsOn(format, parses, max, all, taken, t + unread, [], unread);
    }
  }

  lemma CutSlice(a: array<char>, i: nat, j: nat, k: nat)
    requires i <= j <= k <= a.Length
    ensures a[i..k][..j - i] == a[i..j] && a[i..k][j - i..] == a[j..k]
  {}

  lemma FoundShape(format: Format, parses: Bytes -> bool, last: bool, max: nat, s: Bytes)
    ensures var found := FoundIn(format, parses, last, max, s);
            found.Tail? ==> !last && |s| <= found.start + max
  {
    hide Cut, TrimLeft, TrimRight;
  }

  method NextUnit(format: Format, parses: Bytes -> bool, last: bool, max: nat,
                  buffer: array<char>, offset: nat, size: nat) returns (found: Found)
    requires offset <= size <= buffer.Length
    ensures found == FoundIn(format, parses, last, max, buffer[offset..size])
  {
    hide TrimLeft, TrimRight, Cut;
    ghost var s := buffer[offset..size];
    var jsonStart := SkipWhitespace(buffer, offset, size);
    ghost var t := TrimLeft(s);
    var remaining := size - jsonStart;
    if remaining == 0 {
      return Nothing;
    }
    assert t[0] == buffer[jsonStart];
    var jsonEnd := FindEnd(format, buffer, jsonStart, remaining);
    assert jsonStart + remaining == size;
    var jsonSize := remaining;
    if jsonEnd.Some? {
      jsonSize := jsonEnd.value - jsonStart;
    } else {
      if remaining > max {
        return TooLarge;
      }
      if !last {
        return Tail(jsonStart - offset);
      }
    }
    assert jsonSize == UnitSize(format, t);
    found := ParseUnit(parses, buffer, jsonStart, jsonSize, size);
    if found.Unit? {
      found := Unit(found.text, jsonStart - offset + found.next);
    }
  }

  /** ParseJSON on the unit at jsonStart, and the white space skipped behind it. */
  method ParseUnit(parses: Bytes -> bool, buffer: array<char>, jsonStart: nat, jsonSize: nat, size: nat)
    returns (found: Found)
    requires jsonStart + jsonSize <= size <= buffer.Length
    requires jsonStart < size ==> !IsSpace(buffer[jsonStart])
    ensures var t := buffer[jsonStart..size];
            found == if jsonSize == 0 || !parses(t[..jsonSize]) then Malformed
                     else Unit(TrimRight(t[..jsonSize]), |t| - |TrimLeft(t[jsonSize..])|)
  {
    hide TrimLeft, TrimRight;
    CutSlice(buffer, jsonStart, jsonStart + jsonSize, size);
    var unit := buffer[jsonStart..jsonStart + jsonSize];
    if jsonSize == 0 || !parses(unit) {
      return Malformed;
    }
    var next := SkipWhitespace(buffer, jsonStart + jsonSize, size);
    TrimLeftNothing(unit);
    var text := TrimWhitespace(unit);
    return Unit(text, next - jsonStart);
  }

  class JSONScanner {
    const file: Bytes
    const format: Format
    const parses: Bytes -> bool
    const maximumObjectSize: nat
    const buffer: array<char>

    var readPosition: nat
    var lastReadRequested: bool
    var bufferSize: nat
    var bufferOffset: nat
    var prevBufferRemainder: nat
    var prevBufferOffset: nat
    var isLast: bool
    var linesOrObjectsInBuffer: nat
    var units: seq<Bytes>

    ghost predicate Valid()
      reads this
    {
      && maximumObjectSize > YYJSON_PADDING_SIZE
      && buffer.Length == 2 * maximumObjectSize
      && bufferOffset <= bufferSize
      && bufferSize + YYJSON_PADDING_SIZE <= buffer.Length
      && prevBufferRemainder <= maximumObjectSize
      && prevBufferOffset + prevBufferRemainder <= buffer.Length
      && (bufferOffset < bufferSize || isLast ==> prevBufferRemainder == 0)
      && readPosition <= |file|
      && lastReadRequested == isLast
      && (isLast ==> readPosition == |file|)
    }

    /** Bytes already read but not yet delivered. */
    ghost function Carry(): Bytes
      requires Valid()
      reads this, buffer
    {
      if bufferOffset < bufferSize then buffer[bufferOffset..bufferSize]
      else buffer[prevBufferOffset..prevBufferOffset + prevBufferRemainder]
    }

    /** Everything that is still to be delivered. */
    ghost function Pending(): Bytes
      requires Valid()
      reads this, buffer
    {
      Carry() + file[readPosition..]
    }

    constructor (file: Bytes, format: Format, parses: Bytes -> bool, maximumObjectSize: nat)
      requires maximumObjectSize > YYJSON_PADDING_SIZE
      ensures Valid() && fresh(buffer) && Pending() == file
      ensures this.file == file && this.format == format && this.parses == parses
      ensures this.maximumObjectSize == maximumObjectSize
    {
      this.file, this.format, this.parses := file, format, parses;
      this.maximumObjectSize := maximumObjectSize;
      buffer := new char[2 * maximumObjectSize];
      readPosition, lastReadRequested, isLast := 0, false, false;
      bufferSize, bufferOffset, prevBufferRemainder, prevBufferOffset := 0, 0, 0, 0;
      linesOrObjectsInBuffer, units := 0, [];
    }

    /** Finds the next unit and moves the offset behind it; an unfinished value is kept for the next buffer. */
    method ParseNextUnit() returns (found: Found)
      requires Valid() && prevBufferRemainder == 0
      modifies this`bufferOffset, this`prevBufferRemainder, this`prevBufferOffset
      modifies this`linesOrObjectsInBuffer, this`units
      ensures found == FoundIn(format, parses, isLast, maximumObjectSize, old(Carry()))
      ensures Valid()
      ensures found.Unit? ==> prevBufferRemainder == 0
      ensures found.Tail? || found.Nothing? ==> bufferOffset == bufferSize
      ensures if found.Unit? then units == old(units) + [found.text] else units == old(units)
      ensures linesOrObjectsInBuffer == old(linesOrObjectsInBuffer) + if found.Unit? then 1 else 0
      ensures found.Unit? ==> Carry() == old(Carry())[found.next..]
      ensures found.Tail? ==> Carry() == old(Carry())[found.start..]
      ensures found.Nothing? ==> Carry() == []
    {
      hide FoundIn;
      ghost var t := Carry();
      assert t == buffer[bufferOffset..bufferSize];
      var offset := bufferOffset;
      found := NextUnit(format, parses, isLast, maximumObjectSize, buffer, offset, bufferSize);
      FoundShape(format, parses, isLast, maximumObjectSize, t);
      if found.Unit? {
        units := units + [found.text];
        linesOrObjectsInBuffer := linesOrObjectsInBuffer + 1;
        bufferOffset := offset + found.next;
        assert Carry() == t[found.next..];
      } else if found.Tail? {
        prevBufferRemainder, prevBufferOffset := bufferSize - offset - found.start, offset + found.start;
        bufferOffset := bufferSize;
        assert Carry() == t[found.start..];
      } else if found.Nothing? {
        bufferOffset := bufferSize;
        assert Carry() == [];
      }
    }

    method ParseNextChunk() returns (r: Outcome)
      requires Valid() && units == [] && bufferOffset < bufferSize
      modifies this`bufferOffset, this`prevBufferRemainder, this`prevBufferOffset
      modifies this`linesOrObjectsInBuffer, this`units
      ensures Valid() && r in {Delivered, ParseError, ObjectTooLarge}
      ensures |units| <= STANDARD_VECTOR_SIZE
      ensures r == Delivered ==> units == [] ==> bufferOffset == bufferSize
      ensures r == Delivered ==> Leads(format, parses, maximumObjectSize, old(Pending()), units, Pending())
      ensures r == Delivered ==> linesOrObjectsInBuffer == old(linesOrObjectsInBuffer) + |units|
      ensures r == ParseError ==> Split(format, parses, old(Pending())).failed
      ensures r == ObjectTooLarge ==> !Fits(format, old(Pending()), maximumObjectSize)
    {
      hide Split, Fits, FoundIn, Leads;
      var more := true;
      ghost var all, unread := Pending(), file[readPosition..];
      LeadsNowhere(format, parses, maximumObjectSize, all);
      while more && |units| < STANDARD_VECTOR_SIZE
        invariant Valid() && |units| <= STANDARD_VECTOR_SIZE
        invariant more ==> prevBufferRemainder == 0
        invariant units == [] && more ==> bufferOffset < bufferSize
        invariant !more ==> bufferOffset == bufferSize
        invariant Leads(format, parses, maximumObjectSize, all, units, Carry() + unread)
        invariant linesOrObjectsInBuffer == old(linesOrObjectsInBuffer) + |units|
        decreases more, STANDARD_VECTOR_SIZE - |units|
      {
        ghost var t := Carry();
        ChunkStep(format, parses, isLast, maximumObjectSize, all, units, t, unread);
        var found := ParseNextUnit();
        if found.Malformed? || found.TooLarge? {
          return if found.Malformed? then ParseError else ObjectTooLarge;
        }
        more := found.Unit?;
      }
      return Delivered;
    }

    /** Reads at most `requested` bytes to `offset`; only at the end of the file it reads none. */
    method Read(offset: nat, requested: nat) returns (size: nat)
      requires offset + requested <= buffer.Length && requested > 0
      requires readPosition <= |file| && !lastReadRequested
      modifies this`readPosition, this`lastReadRequested, buffer
      ensures size <= requested && readPosition == old(readPosition) + size <= |file|
      ensures size == 0 <==> old(readPosition) == |file|
      ensures lastReadRequested == (size == 0)
      ensures buffer[..offset + size] == old(buffer[..offset]) + file[old(readPosition)..readPosition]
    {
      var left := |file| - readPosition;
      var most := if requested < left then requested else left;
      assert left > 0 ==> 0 < most <= most;
      size :| 0 <= size <= most && (size == 0 ==> left == 0);
      forall i | 0 <= i < size {
        buffer[offset + i] := file[readPosition + i];
      }
      readPosition := readPosition + size;
      if size == 0 {
        lastReadRequested := true;
      }
    }

    /** Fills the buffer: the remainder of the previous one, the bytes read next, and the padding. */
    method FillBuffer() returns (readSize: nat)
      requires Valid() && bufferOffset == bufferSize && !lastReadRequested
      modifies this`readPosition, this`lastReadRequested, buffer
      ensures prevBufferRemainder + readSize + YYJSON_PADDING_SIZE <= buffer.Length
      ensures readPosition == old(readPosition) + readSize <= |file|
      ensures lastReadRequested == (readSize == 0) == (old(readPosition) == |file|)
      ensures buffer[..prevBufferRemainder + readSize] == old(Carry()) + file[old(readPosition)..readPosition]
    {
      var readOffset := prevBufferRemainder;
      var requestSize := buffer.Length - readOffset - YYJSON_PADDING_SIZE;
      MoveRemainderToFront();
      readSize := Read(readOffset, requestSize);
      PadBuffer(readOffset + readSize);
    }

    /** memmove: the two ranges may overlap. */
    method MoveRemainderToFront()
      requires prevBufferOffset + prevBufferRemainder <= buffer.Length
      modifies buffer
      ensures buffer[..prevBufferRemainder] == old(buffer[prevBufferOffset..prevBufferOffset + prevBufferRemainder])
    {
      var from := prevBufferOffset;
      forall i | 0 <= i < prevBufferRemainder {
        buffer[i] := buffer[from + i];
      }
    }

    /** memset: the parser needs zero bytes behind the data. */
    method PadBuffer(size: nat)
      requires size + YYJSON_PADDING_SIZE <= buffer.Length
      modifies buffer
      ensures buffer[..size] == old(buffer[..size])
      ensures forall i | size <= i < size + YYJSON_PADDING_SIZE :: buffer[i] == '\0'
    {
      forall i | size <= i < size + YYJSON_PADDING_SIZE {
        buffer[i] := '\0';
      }
    }

    lemma PendingAfterRead(carry: Bytes, position: nat, size: nat)
      requires position + size <= |file|
      ensures carry + file[position..] == (carry + file[position..position + size]) + file[position + size..]
    {
      assert file[position..] == file[position..position + size] + file[position + size..];
    }

    method ReadNextBuffer() returns (success: bool)
      requires Valid() && bufferOffset == bufferSize
      modifies this, buffer
      ensures Valid() && Pending() == old(Pending()) && units == old(units)
      ensures success == !old(lastReadRequested)
      ensures !success ==> Pending() == []
      ensures success ==> prevBufferRemainder == 0 && bufferOffset == 0 && linesOrObjectsInBuffer == 0
      ensures success ==> readPosition > old(readPosition) || lastReadRequested
      ensures old(lastReadRequested) ==> lastReadRequested
      ensures readPosition >= old(readPosition)
    {
      if lastReadRequested {
        return false;
      }
      ghost var carry, position := Carry(), readPosition;
      var readOffset := prevBufferRemainder;
      var readSize := FillBuffer();
      PendingAfterRead(carry, position, readSize);
      StartBuffer(readOffset + readSize, readSize == 0);
      return true;
    }

    /** The buffer now holds `size` bytes, none of them delivered. */
    method StartBuffer(size: nat, last: bool)
      requires maximumObjectSize > YYJSON_PADDING_SIZE && buffer.Length == 2 * maximumObjectSize
      requires size + YYJSON_PADDING_SIZE <= buffer.Length && readPosition <= |file|
      requires lastReadRequested == last && (last ==> readPosition == |file|)
      modifies this`isLast, this`bufferSize, this`bufferOffset, this`prevBufferRemainder, this`prevBufferOffset,
        this`linesOrObjectsInBuffer
      ensures Valid() && Carry() == buffer[..size]
      ensures isLast == last && bufferSize == size && bufferOffset == prevBufferRemainder == linesOrObjectsInBuffer == 0
    {
      isLast := last;
      bufferSize, bufferOffset := size, 0;
      prevBufferRemainder, prevBufferOffset, linesOrObjectsInBuffer := 0, 0, 0;
    }

    /** Reads buffers until one has data, or the file is used up. */
    method Refill() returns (success: bool)
      requires Valid() && units == []
      modifies this, buffer
      ensures Valid() && Pending() == old(Pending()) && units == []
      ensures success ==> bufferOffset < bufferSize
      ensures !success ==> Pending() == []
      ensures readPosition >= old(readPosition) && (old(lastReadRequested) ==> lastReadRequested)
      ensures success && readPosition == old(readPosition) && lastReadRequested == old(lastReadRequested) ==>
        bufferOffset == old(bufferOffset) && bufferSize == old(bufferSize)
    {
      while bufferOffset >= bufferSize
        invariant Valid() && units == [] && Pending() == old(Pending())
        invariant readPosition >= old(readPosition) && (old(lastReadRequested) ==> lastReadRequested)
        invariant readPosition == old(readPosition) && lastReadRequested == old(lastReadRequested) ==>
          bufferOffset == old(bufferOffset) && bufferSize == old(bufferSize)
        decreases |file| - readPosition, !lastReadRequested
      {
        var more := ReadNextBuffer();
        if !more {
          return false;
        }
      }
      return true;
    }

    /** One call: the units delivered are the first ones of the single-pass splitting of all pending bytes. */
    method Scan() returns (r: Outcome)
      requires Valid()
      modifies this, buffer
      ensures Valid() && |units| <= STANDARD_VECTOR_SIZE
      ensures r == Delivered ==> units != []
      ensures r == Delivered ==> Leads(format, parses, maximumObjectSize, old(Pending()), units, Pending())
      ensures r == Exhausted ==> Split(format, parses, old(Pending())) == Progress([], [], false)
      ensures r == ParseError ==> Split(format, parses, old(Pending())).failed
      ensures r == ObjectTooLarge ==> !Fits(format, old(Pending()), maximumObjectSize)
    {
      units := [];  // ResetForNextParse
      ghost var all := Pending();
      assert all == old(Pending());
      hide Split, Fits, Leads, Pending, Carry;
      LeadsNowhere(format, parses, maximumObjectSize, all);
      while units == []
        invariant Valid() && |units| <= STANDARD_VECTOR_SIZE
        invariant Leads(format, parses, maximumObjectSize, all, units, Pending())
        decreases |file| - readPosition, !lastReadRequested, units == [], bufferSize - bufferOffset
      {
        ghost var pending := Pending();
        var success := Refill();
        if !success {
          SplitOfNothing(all);
          return Exhausted;
        }
        r := ParseNextChunk();
        if r != Delivered {
          LeadsToFailure(format, parses, maximumObjectSize, all, [], pending);
          return;
        }
        assert [] + units == units;
        LeadsOn(format, parses, maximumObjectSize, all, [], pending, units, Pending());
      }
      return Delivered;
    }

    lemma SplitOfNothing(all: Bytes)
      requires Leads(format, parses, maximumObjectSize, all, [], [])
      ensures Split(format, parses, all) == Progress([], [], false)
    {}
  }

  /** All Scan calls on one file together: whichever way it is read, exactly its single-pass splitting. */
  method ScanEntireFile(file: Bytes, format: Format, parses: Bytes -> bool, maximumObjectSize: nat)
    returns (delivered: seq<Bytes>, r: Outcome)
    requires maximumObjectSize > YYJSON_PADDING_SIZE
    ensures r in {Exhausted, ParseError, ObjectTooLarge}
    ensures r == Exhausted ==> Split(format, parses, file) == Progress(delivered, [], false)
    ensures r == ParseError ==> Split(format, parses, file).failed
    ensures r == ObjectTooLarge ==> !Fits(format, file, maximumObjectSize)
    ensures delivered <= Split(format, parses, file).units
  {
    hide Split, Fits, Leads;
    var scanner := new JSONScanner(file, format, parses, maximumObjectSize);
    delivered := [];
    LeadsNowhere(format, parses, maximumObjectSize, file);
    while true
      invariant scanner.Valid() && fresh(scanner) && fresh(scanner.buffer)
      invariant Leads(format, parses, maximumObjectSize, file, delivered, scanner.Pending())
      decreases |Split(format, parses, scanner.Pending()).units|
    {
      ghost var pending := scanner.Pending();
      r := scanner.Scan();
      if r != Delivered {
        LeadsToFailure(format, parses, maximumObjectSize, file, delivered, pending);
        DeliveredSoFar(format, parses, maximumObjectSize, file, delivered, pending);
        return;
      }
      LeadsOn(format, parses, maximumObjectSize, file, delivered, pending, scanner.units, scanner.Pending());
      DeliveredSoFar(format, parses, maximumObjectSize, pending, scanner.units, scanner.Pending());
      delivered := delivered + scanner.units;
    }
  }

  lemma DeliveredSoFar(format: Format, parses: Bytes -> bool, max: nat, all: Bytes, taken: seq<Bytes>, left: Bytes)
    requires Leads(format, parses, max, all, taken, left)
    ensures taken <= Split(format, parses, all).units
    ensures |Split(format, parses, all).units| == |taken| + |Split(format, parses, left).units|
    ensures Split(format, parses, left) == Progress([], [], false) ==>
      Split(format, parses, all) == Progress(taken, [], false)
  {
    hide Split, Fits;
    assert taken + [] == taken;
  }
}
