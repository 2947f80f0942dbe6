/** The parallel newline-delimited scan of json_reader.cpp, block by block: each block is scanned on its own,
    with the unfinished last line of the block before it copied in front. */
module JsonBlocks {
  import opened Wrappers
  import opened JsonText
  import opened JsonSplit

  /** PreviousNewline on a whole block: the last newline, except that the first byte is never looked at. */
  function TailStart(block: Bytes): (p: nat)
    requires block != []
    ensures p < |block|
    ensures p != 0 ==> block[p] == '\n'
  {
    LastNewline(block, |block| - 1)
  }

  function LastNewline(block: Bytes, p: nat): (q: nat)
    requires p < |block|
    ensures q <= p && (q != 0 ==> block[q] == '\n')
  {
    if p == 0 || block[p] == '\n' then p else LastNewline(block, p - 1)
  }

  lemma {:induction false} LastNewlineIsLast(block: Bytes, p: nat)
    requires p < |block| && '\n' !in block[p + 1..]
    ensures '\n' !in block[LastNewline(block, p) + 1..]
    decreases p
  {
    if p != 0 && block[p] != '\n' {
      assert block[p..] == [block[p]] + block[p + 1..];
      LastNewlineIsLast(block, p - 1);
    }
  }

  lemma TailIsOneLine(block: Bytes)
    requires block != []
    ensures '\n' !in block[TailStart(block) + 1..]
    ensures '\n' in block ==> block[TailStart(block)] == '\n'
    ensures '\n' !in block ==> TailStart(block) == 0 && Tail(block) == block
  {
    LastNewlineIsLast(block, |block| - 1);
    var p := TailStart(block);
    if p == 0 {
      assert block == [block[0]] + block[1..];
    }
  }

  /** What the scanner of the next block copies in front of its own block. */
  function Tail(block: Bytes): (t: Bytes)
    requires block != []
    ensures t != []
  {
    block[TailStart(block)..]
  }

  /** A tail of one byte is taken for a lone newline and is not put in front. */
  function Carried(block: Bytes): Bytes
    requires block != []
  {
    if |Tail(block)| == 1 then [] else Tail(block)
  }

  method PreviousNewline(buffer: array<char>, ptr: nat, size: nat) returns (p: nat)
    requires 0 < size <= ptr <= buffer.Length
    ensures ptr - size <= p < ptr
    ensures p - (ptr - size) == TailStart(buffer[ptr - size..ptr])
  {
    var end := ptr - size;
    ghost var block := buffer[end..ptr];
    p := ptr - 1;
    while p != end
      invariant end <= p < ptr
      invariant LastNewline(block, p - end) == TailStart(block)
      decreases p
    {
      assert buffer[p] == block[p - end];
      if buffer[p] == '\n' {
        break;
      }
      p := p - 1;
    }
  }

  datatype CopyResult = Copied(offset: nat) | TailTooLarge(size: nat)

  /** CopyRemainderFromPreviousBuffer, once the previous buffer is there: its block is prev[prevStart..prevSize],
      the scanner's own block starts at `offset` of its buffer and the tail goes right in front of it. */
  method CopyRemainder(prev: array<char>, prevStart: nat, prevSize: nat, buffer: array<char>, offset: nat)
    returns (r: CopyResult)
    requires prevStart < prevSize <= prev.Length && offset <= buffer.Length && prev != buffer
    modifies buffer
    ensures var t := Tail(prev[prevStart..prevSize]);
            if |t| > offset then r == TailTooLarge(|t|) && buffer[..] == old(buffer[..])
            else r.Copied? && r.offset <= offset && buffer[r.offset..offset] == Carried(prev[prevStart..prevSize])
    ensures buffer[offset..] == old(buffer[offset..])
  {
    var start := PreviousNewline(prev, prevSize, prevSize - prevStart);
    var size := prevSize - start;
    ghost var block := prev[prevStart..prevSize];
    assert prev[start..prevSize] == Tail(block);
    if size > offset {
      return TailTooLarge(size);
    }
    CopyBytes(buffer, offset - size, prev, start, size);
    return Copied(if size == 1 then offset else offset - size);
  }

  /** memcpy between two buffers. */
  method CopyBytes(target: array<char>, at: nat, source: array<char>, from: nat, size: nat)
    requires at + size <= target.Length && from + size <= source.Length && target != source
    modifies target
    ensures target[at..at + size] == source[from..from + size]
    ensures target[..at] == old(target[..at]) && target[at + size..] == old(target[at + size..])
  {
    forall i | 0 <= i < size {
      target[at + i] := source[from + i];
    }
  }

  // ---- What each scanner delivers ----

  /** The text parsed for block i; the block behind the last one is the empty read that ends the file. */
  function BlockText(blocks: seq<Bytes>, i: nat): Bytes
    requires i <= |blocks| && [] !in blocks
  {
    (if i == 0 then [] else Carried(blocks[i - 1])) + (if i == |blocks| then [] else blocks[i])
  }

  function BlockUnits(blocks: seq<Bytes>, i: nat): seq<Bytes>
    requires i <= |blocks| && [] !in blocks
  {
    if i == |blocks| then Split(NewlineDelimited, EveryUnit, BlockText(blocks, i)).units
    else Consume(NewlineDelimited, EveryUnit, BlockText(blocks, i)).units
  }

  /** The units of the first n buffers, in buffer order. */
  function UnitsUpTo(blocks: seq<Bytes>, n: nat): seq<Bytes>
    requires n <= |blocks| + 1 && [] !in blocks
  {
    if n == 0 then [] else UnitsUpTo(blocks, n - 1) + BlockUnits(blocks, n - 1)
  }

  function Join(blocks: seq<Bytes>, n: nat): Bytes
    requires n <= |blocks|
  {
    if n == 0 then [] else Join(blocks, n - 1) + blocks[n - 1]
  }

  /** Nothing but white space is dropped between block i - 1 and block i. */
  predicate KeepsTail(blocks: seq<Bytes>, i: nat)
    requires 0 < i <= |blocks| && [] !in blocks
  {
    && (|Tail(blocks[i - 1])| == 1 ==> IsSpace(Tail(blocks[i - 1])[0]))
    && (i < |blocks| && '\n' !in blocks[i] ==> AllSpace(Tail(blocks[i - 1])))
  }

  predicate KeepsTails(blocks: seq<Bytes>)
    requires [] !in blocks
  {
    forall i | 0 < i <= |blocks| :: KeepsTail(blocks, i)
  }

  // ---- Facts about one pass over newline-delimited text ----

  ghost function Lazy(s: Bytes): Progress { Consume(NewlineDelimited, EveryUnit, s) }

  lemma {:induction false} NeverFails(s: Bytes)
    ensures !Lazy(s).failed
    decreases |s|
  {
    var t := TrimLeft(s);
    if t != [] && NewlineAt(t).Some? {
      NeverFails(t[NewlineAt(t).value..]);
    }
  }

  lemma {:induction false} RestIsSuffix(s: Bytes)
    ensures IsSuffix(Lazy(s).rest, s)
    decreases |s|
  {
    var t := TrimLeft(s);
    TrimLeftIsSuffix(s);
    if t == [] || NewlineAt(t).None? {
      ConsumeNothing(NewlineDelimited, EveryUnit, s, t);
    } else {
      var j := NewlineAt(t).value;
      ConsumeUnit(NewlineDelimited, EveryUnit, s, t, j);
      RestIsSuffix(t[j..]);
      hide Consume, TrimLeft;
      SuffixOfDrop(Lazy(t[j..]).rest, t, j, s);
    }
  }

  lemma NothingBehindNewline(a: Bytes)
    ensures Lazy(a + ['\n']).rest == []
  {
    hide Consume;
    var s := a + ['\n'];
    RestIsSuffix(s);
    if Lazy(s).rest != [] {
      SuffixEndsAlike(Lazy(s).rest, s);
      assert false;
    }
  }

  lemma SuffixEndsAlike(t: Bytes, s: Bytes)
    requires IsSuffix(t, s) && t != []
    ensures s[|s| - 1] in t
  {
    assert t[|t| - 1] == s[|s| - 1];
  }

  lemma UnfinishedLine(b: Bytes)
    requires '\n' !in b
    ensures Lazy(b) == Progress([], TrimLeft(b), false)
  {
    TrimLeftSuffix(b);
    ConsumeNothing(NewlineDelimited, EveryUnit, b, TrimLeft(b));
  }

  /** The unfinished rest is what stands behind the last newline. */
  lemma RestBehindNewline(a: Bytes, b: Bytes)
    requires '\n' !in b
    ensures Lazy(a + ['\n'] + b).rest == TrimLeft(b)
  {
    hide Consume;
    NothingBehindNewline(a);
    NeverFails(a + ['\n']);
    ConsumeConcat(NewlineDelimited, EveryUnit, a + ['\n'], b);
    assert [] + b == b;
    UnfinishedLine(b);
  }

  lemma TrimLeftConcatTrimmed(a: Bytes, b: Bytes)
    ensures TrimLeft(TrimLeft(a) + b) == TrimLeft(a + b)
  {
    TrimLeftConcat(a, b);
    TrimLeftConcat(TrimLeft(a), b);
    TrimLeftIdempotent(a);
  }

  lemma TrimLeftIdempotent(s: Bytes)
    ensures TrimLeft(TrimLeft(s)) == TrimLeft(s)
  {}

  /** A block that has a newline leaves its own tail unfinished, whatever was put in front of it. */
  lemma RestOfBlock(front: Bytes, block: Bytes)
    requires '\n' in block
    ensures Lazy(front + block).rest == TrimLeft(Tail(block))
  {
    hide Consume;
    var p := TailStart(block);
    TailIsOneLine(block);
    assert front + block == (front + block[..p]) + ['\n'] + block[p + 1..];
    RestBehindNewline(front + block[..p], block[p + 1..]);
    assert Tail(block) == ['\n'] + block[p + 1..];
    TrimLeftConcat(['\n'], block[p + 1..]);
    TrimLeftEmpty(['\n']);
  }

  // ---- Forward: when no tail is lost, the scanners together deliver the lines of the file ----

  lemma {:induction false} BlocksFollowThePass(blocks: seq<Bytes>, n: nat)
    requires n <= |blocks| && [] !in blocks && KeepsTails(blocks)
    ensures Lazy(Join(blocks, n))
         == Progress(UnitsUpTo(blocks, n), if n == 0 then [] else TrimLeft(Tail(blocks[n - 1])), false)
    decreases n
  {
    hide Consume, KeepsTail, Tail;
    if n == 0 {
      UnfinishedLine([]);
    } else {
      BlocksFollowThePass(blocks, n - 1);
      var k, text := n - 1, BlockText(blocks, n - 1);
      ConsumeConcat(NewlineDelimited, EveryUnit, Join(blocks, k), blocks[k]);
      FrontOfBlock(blocks, k);
      RestOfText(blocks, k);
      NeverFails(text);
      ConsumeAfterSpace(NewlineDelimited, EveryUnit, Lazy(Join(blocks, k)).rest + blocks[k], text);
    }
  }

  lemma CarriedTrims(blocks: seq<Bytes>, k: nat)
    requires 0 < k <= |blocks| && [] !in blocks && KeepsTail(blocks, k)
    ensures TrimLeft(Carried(blocks[k - 1])) == TrimLeft(Tail(blocks[k - 1]))
  {
    var t := Tail(blocks[k - 1]);
    if |t| == 1 {
      assert t == [t[0]];
      TrimLeftEmpty(t);
    }
  }

  lemma FrontOfBlock(blocks: seq<Bytes>, k: nat)
    requires k < |blocks| && [] !in blocks && KeepsTails(blocks)
    ensures var rest := if k == 0 then [] else TrimLeft(Tail(blocks[k - 1]));
            TrimLeft(rest + blocks[k]) == TrimLeft(BlockText(blocks, k))
  {
    if k > 0 {
      assert KeepsTail(blocks, k);
      CarriedTrims(blocks, k);
      hide Tail, Carried;
      TrimLeftConcatTrimmed(Tail(blocks[k - 1]), blocks[k]);
      TrimLeftConcatTrimmed(Carried(blocks[k - 1]), blocks[k]);
    }
  }

  lemma RestOfText(blocks: seq<Bytes>, k: nat)
    requires k < |blocks| && [] !in blocks && KeepsTails(blocks)
    ensures Lazy(BlockText(blocks, k)).rest == TrimLeft(Tail(blocks[k]))
  {
    var block := blocks[k];
    var front := if k == 0 then [] else Carried(blocks[k - 1]);
    if '\n' in block {
      RestOfBlock(front, block);
    } else {
      TailIsOneLine(block);
      if k > 0 {
        assert KeepsTail(blocks, k);
        CarriedTrims(blocks, k);
        TrimLeftEmpty(Tail(blocks[k - 1]));
      }
      TrimLeftConcat(front, block);
      ConsumeAfterSpace(NewlineDelimited, EveryUnit, front + block, block);
      UnfinishedLine(block);
    }
  }

  lemma LinesAreDelivered(blocks: seq<Bytes>)
    requires [] !in blocks && KeepsTails(blocks)
    ensures UnitsUpTo(blocks, |blocks| + 1) == NonBlankLines(Join(blocks, |blocks|))
  {
    hide Consume, NonBlankLines, KeepsTail, Tail, BlockUnits, Split;
    var n := |blocks|;
    BlocksFollowThePass(blocks, n);
    SplitIsLines(Join(blocks, n));
    LastBlockUnits(blocks);
  }

  /** The last, empty block delivers what a pass over the whole file would leave unfinished. */
  lemma LastBlockUnits(blocks: seq<Bytes>)
    requires [] !in blocks && KeepsTails(blocks)
    requires Lazy(Join(blocks, |blocks|)).rest == (if blocks == [] then [] else TrimLeft(Tail(blocks[|blocks| - 1])))
    ensures Split(NewlineDelimited, EveryUnit, Join(blocks, |blocks|)).units
         == Lazy(Join(blocks, |blocks|)).units + BlockUnits(blocks, |blocks|)
  {
    hide Consume, KeepsTail, Tail, Carried, Join, TrimLeft, TrimRight, BlockUnits;
    var n := |blocks|;
    NeverFails(Join(blocks, n));
    UnitsOfLastBlock(blocks);
  }

  /** What is left of the file, trimmed, is the one unit of the last block. */
  lemma UnitsOfLastBlock(blocks: seq<Bytes>)
    requires [] !in blocks && KeepsTails(blocks)
    requires var rest := if blocks == [] then [] else TrimLeft(Tail(blocks[|blocks| - 1]));
      rest != [] ==> Cut(NewlineDelimited, rest).None?
    ensures var rest := if blocks == [] then [] else TrimLeft(Tail(blocks[|blocks| - 1]));
            BlockUnits(blocks, |blocks|) == if rest == [] then [] else [TrimRight(rest)]
  {
    hide Consume, KeepsTail, Tail, Carried, TrimRight;
    var n := |blocks|;
    if n > 0 {
      assert KeepsTail(blocks, n);
      CarriedTrims(blocks, n);
      var rest := TrimLeft(Tail(blocks[n - 1]));
      TrimLeftIdempotent(Tail(blocks[n - 1]));
      assert BlockText(blocks, n) == Carried(blocks[n - 1]);
      ConsumeAfterSpace(NewlineDelimited, EveryUnit, Carried(blocks[n - 1]), rest);
      ConsumeNothing(NewlineDelimited, EveryUnit, rest, rest);
    } else {
      UnfinishedLine([]);
      assert BlockText(blocks, 0) == [];
    }
  }

  // ---- Backward: a byte count shows that every dropped tail is missing from the result ----

  /** The number of bytes that are not white space. */
  ghost function Ink(s: Bytes): nat {
    if s == [] then 0 else (if IsSpace(s[0]) then 0 else 1) + Ink(s[1..])
  }

  ghost function InkOf(units: seq<Bytes>): nat {
    if units == [] then 0 else Ink(units[0]) + InkOf(units[1..])
  }

  lemma {:induction false} InkConcat(a: Bytes, b: Bytes)
    ensures Ink(a + b) == Ink(a) + Ink(b)
    decreases |a|
  {
    if a == [] {
      assert a + b == b;
    } else {
      assert (a + b)[1..] == a[1..] + b;
      InkConcat(a[1..], b);
    }
  }

  lemma {:induction false} InkOfConcat(a: seq<Bytes>, b: seq<Bytes>)
    ensures InkOf(a + b) == InkOf(a) + InkOf(b)
    decreases |a|
  {
    if a == [] {
      assert a + b == b;
    } else {
      assert (a + b)[1..] == a[1..] + b;
      InkOfConcat(a[1..], b);
    }
  }

  lemma {:induction false} InkZero(s: Bytes)
    ensures Ink(s) == 0 <==> AllSpace(s)
    decreases |s|
  {
    if s != [] {
      assert s == [s[0]] + s[1..];
      InkZero(s[1..]);
    }
  }

  lemma {:induction false} InkTrimLeft(s: Bytes)
    ensures Ink(TrimLeft(s)) == Ink(s)
    decreases |s|
  {
    if s != [] && IsSpace(s[0]) {
      InkTrimLeft(s[1..]);
    }
  }

  lemma {:induction false} InkTrimRight(s: Bytes)
    ensures Ink(TrimRight(s)) == Ink(s)
    decreases |s|
  {
    if s != [] && IsSpace(s[|s| - 1]) {
      var front, last := s[..|s| - 1], [s[|s| - 1]];
      assert s == front + last;
      InkConcat(front, last);
      InkZero(last);
      InkTrimRight(front);
    }
  }

  lemma {:induction false} InkOfPass(s: Bytes)
    ensures InkOf(Lazy(s).units) + Ink(Lazy(s).rest) == Ink(s)
    decreases |s|
  {
    var t := TrimLeft(s);
    InkTrimLeft(s);
    if t == [] || NewlineAt(t).None? {
      ConsumeNothing(NewlineDelimited, EveryUnit, s, t);
    } else {
      var j := NewlineAt(t).value;
      ConsumeUnit(NewlineDelimited, EveryUnit, s, t, j);
      InkOfPass(t[j..]);
      hide Consume, TrimLeft, TrimRight, Ink;
      assert t == t[..j] + t[j..];
      InkConcat(t[..j], t[j..]);
      InkTrimRight(t[..j]);
      InkOfConcat([TrimRight(t[..j])], Lazy(t[j..]).units);
      InkOfOne(TrimRight(t[..j]));
    }
  }

  lemma InkOfOne(u: Bytes)
    ensures InkOf([u]) == Ink(u)
  {
    assert [u][1..] == [];
  }

  lemma InkOfSplit(s: Bytes)
    ensures InkOf(Split(NewlineDelimited, EveryUnit, s).units) == Ink(s)
  {
    hide Consume, Ink, InkOf;
    InkOfPass(s);
    NeverFails(s);
    var p := Lazy(s);
    if p.rest != [] {
      InkTrimRight(p.rest);
      InkOfConcat(p.units, [TrimRight(p.rest)]);
      InkOfOne(TrimRight(p.rest));
    } else {
      InkZero([]);
    }
  }

  lemma NoInk()
    ensures Ink([]) == 0 && InkOf([]) == 0
  {}

  /** How many bytes are lost between block i - 1 and block i. */
  ghost function Loss(blocks: seq<Bytes>, i: nat): nat
    requires i <= |blocks| && [] !in blocks
  {
    if i == 0 then 0
    else
      (if |Tail(blocks[i - 1])| == 1 then Ink(Tail(blocks[i - 1])) else 0)
      + (if i < |blocks| && '\n' !in blocks[i] then Ink(Carried(blocks[i - 1])) else 0)
  }

  ghost function LossUpTo(blocks: seq<Bytes>, n: nat): nat
    requires n <= |blocks| + 1 && [] !in blocks
  {
    if n == 0 then 0 else LossUpTo(blocks, n - 1) + Loss(blocks, n - 1)
  }

  lemma LossMeansDroppedTail(blocks: seq<Bytes>, i: nat)
    requires 0 < i <= |blocks| && [] !in blocks
    ensures Loss(blocks, i) == 0 <==> KeepsTail(blocks, i)
  {
    var t := Tail(blocks[i - 1]);
    hide Ink;
    InkZero(t);
    InkZero(Carried(blocks[i - 1]));
    if |t| == 1 {
      assert t == [t[0]];
    }
  }

  ghost function Unfinished(blocks: seq<Bytes>, n: nat): nat
    requires n <= |blocks| && [] !in blocks
  {
    if n == 0 then 0 else Ink(Tail(blocks[n - 1]))
  }

  lemma {:induction false} InkBalance(blocks: seq<Bytes>, n: nat)
    requires n <= |blocks| && [] !in blocks
    ensures InkOf(UnitsUpTo(blocks, n)) + LossUpTo(blocks, n) + Unfinished(blocks, n) == Ink(Join(blocks, n))
    decreases n
  {
    hide Ink, InkOf, BlockUnits, Loss, Tail;
    if n == 0 {
      NoInk();
    } else {
      InkBalance(blocks, n - 1);
      InkOfBlock(blocks, n - 1);
      hide Unfinished;
      InkConcat(Join(blocks, n - 1), blocks[n - 1]);
      InkOfConcat(UnitsUpTo(blocks, n - 1), BlockUnits(blocks, n - 1));
    }
  }

  lemma InkOfBlock(blocks: seq<Bytes>, k: nat)
    requires k < |blocks| && [] !in blocks
    ensures InkOf(BlockUnits(blocks, k)) + Loss(blocks, k) + Unfinished(blocks, k + 1)
         == Unfinished(blocks, k) + Ink(blocks[k])
  {
    hide Ink, InkOf, Consume;
    var block := blocks[k];
    var front := if k == 0 then [] else Carried(blocks[k - 1]);
    InkOfPass(front + block);
    InkConcat(front, block);
    InkZero([]);
    if '\n' in block {
      RestOfBlock(front, block);
      InkTrimLeft(Tail(block));
    } else {
      TailIsOneLine(block);
      RestWithoutNewline(blocks, k, front);
    }
  }

  /** Without a newline in the block, everything read for it stays unfinished. */
  lemma RestWithoutNewline(blocks: seq<Bytes>, k: nat, front: Bytes)
    requires k < |blocks| && [] !in blocks && '\n' !in blocks[k]
    requires front == if k == 0 then [] else Carried(blocks[k - 1])
    ensures Ink(Lazy(front + blocks[k]).rest) == Ink(front + blocks[k])
  {
    hide Ink, Consume;
    var text := front + blocks[k];
    if '\n' !in text {
      UnfinishedLine(text);
      InkTrimLeft(text);
    } else {
      assert front[0] == '\n' && '\n' !in front[1..] by {
        var t := Tail(blocks[k - 1]);
        TailIsOneLine(blocks[k - 1]);
        assert t[1..] == blocks[k - 1][TailStart(blocks[k - 1]) + 1..];
        assert t == [t[0]] + t[1..];
      }
      var line := front[1..] + blocks[k];
      assert text == [] + ['\n'] + line;
      RestBehindNewline([], line);
      InkTrimLeft(line);
      InkConcat(['\n'], line);
      InkZero(['\n']);
      assert text == ['\n'] + line;
    }
  }

  lemma InkOfAll(blocks: seq<Bytes>)
    requires [] !in blocks
    ensures InkOf(UnitsUpTo(blocks, |blocks| + 1)) + LossUpTo(blocks, |blocks| + 1) == Ink(Join(blocks, |blocks|))
  {
    var n := |blocks|;
    InkBalance(blocks, n);
    InkOfSplit(BlockText(blocks, n));
    hide InkOf, BlockUnits, Consume;
    InkOfConcat(UnitsUpTo(blocks, n), BlockUnits(blocks, n));
    if n > 0 {
      assert BlockText(blocks, n) == Carried(blocks[n - 1]);
    }
    InkZero([]);
    assert InkOf(BlockUnits(blocks, n)) == Ink(BlockText(blocks, n));
  }

  lemma {:induction false} LossIsSum(blocks: seq<Bytes>, n: nat, i: nat)
    requires i < n <= |blocks| + 1 && [] !in blocks && LossUpTo(blocks, n) == 0
    ensures Loss(blocks, i) == 0
    decreases n
  {
    hide Loss;
    if i < n - 1 {
      LossIsSum(blocks, n - 1, i);
    }
  }

  /** Exactly once: the units delivered in buffer order are the trimmed non-blank lines of the file
      if and only if no scanner drops anything but white space from the tail it carries over. */
  lemma ParallelScanIsExactlyOnce(blocks: seq<Bytes>)
    requires [] !in blocks
    ensures UnitsUpTo(blocks, |blocks| + 1) == NonBlankLines(Join(blocks, |blocks|)) <==> KeepsTails(blocks)
  {
    hide Ink, InkOf, Loss, LossUpTo, KeepsTail, NonBlankLines, UnitsUpTo, Join, Split;
    var file := Join(blocks, |blocks|);
    if KeepsTails(blocks) {
      LinesAreDelivered(blocks);
    }
    if UnitsUpTo(blocks, |blocks| + 1) == NonBlankLines(file) {
      SplitIsLines(file);
      InkOfSplit(file);
      InkOfAll(blocks);
      forall i | 0 < i <= |blocks| ensures KeepsTail(blocks, i) {
        LossIsSum(blocks, |blocks| + 1, i);
        LossMeansDroppedTail(blocks, i);
      }
    }
  }

  /** The intended case: every block holds a newline. */
  lemma NewlineInEveryBlock(blocks: seq<Bytes>)
    requires [] !in blocks && forall b | b in blocks :: '\n' in b
    ensures KeepsTails(blocks)
  {
    forall i | 0 < i <= |blocks| ensures KeepsTail(blocks, i) {
      TailIsOneLine(blocks[i - 1]);
    }
  }

  /** A file of the single byte 5 delivers nothing. */
  lemma SingleByteIsLost()
    ensures UnitsUpTo(["5"], 2) == [] && NonBlankLines("5") == ["5"]
  {
    var blocks := ["5"];
    assert BlockText(blocks, 0) == "5" && BlockText(blocks, 1) == [];
    UnfinishedLine("5");
    UnfinishedLine([]);
    assert UnitsUpTo(blocks, 1) == BlockUnits(blocks, 0) == [];
    assert BlockUnits(blocks, 1) == [];
    SplitIsLines("5");
    assert TrimLeft("5") == "5";
    ConsumeNothing(NewlineDelimited, EveryUnit, "5", "5");
    assert "5"[..1] == "5";
  }

  lemma {:induction false} PrefixOfBlocks(blocks: seq<Bytes>, m: nat, k: nat)
    requires k <= m <= |blocks| && [] !in blocks
    ensures [] !in blocks[..m] && UnitsUpTo(blocks[..m], k) == UnitsUpTo(blocks, k)
    ensures Join(blocks[..m], k) == Join(blocks, k)
    decreases k
  {
    hide Consume, Split, Carried;
    if k > 0 {
      PrefixOfBlocks(blocks, m, k - 1);
    }
  }

  /** A block without a newline delivers nothing, whatever was carried in front of it. */
  lemma NoUnitsWithoutNewline(blocks: seq<Bytes>, k: nat)
    requires 0 < k < |blocks| && [] !in blocks && '\n' !in blocks[k]
    ensures BlockUnits(blocks, k) == []
  {
    hide Consume;
    var front, block := Carried(blocks[k - 1]), blocks[k];
    if front == [] {
      assert front + block == block;
      UnfinishedLine(block);
    } else if front[0] != '\n' {
      TailIsOneLine(blocks[k - 1]);
      UnfinishedLine(front + block);
    } else {
      var t := Tail(blocks[k - 1]);
      TailIsOneLine(blocks[k - 1]);
      assert t[1..] == blocks[k - 1][TailStart(blocks[k - 1]) + 1..];
      var line := front[1..] + block;
      assert front + block == ['\n'] + line;
      TrimLeftConcat(['\n'], line);
      TrimLeftEmpty(['\n']);
      ConsumeAfterSpace(NewlineDelimited, EveryUnit, front + block, line);
      UnfinishedLine(line);
    }
  }

  /** When only the last block has no newline, what is delivered for the last line of the file is the part of it in that
      block, and nothing if that is a single byte; the part in the block before is lost. */
  lemma LastLineIsCut(blocks: seq<Bytes>)
    requires |blocks| >= 2 && [] !in blocks && '\n' !in blocks[|blocks| - 1]
    requires forall b | b in blocks[..|blocks| - 1] :: '\n' in b
    ensures var n := |blocks|; var last, before := blocks[n - 1], Lazy(Join(blocks, n - 1)).units;
      && UnitsUpTo(blocks, n + 1) ==
           before + (if |last| == 1 then [] else Split(NewlineDelimited, EveryUnit, last).units)
      && NonBlankLines(Join(blocks, n)) == before + Split(NewlineDelimited, EveryUnit, Tail(blocks[n - 2]) + last).units
  {
    hide Consume, KeepsTail, NonBlankLines, Split, Tail, TrimLeft, BlockUnits, Join, UnitsUpTo;
    var n := |blocks|;
    var front, last := blocks[..n - 1], blocks[n - 1];
    PrefixOfBlocks(blocks, n - 1, n - 1);
    NewlineInEveryBlock(front);
    BlocksFollowThePass(front, n - 1);
    NoUnitsWithoutNewline(blocks, n - 1);
    DeliversLastBlock(blocks);
    LastTwo(blocks);
    SplitIsLines(Join(blocks, n));
    LastLineOfFile(Join(blocks, n - 1), Tail(blocks[n - 2]), last);
  }

  lemma LastTwo(blocks: seq<Bytes>)
    requires |blocks| >= 2 && [] !in blocks
    ensures var n := |blocks|;
      && UnitsUpTo(blocks, n + 1) == UnitsUpTo(blocks, n - 1) + BlockUnits(blocks, n - 1) + BlockUnits(blocks, n)
      && Join(blocks, n) == Join(blocks, n - 1) + blocks[n - 1]
  {
    hide BlockUnits;
  }

  lemma DeliversLastBlock(blocks: seq<Bytes>)
    requires blocks != [] && [] !in blocks && '\n' !in blocks[|blocks| - 1]
    ensures var last := blocks[|blocks| - 1];
      BlockUnits(blocks, |blocks|) == if |last| == 1 then [] else Split(NewlineDelimited, EveryUnit, last).units
  {
    hide Consume;
    var last := blocks[|blocks| - 1];
    TailIsOneLine(last);
    assert BlockText(blocks, |blocks|) == Carried(last);
    UnfinishedLine([]);
  }

  lemma LastLineOfFile(file: Bytes, tail: Bytes, last: Bytes)
    requires Lazy(file).rest == TrimLeft(tail)
    ensures Split(NewlineDelimited, EveryUnit, file + last).units
         == Lazy(file).units + Split(NewlineDelimited, EveryUnit, tail + last).units
  {
    NeverFails(file);
    SplitConcat(NewlineDelimited, EveryUnit, file, last);
    TrimLeftConcatTrimmed(tail, last);
    ConsumeAfterSpace(NewlineDelimited, EveryUnit, TrimLeft(tail) + last, tail + last);
    hide Consume, TrimLeft;
  }

  /** For example, a last line that starts in the block before. */
  lemma CutLastLine()
    ensures !KeepsTails(["a\nbc", "de"])
  {
    var blocks := ["a\nbc", "de"];
    var block := blocks[0];
    assert block[1] == '\n' && block[2] == 'b' && block[3] == 'c';
    assert LastNewline(block, 2) == LastNewline(block, 1) == 1;
    assert LastNewline(block, 3) == LastNewline(block, 2);
    assert Tail(block) == block[1..];
    assert Tail(block)[1] == 'b';
    assert 'b' in Tail(block) && !IsSpace('b');
    assert '\n' !in blocks[1];
    assert !KeepsTail(blocks, 1);
  }
}
