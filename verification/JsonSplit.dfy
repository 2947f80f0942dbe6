/** Splitting a text into JSON units: what one pass over the whole file would deliver. */
module JsonSplit {
  import opened Wrappers
  import opened JsonText

  datatype Format = NewlineDelimited | Unstructured

  /** What one left-to-right pass yields: trimmed units, the unfinished tail, and whether a unit did not parse. */
  datatype Progress = Progress(units: seq<Bytes>, rest: Bytes, failed: bool)

  function TrimLeft(s: Bytes): (t: Bytes)
    ensures t == [] || !IsSpace(t[0])
    ensures |t| <= |s|
  {
    if s != [] && IsSpace(s[0]) then TrimLeft(s[1..]) else s
  }

  function TrimRight(s: Bytes): (t: Bytes)
    ensures t <= s
    ensures t == [] || !IsSpace(t[|t| - 1])
  {
    if s != [] && IsSpace(s[|s| - 1]) then TrimRight(s[..|s| - 1]) else s
  }

  predicate AllSpace(s: Bytes) { forall c | c in s :: IsSpace(c) }

  function NewlineAt(s: Bytes): (r: Option<nat>)
    ensures r.Some? ==> r.value < |s| && s[r.value] == '\n' && '\n' !in s[..r.value]
    ensures r.None? <==> '\n' !in s
  {
    if s == [] then None
    else if s[0] == '\n' then Some(0)
    else
      var r := NewlineAt(s[1..]);
      assert s == [s[0]] + s[1..];
      if r.None? then None else
        assert s[..r.value + 1] == [s[0]] + s[1..][..r.value];
        Some(r.value + 1)
  }

  function Cut(format: Format, s: Bytes): (r: Option<nat>)
    requires s != []
    ensures r.Some? ==> r.value < |s|
  {
    if format.NewlineDelimited? then NewlineAt(s) else NextJson(s)
  }

  /** `parses` abstracts the JSON parser; an empty unit never parses. */
  function Consume(format: Format, parses: Bytes -> bool, s: Bytes): (p: Progress)
    ensures p.rest != [] ==> !p.failed && !IsSpace(p.rest[0]) && Cut(format, p.rest).None?
    decreases |s|
  {
    var t := TrimLeft(s);
    if t == [] then Progress([], [], false)
    else match Cut(format, t)
      case None => Progress([], t, false)
      case Some(j) =>
        if j == 0 || !parses(t[..j]) then Progress([], [], true)
        else Prepend([TrimRight(t[..j])], Consume(format, parses, t[j..]))
  }

  function Prepend(units: seq<Bytes>, p: Progress): Progress { p.(units := units + p.units) }

  /** The units of a complete text: at its end an unfinished tail is a unit of its own. */
  function Split(format: Format, parses: Bytes -> bool, s: Bytes): Progress {
    Close(parses, Consume(format, parses, s))
  }

  function Close(parses: Bytes -> bool, p: Progress): Progress {
    if p.rest == [] then p
    else if parses(p.rest) then Progress(p.units + [TrimRight(p.rest)], [], false)
    else Progress(p.units, [], true)
  }

  /** Every unit, with its leading white space removed, has at most `max` bytes. */
  predicate Fits(format: Format, s: Bytes, max: nat)
    decreases |s|
  {
    var t := TrimLeft(s);
    t == [] ||
    match Cut(format, t)
    case None => |t| <= max
    case Some(j) => j <= max && (j == 0 || Fits(format, t[j..], max))
  }

  lemma {:induction false} TrimLeftConcat(a: Bytes, b: Bytes)
    ensures TrimLeft(a + b) == if TrimLeft(a) == [] then TrimLeft(b) else TrimLeft(a) + b
    decreases |a|
  {
    if a == [] {
      assert a + b == b;
    } else {
      assert (a + b)[1..] == a[1..] + b;
      TrimLeftConcat(a[1..], b);
    }
  }

  lemma {:induction false} TrimLeftEmpty(a: Bytes)
    ensures TrimLeft(a) == [] <==> AllSpace(a)
    decreases |a|
  {
    if a != [] {
      assert a == [a[0]] + a[1..];
      TrimLeftEmpty(a[1..]);
    }
  }

  lemma {:induction false} NewlineAtGrows(s: Bytes, t: Bytes)
    requires s <= t
    ensures NewlineAt(s).Some? ==> NewlineAt(t) == NewlineAt(s)
    ensures NewlineAt(t).Some? && NewlineAt(t).value < |s| ==> NewlineAt(s) == NewlineAt(t)
    decreases |s|
  {
    if s != [] && s[0] != '\n' {
      NewlineAtGrows(s[1..], t[1..]);
    }
  }

  ghost predicate IsSuffix(t: Bytes, s: Bytes) { |t| <= |s| && t == s[|s| - |t|..] }

  lemma {:induction false} TrimLeftIsSuffix(s: Bytes)
    ensures IsSuffix(TrimLeft(s), s)
    decreases |s|
  {
    if s != [] && IsSpace(s[0]) {
      TrimLeftIsSuffix(s[1..]);
    }
  }

  lemma SuffixOfDrop(r: Bytes, t: Bytes, k: nat, s: Bytes)
    requires k <= |t| && IsSuffix(r, t[k..]) && IsSuffix(t, s)
    ensures IsSuffix(r, s)
  {}

  lemma CutGrows(format: Format, s: Bytes, t: Bytes)
    requires s != [] && s <= t && Cut(format, s).Some?
    ensures Cut(format, t) == Cut(format, s)
  {
    if format.NewlineDelimited? {
      NewlineAtGrows(s, t);
    } else {
      NextJsonGrows(s, t);
    }
  }

  lemma ConsumeUnit(format: Format, parses: Bytes -> bool, s: Bytes, t: Bytes, j: nat)
    requires TrimLeft(s) == t != [] && Cut(format, t) == Some(j)
    ensures Consume(format, parses, s)
         == if j == 0 || !parses(t[..j]) then Progress([], [], true)
            else Prepend([TrimRight(t[..j])], Consume(format, parses, t[j..]))
  {}

  lemma ConsumeNothing(format: Format, parses: Bytes -> bool, s: Bytes, t: Bytes)
    requires TrimLeft(s) == t && (t == [] || Cut(format, t).None?)
    ensures Consume(format, parses, s) == Progress([], t, false)
  {}

  lemma ConsumeAfterSpace(format: Format, parses: Bytes -> bool, a: Bytes, b: Bytes)
    requires TrimLeft(a) == TrimLeft(b)
    ensures Consume(format, parses, a) == Consume(format, parses, b)
  {}

  lemma PrependTwice(u: seq<Bytes>, v: seq<Bytes>, p: Progress)
    ensures Prepend(u, Prepend(v, p)) == Prepend(u + v, p)
  {
    assert u + (v + p.units) == (u + v) + p.units;
  }

  /** Streaming: what a pass left unfinished can be put in front of the bytes that come next. */
  lemma {:induction false} ConsumeConcat(format: Format, parses: Bytes -> bool, a: Bytes, b: Bytes)
    ensures Consume(format, parses, a + b) == Resume(format, parses, Consume(format, parses, a), b)
    decreases |a|
  {
    var t := TrimLeft(a);
    TrimLeftConcat(a, b);
    if t == [] || Cut(format, t).None? {
      ConsumeNothing(format, parses, a, t);
      if t == [] {
        assert [] + b == b;
      }
      ConsumeAfterSpace(format, parses, a + b, t + b);
    } else {
      var j := Cut(format, t).value;
      CutGrows(format, t, t + b);
      assert (t + b)[..j] == t[..j];
      assert (t + b)[j..] == t[j..] + b;
      ConsumeUnit(format, parses, a, t, j);
      ConsumeUnit(format, parses, a + b, t + b, j);
      if j != 0 && parses(t[..j]) {
        ConsumeConcat(format, parses, t[j..], b);
        var p := Consume(format, parses, t[j..]);
        PrependTwice([TrimRight(t[..j])], p.units, Consume(format, parses, p.rest + b));
      }
    }
  }

  /** Continuing a pass that has produced p with the bytes b. */
  function Resume(format: Format, parses: Bytes -> bool, p: Progress, b: Bytes): Progress {
    if p.failed then p else Prepend(p.units, Consume(format, parses, p.rest + b))
  }

  lemma CloseAfterPrepend(parses: Bytes -> bool, units: seq<Bytes>, p: Progress)
    ensures Close(parses, Prepend(units, p)) == Prepend(units, Close(parses, p))
  {
    if p.rest != [] && parses(p.rest) {
      assert (units + p.units) + [TrimRight(p.rest)] == units + (p.units + [TrimRight(p.rest)]);
    }
  }

  lemma SplitConcat(format: Format, parses: Bytes -> bool, a: Bytes, b: Bytes)
    ensures var p := Consume(format, parses, a);
            Split(format, parses, a + b)
            == if p.failed then p else Prepend(p.units, Split(format, parses, p.rest + b))
  {
    var p := Consume(format, parses, a);
    ConsumeConcat(format, parses, a, b);
    CloseAfterPrepend(parses, p.units, Consume(format, parses, p.rest + b));
  }

  // ---- Sizes: an unfinished tail is never longer than the unit it belongs to ----

  lemma {:induction false} StringEndShrinks(s: Bytes, t: Bytes, i: nat)
    requires s <= t && i <= |s|
    ensures StringEnd(t, i) < |s| ==> StringEnd(s, i) == StringEnd(t, i)
    ensures StringEnd(t, i) >= |s| ==> StringEnd(s, i) == |s|
    decreases |s| - i
  {
    if i < |s| {
      if s[i] == '"' {
      } else if s[i] != '\\' {
        StringEndShrinks(s, t, i + 1);
      } else if i + 1 < |s| {
        StringEndShrinks(s, t, i + 2);
      }
    }
  }

  lemma {:induction false} ValueEndShrinks(s: Bytes, t: Bytes, i: nat, depth: nat)
    requires s <= t && i <= |s|
    requires depth == 0 ==> i < |s| && (IsOpening(s[i]) || s[i] == '"')
    ensures ValueEnd(t, i, depth) < |s| ==> ValueEnd(s, i, depth) == ValueEnd(t, i, depth)
    decreases |s| - i
  {
    if i < |s| {
      if IsOpening(s[i]) {
        ValueEndShrinks(s, t, i + 1, depth + 1);
      } else if IsClosing(s[i]) {
        if depth != 1 {
          ValueEndShrinks(s, t, i + 1, depth - 1);
        }
      } else if s[i] == '"' {
        StringEndShrinks(s, t, i + 1);
        if depth != 0 && StringEnd(t, i + 1) < |s| {
          ValueEndShrinks(s, t, StringEnd(s, i + 1), depth);
        }
      } else {
        ValueEndShrinks(s, t, i + 1, depth);
      }
    }
  }

  lemma {:induction false} SeparatorAtShrinks(s: Bytes, t: Bytes, i: nat)
    requires s <= t && i <= |s|
    ensures SeparatorAt(t, i) < |s| ==> SeparatorAt(s, i) == SeparatorAt(t, i)
    decreases |s| - i
  {
    if i < |s| && s[i] != ',' && s[i] != ']' {
      SeparatorAtShrinks(s, t, i + 1);
    }
  }

  lemma CutShrinks(format: Format, s: Bytes, t: Bytes)
    requires s != [] && s <= t && Cut(format, s).None? && Cut(format, t).Some?
    ensures |s| <= Cut(format, t).value
  {
    if format.NewlineDelimited? {
      NewlineAtGrows(s, t);
    } else if IsOpening(s[0]) || s[0] == '"' {
      ValueEndShrinks(s, t, 0, 0);
    } else {
      SeparatorAtShrinks(s, t, 0);
    }
  }

  lemma {:induction false} RestFits(format: Format, parses: Bytes -> bool, a: Bytes, b: Bytes, max: nat)
    requires Fits(format, a + b, max)
    ensures var p := Consume(format, parses, a);
            !p.failed ==> |p.rest| <= max && Fits(format, p.rest + b, max)
    decreases |a|
  {
    var t := TrimLeft(a);
    TrimLeftConcat(a, b);
    if t == [] {
      assert [] + b == b;
    } else if Cut(format, t).None? {
      assert TrimLeft(t + b) == t + b;
      if Cut(format, t + b).Some? {
        CutShrinks(format, t, t + b);
      }
    } else {
      var j := Cut(format, t).value;
      CutGrows(format, t, t + b);
      assert (t + b)[j..] == t[j..] + b;
      if j != 0 && parses(t[..j]) {
        RestFits(format, parses, t[j..], b, max);
      }
    }
  }

  // ---- Newline-delimited input: the units are the trimmed non-blank lines ----

  ghost function Trim(s: Bytes): Bytes { TrimRight(TrimLeft(s)) }

  ghost function Lines(s: Bytes): seq<Bytes>
    decreases |s|
  {
    match NewlineAt(s)
    case None => [s]
    case Some(n) => [s[..n]] + Lines(s[n + 1..])
  }

  ghost function TrimmedNonBlank(lines: seq<Bytes>): seq<Bytes> {
    if lines == [] then []
    else if AllSpace(lines[0]) then TrimmedNonBlank(lines[1..])
    else [Trim(lines[0])] + TrimmedNonBlank(lines[1..])
  }

  ghost function NonBlankLines(s: Bytes): seq<Bytes> { TrimmedNonBlank(Lines(s)) }

  function EveryUnit(u: Bytes): bool { true }

  lemma TrimmedNonBlankStep(line: Bytes, rest: Bytes)
    ensures TrimmedNonBlank([line] + Lines(rest))
         == (if AllSpace(line) then [] else [Trim(line)]) + NonBlankLines(rest)
  {
    assert ([line] + Lines(rest))[1..] == Lines(rest);
  }

  lemma {:induction false} NewlineAtConcat(a: Bytes, b: Bytes)
    requires '\n' !in a
    ensures NewlineAt(a + ['\n'] + b) == Some(|a|)
    decreases |a|
  {
    if a != [] {
      assert (a + ['\n'] + b)[1..] == a[1..] + ['\n'] + b;
      NewlineAtConcat(a[1..], b);
    }
  }

  lemma {:induction false} TrimLeftSuffix(s: Bytes)
    ensures forall c | c in TrimLeft(s) :: c in s
    decreases |s|
  {
    if s != [] && IsSpace(s[0]) {
      TrimLeftSuffix(s[1..]);
    }
  }

  /** Scanning lines lazily over all white space equals cutting at newlines, trimming and dropping blanks. */
  lemma {:induction false} SplitIsLines(s: Bytes)
    ensures Split(NewlineDelimited, EveryUnit, s) == Progress(NonBlankLines(s), [], false)
    decreases |s|
  {
    hide Split, Trim, TrimmedNonBlank;
    match NewlineAt(s)
    case None => SplitLastLine(s);
    case Some(n) =>
      var line, rest := s[..n], s[n + 1..];
      assert s == line + ['\n'] + rest;
      TrimmedNonBlankStep(line, rest);
      SplitIsLines(rest);
      SplitLine(line, rest);
  }

  lemma SplitLine(line: Bytes, rest: Bytes)
    requires '\n' !in line
    ensures Split(NewlineDelimited, EveryUnit, line + ['\n'] + rest)
         == Prepend(if AllSpace(line) then [] else [Trim(line)], Split(NewlineDelimited, EveryUnit, rest))
  {
    hide Consume, Close, Trim;
    ConsumeLine(line, rest);
    SplitConcat(NewlineDelimited, EveryUnit, line + ['\n'], rest);
    assert [] + rest == rest;
  }

  lemma SplitLastLine(s: Bytes)
    requires '\n' !in s
    ensures Split(NewlineDelimited, EveryUnit, s) == Progress(NonBlankLines(s), [], false)
  {
    var t := TrimLeft(s);
    TrimLeftEmpty(s);
    TrimLeftSuffix(s);
    ConsumeNothing(NewlineDelimited, EveryUnit, s, t);
    TrimmedNonBlankOne(s);
  }

  lemma FitsTrimmed(format: Format, s: Bytes, t: Bytes, max: nat)
    requires TrimLeft(s) == TrimLeft(t)
    ensures Fits(format, s, max) == Fits(format, t, max)
  {}

  lemma FitsLine(line: Bytes, rest: Bytes, max: nat)
    requires '\n' !in line
    ensures Fits(NewlineDelimited, line + ['\n'] + rest, max) <==>
      |TrimLeft(line)| <= max && Fits(NewlineDelimited, rest, max)
  {
    var t, more := TrimLeft(line), ['\n'] + rest;
    assert line + ['\n'] + rest == line + more;
    TrimLeftConcat(line, more);
    TrimLeftConcat(['\n'], rest);
    hide TrimLeft;
    FitsTrimmed(NewlineDelimited, more, rest, max);
    if t == [] {
      FitsTrimmed(NewlineDelimited, line + more, more, max);
    } else {
      TrimLeftSuffix(line);
      NewlineAtConcat(t, rest);
      assert t + more == t + ['\n'] + rest && (t + more)[|t|..] == more;
    }
  }

  /** All units fit exactly if all lines do, without their leading white space. */
  lemma {:induction false} FitsIsLines(s: Bytes, max: nat)
    ensures Fits(NewlineDelimited, s, max) <==> forall line <- Lines(s) :: |TrimLeft(line)| <= max
    decreases |s|
  {
    match NewlineAt(s)
    case None =>
      TrimLeftSuffix(s);
      assert Lines(s) == [s] && s in Lines(s);
      assert Fits(NewlineDelimited, s, max) <==> |TrimLeft(s)| <= max;
    case Some(n) =>
      hide Fits, TrimLeft;
      var line, rest := s[..n], s[n + 1..];
      assert s == line + ['\n'] + rest;
      FitsIsLines(rest, max);
      FitsLine(line, rest, max);
      var lines := Lines(rest);
      assert Lines(s) == [line] + lines;
      hide Lines;
      assert forall l | l in [line] + lines :: l == line || l in lines;
      assert line in [line] + lines && forall l <- lines :: l in [line] + lines;
  }

  lemma TrimmedNonBlankOne(line: Bytes)
    ensures TrimmedNonBlank([line]) == if AllSpace(line) then [] else [Trim(line)]
  {
    assert [line][1..] == [];
    assert TrimmedNonBlank([line][1..]) == [];
  }

  lemma ConsumeLine(line: Bytes, rest: Bytes)
    requires '\n' !in line
    ensures Consume(NewlineDelimited, EveryUnit, line + ['\n'])
         == Progress(if AllSpace(line) then [] else [Trim(line)], [], false)
  {
    var t := TrimLeft(line);
    TrimLeftConcat(line, ['\n']);
    TrimLeftEmpty(line);
    TrimLeftEmpty(['\n']);
    if t != [] {
      TrimLeftSuffix(line);
      NewlineAtConcat(t, []);
      assert t + ['\n'] + [] == t + ['\n'];
      assert (t + ['\n'])[..|t|] == t;
      assert (t + ['\n'])[|t|..] == ['\n'];
      assert Consume(NewlineDelimited, EveryUnit, ['\n']) == Progress([], [], false);
    }
  }

  // ---- Unstructured input: a stream of RFC 8259 values is split into exactly those values ----

  ghost function StreamText(values: seq<Json>, gaps: seq<Bytes>): Bytes
    requires |gaps| == |values|
  {
    if values == [] then [] else Text(values[0]) + (gaps[0] + StreamText(values[1..], gaps[1..]))
  }

  ghost function Texts(values: seq<Json>): seq<Bytes> {
    if values == [] then [] else [Text(values[0])] + Texts(values[1..])
  }

  lemma ValueIsTight(j: Json)
    requires WellFormed(j) && !j.Scalar?
    ensures var t := Text(j); t != [] && !IsSpace(t[0]) && TrimRight(t) == t
  {}

  lemma {:induction false} SplitIsValues(parses: Bytes -> bool, values: seq<Json>, gaps: seq<Bytes>)
    requires |gaps| == |values|
    requires forall j | j in values :: WellFormed(j) && !j.Scalar? && parses(Text(j))
    requires forall g | g in gaps :: AllSpace(g)
    ensures Split(Unstructured, parses, StreamText(values, gaps)) == Progress(Texts(values), [], false)
    decreases |values|
  {
    if values != [] {
      SplitIsValues(parses, values[1..], gaps[1..]);
      SplitAfterSpace(Unstructured, parses, gaps[0], StreamText(values[1..], gaps[1..]));
      SplitFirstValue(parses, values[0], gaps[0] + StreamText(values[1..], gaps[1..]));
    }
  }

  lemma SplitFirstValue(parses: Bytes -> bool, j: Json, tail: Bytes)
    requires WellFormed(j) && !j.Scalar? && parses(Text(j))
    ensures Split(Unstructured, parses, Text(j) + tail) == Prepend([Text(j)], Split(Unstructured, parses, tail))
  {
    var t := Text(j);
    ValueIsTight(j);
    if tail == [] {
      SplitterWaitsForTheEnd(j, |t|);
      assert t[..|t|] == t && t + tail == t;
    } else {
      SplitterFindsTheEnd(j, tail);
      assert (t + tail)[..|t|] == t && (t + tail)[|t|..] == tail;
      ConsumeUnit(Unstructured, parses, t + tail, t + tail, |t|);
      CloseAfterPrepend(parses, [t], Consume(Unstructured, parses, tail));
    }
  }

  lemma SplitAfterSpace(format: Format, parses: Bytes -> bool, gap: Bytes, s: Bytes)
    requires AllSpace(gap)
    ensures Split(format, parses, gap + s) == Split(format, parses, s)
  {
    TrimLeftConcat(gap, s);
    TrimLeftEmpty(gap);
  }
}
