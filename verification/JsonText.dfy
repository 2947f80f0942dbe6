/** The byte-level splitter of json_reader.cpp: where does the JSON value that starts here end?
    A `char` stands for one byte of the file; the code only compares bytes for equality. */
module JsonText {
  import opened Wrappers

  type Bytes = seq<char>

  predicate IsSpace(c: char) {
    c == ' ' || c == '\t' || c == '\n' || c == '\U{0b}' || c == '\U{0c}' || c == '\r'
  }

  predicate IsOpening(c: char) { c == '{' || c == '[' }

  predicate IsClosing(c: char) { c == '}' || c == ']' }

  /** Just behind the quote that closes a string whose content starts at i, or the end of s. */
  function StringEnd(s: Bytes, i: nat): (e: nat)
    requires i <= |s|
    ensures i <= e <= |s|
    decreases |s| - i
  {
    if i == |s| then i
    else if s[i] == '"' then i + 1
    else if s[i] != '\\' then StringEnd(s, i + 1)
    else if i + 1 < |s| then StringEnd(s, i + 2)
    else i + 1
  }

  /** Just behind the bracket or quote that brings the nesting depth back to 0, or the end of s. */
  function ValueEnd(s: Bytes, i: nat, depth: nat): (e: nat)
    requires i <= |s|
    requires depth == 0 && i < |s| ==> IsOpening(s[i]) || s[i] == '"'
    ensures i <= e <= |s|
    decreases |s| - i
  {
    if i == |s| then i
    else if IsOpening(s[i]) then ValueEnd(s, i + 1, depth + 1)
    else if IsClosing(s[i]) then
      if depth == 1 then i + 1 else ValueEnd(s, i + 1, depth - 1)
    else if s[i] == '"' then
      var e := StringEnd(s, i + 1);
      if depth == 0 then e else ValueEnd(s, e, depth)
    else ValueEnd(s, i + 1, depth)
  }

  /** The first ',' or ']' at or behind i, or the end of s. */
  function SeparatorAt(s: Bytes, i: nat): (e: nat)
    requires i <= |s|
    ensures i <= e <= |s|
    decreases |s| - i
  {
    if i == |s| || s[i] == ',' || s[i] == ']' then i else SeparatorAt(s, i + 1)
  }

  /** The specification of NextJSON: None when no end is visible before the end of s. */
  function NextJson(s: Bytes): (r: Option<nat>)
    requires s != []
    ensures r.Some? ==> r.value < |s|
  {
    var e := if IsOpening(s[0]) || s[0] == '"' then ValueEnd(s, 0, 0) else SeparatorAt(s, 0);
    if e == |s| then None else Some(e)
  }

  function Displaced(offset: Option<nat>, start: nat): Option<nat> {
    if offset.None? then None else Some(start + offset.value)
  }

  lemma StringStep(s: Bytes, i: nat)
    requires i <= |s|
    ensures StringEnd(s, i) == if i == |s| then i else if s[i] == '"' then i + 1
                               else if s[i] != '\\' then StringEnd(s, i + 1)
                               else if i + 1 < |s| then StringEnd(s, i + 2) else i + 1
  {}

  lemma ValueStep(s: Bytes, i: nat, depth: nat)
    requires i < |s| && (depth == 0 ==> IsOpening(s[i]) || s[i] == '"')
    ensures ValueEnd(s, |s|, depth) == |s|
    ensures ValueEnd(s, i, depth) ==
      if IsOpening(s[i]) then ValueEnd(s, i + 1, depth + 1)
      else if IsClosing(s[i]) then if depth == 1 then i + 1 else ValueEnd(s, i + 1, depth - 1)
      else if s[i] == '"' then if depth == 0 then StringEnd(s, i + 1) else ValueEnd(s, StringEnd(s, i + 1), depth)
      else ValueEnd(s, i + 1, depth)
  {
    hide StringEnd;
  }

  method NextJSONDefault(buffer: array<char>, start: nat, end: nat) returns (ptr: nat)
    requires start < end <= buffer.Length
    requires IsOpening(buffer[start]) || buffer[start] == '"'
    ensures start <= ptr <= end
    ensures ptr - start == ValueEnd(buffer[start..end], 0, 0)
  {
    hide StringEnd, ValueEnd;
    var parents: nat := 0;
    ptr := start;
    ghost var s := buffer[start..end];
    ValueStep(s, 0, 0);
    while ptr != end
      invariant start <= ptr <= end
      invariant parents > 0 || ptr == start  // the unsigned depth never underflows
      invariant ValueEnd(s, 0, 0) == ValueEnd(s, ptr - start, parents)
      decreases end - ptr
    {
      var c := buffer[ptr];
      assert c == s[ptr - start];
      ValueStep(s, ptr - start, parents);
      ghost var here := ptr - start;
      ptr := ptr + 1;
      if IsOpening(c) {
        parents := parents + 1;
        continue;
      } else if IsClosing(c) {
        parents := parents - 1;
      } else if c == '"' {
        while ptr != end
          invariant start < ptr <= end
          invariant StringEnd(s, here + 1) == StringEnd(s, ptr - start)
          decreases end - ptr
        {
          var stringChar := buffer[ptr];
          assert stringChar == s[ptr - start];
          StringStep(s, ptr - start);
          ptr := ptr + 1;
          if stringChar == '"' {
            break;
          } else if stringChar == '\\' {
            if ptr != end {
              ptr := ptr + 1;
            }
          }
        }
        if ptr == end {
          StringStep(s, |s|);
        }
        assert ptr - start == StringEnd(s, here + 1);
      } else {
        continue;
      }
      if parents == 0 {
        break;
      }
    }
  }

  method NextJSON(buffer: array<char>, start: nat, size: nat) returns (end: Option<nat>)
    requires size > 0 && start + size <= buffer.Length
    requires !IsSpace(buffer[start])
    ensures end == Displaced(NextJson(buffer[start..start + size]), start)
  {
    var stop := start + size;
    ghost var s := buffer[start..stop];
    var ptr := start;
    assert buffer[start] == s[0];
    if IsOpening(buffer[start]) || buffer[start] == '"' {
      ptr := NextJSONDefault(buffer, start, stop);
    } else {
      while ptr != stop
        invariant start <= ptr <= stop
        invariant SeparatorAt(s, 0) == SeparatorAt(s, ptr - start)
        decreases stop - ptr
      {
        assert buffer[ptr] == s[ptr - start];
        if buffer[ptr] == ',' || buffer[ptr] == ']' {
          break;
        }
        ptr := ptr + 1;
      }
    }
    end := if ptr == stop then None else Some(ptr);
  }

  // ---- An end that is visible stays the end when more bytes follow ----

  lemma {:induction false} StringEndGrows(s: Bytes, t: Bytes, i: nat)
    requires s <= t && i <= |s| && StringEnd(s, i) < |s|
    ensures StringEnd(t, i) == StringEnd(s, i)
    decreases |s| - i
  {
    if s[i] == '"' {
    } else if s[i] != '\\' {
      StringEndGrows(s, t, i + 1);
    } else if i + 1 < |s| {
      StringEndGrows(s, t, i + 2);
    }
  }

  lemma {:induction false} ValueEndGrows(s: Bytes, t: Bytes, i: nat, depth: nat)
    requires s <= t && i <= |s|
    requires depth == 0 && i < |s| ==> IsOpening(s[i]) || s[i] == '"'
    requires ValueEnd(s, i, depth) < |s|
    ensures ValueEnd(t, i, depth) == ValueEnd(s, i, depth)
    decreases |s| - i
  {
    if IsOpening(s[i]) {
      ValueEndGrows(s, t, i + 1, depth + 1);
    } else if IsClosing(s[i]) {
      if depth != 1 {
        ValueEndGrows(s, t, i + 1, depth - 1);
      }
    } else if s[i] == '"' {
      StringEndGrows(s, t, i + 1);
      if depth != 0 {
        ValueEndGrows(s, t, StringEnd(s, i + 1), depth);
      }
    } else {
      ValueEndGrows(s, t, i + 1, depth);
    }
  }

  lemma {:induction false} SeparatorAtGrows(s: Bytes, t: Bytes, i: nat)
    requires s <= t && i <= |s| && SeparatorAt(s, i) < |s|
    ensures SeparatorAt(t, i) == SeparatorAt(s, i)
    decreases |s| - i
  {
    if s[i] != ',' && s[i] != ']' {
      SeparatorAtGrows(s, t, i + 1);
    }
  }

  lemma NextJsonGrows(s: Bytes, t: Bytes)
    requires s != [] && s <= t && NextJson(s).Some?
    ensures NextJson(t) == NextJson(s)
  {
    if IsOpening(s[0]) || s[0] == '"' {
      ValueEndGrows(s, t, 0, 0);
    } else {
      SeparatorAtGrows(s, t, 0);
    }
  }

  // ---- The grammar of RFC 8259, sections 2 to 7, as concrete syntax trees ----

  /** Section 7: an unescaped character, a two-character escape, or \u with four hex digits. */
  datatype StrChar = Plain(c: char) | Escape(c: char) | Unicode(hex: seq<char>)

  /** Sections 3 to 5. A scalar is the text of a number or of true, false or null. */
  datatype Json = Scalar(text: Bytes) | Str(chars: seq<StrChar>) | Arr(body: Body) | Obj(body: Body)

  datatype Body = Blank(ws: Bytes) | Last(m: Member) | More(m: Member, rest: Body)

  datatype Member =
    | Item(before: Bytes, value: Json, after: Bytes)
    | Field(before: Bytes, name: seq<StrChar>, colonBefore: Bytes, colonAfter: Bytes, value: Json, after: Bytes)

  predicate IsBlank(ws: Bytes) {
    forall c | c in ws :: c == ' ' || c == '\t' || c == '\n' || c == '\r'
  }

  predicate IsHex(c: char) { '0' <= c <= '9' || 'a' <= c <= 'f' || 'A' <= c <= 'F' }

  predicate WellFormedChar(c: StrChar) {
    match c
    case Plain(ch) => ch != '"' && ch != '\\' && ch >= ' '
    case Escape(ch) => ch in "\"\\/bfnrt"
    case Unicode(hex) => |hex| == 4 && forall h | h in hex :: IsHex(h)
  }

  function HexDigit(n: nat): char
    requires n < 16
  {
    if n < 10 then '0' + n as char else 'a' + (n - 10) as char
  }

  function Hex(n: nat): Bytes
    requires n < 0x1_0000
  {
    [HexDigit(n / 0x1000), HexDigit(n / 0x100 % 16), HexDigit(n / 16 % 16), HexDigit(n % 16)]
  }

  /** Every code of 16 bits can be written with four hex digits, which have these codes. */
  lemma UnicodeCodes(n: nat, c: char)
    requires n < 0x1_0000
    ensures WellFormedChar(Unicode(Hex(n)))
    ensures IsHex(c) <==> 48 <= c as int <= 57 || 65 <= c as int <= 70 || 97 <= c as int <= 102
  {
    assert '0' as int == 48 && '9' as int == 57 && 'A' as int == 65 && 'F' as int == 70;
    assert 'a' as int == 97 && 'f' as int == 102;
    assert forall k | 0 <= k < 4 :: IsHex(Hex(n)[k]);
  }

  /** More generous than sections 3 and 6: any text without brackets, quotes or separators. */
  predicate WellFormedScalar(text: Bytes) {
    text != [] && forall c | c in text :: !IsOpening(c) && !IsClosing(c) && c != '"' && c != ',' && c != ':'
  }

  predicate WellFormed(j: Json) {
    match j
    case Scalar(text) => WellFormedScalar(text)
    case Str(chars) => forall c | c in chars :: WellFormedChar(c)
    case Arr(body) => WellFormedBody(body, false)
    case Obj(body) => WellFormedBody(body, true)
  }

  predicate WellFormedBody(b: Body, fields: bool) {
    match b
    case Blank(ws) => IsBlank(ws)
    case Last(m) => WellFormedMember(m, fields)
    case More(m, rest) => WellFormedMember(m, fields) && !rest.Blank? && WellFormedBody(rest, fields)
  }

  predicate WellFormedMember(m: Member, fields: bool) {
    && m.Field? == fields
    && IsBlank(m.before) && IsBlank(m.after) && WellFormed(m.value)
    && (m.Field? ==> IsBlank(m.colonBefore) && IsBlank(m.colonAfter) && forall c | c in m.name :: WellFormedChar(c))
  }

  function CharText(c: StrChar): Bytes {
    match c
    case Plain(ch) => [ch]
    case Escape(ch) => ['\\', ch]
    case Unicode(hex) => ['\\', 'u'] + hex
  }

  function CharsText(chars: seq<StrChar>): Bytes {
    if chars == [] then [] else CharText(chars[0]) + CharsText(chars[1..])
  }

  function StrText(chars: seq<StrChar>): Bytes { ['"'] + (CharsText(chars) + ['"']) }

  function Text(j: Json): Bytes {
    match j
    case Scalar(text) => text
    case Str(chars) => StrText(chars)
    case Arr(body) => ['['] + (BodyText(body) + [']'])
    case Obj(body) => ['{'] + (BodyText(body) + ['}'])
  }

  function BodyText(b: Body): Bytes {
    match b
    case Blank(ws) => ws
    case Last(m) => MemberText(m)
    case More(m, rest) => MemberText(m) + ([','] + BodyText(rest))
  }

  function MemberText(m: Member): Bytes {
    match m
    case Item(before, value, after) => before + (Text(value) + after)
    case Field(before, name, cb, ca, value, after) =>
      before + (StrText(name) + (ColonText(cb, ca) + (Text(value) + after)))
  }

  function ColonText(before: Bytes, after: Bytes): Bytes { before + ([':'] + after) }

  // ---- The splitter agrees with the grammar ----

  /** t is the text of s that starts at i. */
  predicate At(s: Bytes, i: nat, t: Bytes) {
    i + |t| <= |s| && s[i..i + |t|] == t
  }

  lemma AtSplit(s: Bytes, i: nat, a: Bytes, b: Bytes)
    requires At(s, i, a + b)
    ensures At(s, i, a) && At(s, i + |a|, b)
  {
    assert s[i..i + |a|] == s[i..i + |a + b|][..|a|] == a;
    assert s[i + |a|..i + |a| + |b|] == s[i..i + |a + b|][|a|..] == b;
  }

  lemma AtFirst(s: Bytes, i: nat, t: Bytes, k: nat)
    requires At(s, i, t) && k < |t|
    ensures s[i + k] == t[k]
  {
    assert s[i..i + |t|][k] == t[k];
  }

  lemma {:induction false} ThroughHex(s: Bytes, i: nat, hex: Bytes)
    requires At(s, i, hex) && forall h | h in hex :: IsHex(h)
    ensures StringEnd(s, i) == StringEnd(s, i + |hex|)
    decreases |hex|
  {
    if hex != [] {
      AtFirst(s, i, hex, 0);
      assert IsHex(hex[0]);
      assert [hex[0]] + hex[1..] == hex;
      AtSplit(s, i, [hex[0]], hex[1..]);
      ThroughHex(s, i + 1, hex[1..]);
    }
  }

  lemma ThroughChar(s: Bytes, i: nat, c: StrChar)
    requires At(s, i, CharText(c)) && WellFormedChar(c)
    ensures StringEnd(s, i) == StringEnd(s, i + |CharText(c)|)
  {
    AtFirst(s, i, CharText(c), 0);
    if c.Unicode? {
      AtSplit(s, i, ['\\', 'u'], c.hex);
      ThroughHex(s, i + 2, c.hex);
    }
  }

  lemma {:induction false} ThroughChars(s: Bytes, i: nat, chars: seq<StrChar>)
    requires At(s, i, CharsText(chars)) && forall c | c in chars :: WellFormedChar(c)
    ensures StringEnd(s, i) == StringEnd(s, i + |CharsText(chars)|)
    decreases |chars|
  {
    hide StringEnd, CharText;
    if chars != [] {
      AtSplit(s, i, CharText(chars[0]), CharsText(chars[1..]));
      ThroughChar(s, i, chars[0]);
      ThroughChars(s, i + |CharText(chars[0])|, chars[1..]);
    }
  }

  lemma ClosingQuote(s: Bytes, i: nat)
    requires At(s, i, ['"'])
    ensures StringEnd(s, i) == i + 1
  {
    AtFirst(s, i, ['"'], 0);
  }

  lemma ThroughString(s: Bytes, i: nat, chars: seq<StrChar>)
    requires At(s, i, StrText(chars)) && forall c | c in chars :: WellFormedChar(c)
    ensures s[i] == '"' && StringEnd(s, i + 1) == i + |StrText(chars)|
  {
    hide CharsText, StringEnd, WellFormedChar, At;
    assert StrText(chars) == ['"'] + (CharsText(chars) + ['"']);
    AtFirst(s, i, StrText(chars), 0);
    AtSplit(s, i, ['"'], CharsText(chars) + ['"']);
    AtSplit(s, i + 1, CharsText(chars), ['"']);
    ThroughChars(s, i + 1, chars);
    ClosingQuote(s, i + 1 + |CharsText(chars)|);
  }

  lemma ThroughStringInside(s: Bytes, i: nat, chars: seq<StrChar>, depth: nat)
    requires At(s, i, StrText(chars)) && (forall c | c in chars :: WellFormedChar(c)) && depth > 0
    ensures ValueEnd(s, i, depth) == ValueEnd(s, i + |StrText(chars)|, depth)
  {
    hide StrText, StringEnd;
    ThroughString(s, i, chars);
  }

  lemma {:induction false} ThroughNeutral(s: Bytes, i: nat, t: Bytes, depth: nat)
    requires At(s, i, t) && depth > 0
    requires forall c | c in t :: !IsOpening(c) && !IsClosing(c) && c != '"'
    ensures ValueEnd(s, i, depth) == ValueEnd(s, i + |t|, depth)
    decreases |t|
  {
    if t != [] {
      AtFirst(s, i, t, 0);
      assert [t[0]] + t[1..] == t;
      AtSplit(s, i, [t[0]], t[1..]);
      assert forall c | c in t[1..] :: c in t;
      ThroughNeutral(s, i + 1, t[1..], depth);
    }
  }

  /** Inside brackets, scanning passes over a whole value and keeps the depth. */
  lemma {:induction false} ThroughValue(s: Bytes, i: nat, j: Json, depth: nat)
    requires At(s, i, Text(j)) && WellFormed(j) && depth > 0
    ensures ValueEnd(s, i, depth) == ValueEnd(s, i + |Text(j)|, depth)
    decreases j
  {
    match j
    case Scalar(text) => ThroughNeutral(s, i, text, depth);
    case Str(chars) => ThroughStringInside(s, i, chars, depth);
    case Arr(body) => ThroughContainer(s, i, j, depth);
    case Obj(body) => ThroughContainer(s, i, j, depth);
  }

  /** From outside or inside brackets, a container is left exactly behind its closing bracket. */
  lemma {:induction false} ThroughContainer(s: Bytes, i: nat, j: Json, depth: nat)
    requires At(s, i, Text(j)) && WellFormed(j) && (j.Arr? || j.Obj?)
    ensures IsOpening(s[i])
    ensures ValueEnd(s, i, depth)
         == if depth == 0 then i + |Text(j)| else ValueEnd(s, i + |Text(j)|, depth)
    decreases j, 0
  {
    hide BodyText, WellFormedBody, StringEnd;
    var open, close := if j.Arr? then '[' else '{', if j.Arr? then ']' else '}';
    var b := BodyText(j.body);
    AtFirst(s, i, Text(j), 0);
    AtSplit(s, i, [open], b + [close]);
    AtSplit(s, i + 1, b, [close]);
    ThroughBody(s, i + 1, j.body, j.Obj?, depth + 1);
    AtFirst(s, i + 1 + |b|, [close], 0);
  }

  lemma {:induction false} ThroughBody(s: Bytes, i: nat, b: Body, fields: bool, depth: nat)
    requires At(s, i, BodyText(b)) && WellFormedBody(b, fields) && depth > 0
    ensures ValueEnd(s, i, depth) == ValueEnd(s, i + |BodyText(b)|, depth)
    decreases b
  {
    hide MemberText, ValueEnd, WellFormedMember;
    match b
    case Blank(ws) => ThroughNeutral(s, i, ws, depth);
    case Last(m) => ThroughMember(s, i, m, fields, depth);
    case More(m, rest) =>
      AtSplit(s, i, MemberText(m), [','] + BodyText(rest));
      ThroughMember(s, i, m, fields, depth);
      var k := i + |MemberText(m)|;
      AtSplit(s, k, [','], BodyText(rest));
      ThroughNeutral(s, k, [','], depth);
      ThroughBody(s, k + 1, rest, fields, depth);
  }

  lemma {:induction false} ThroughMember(s: Bytes, i: nat, m: Member, fields: bool, depth: nat)
    requires At(s, i, MemberText(m)) && WellFormedMember(m, fields) && depth > 0
    ensures ValueEnd(s, i, depth) == ValueEnd(s, i + |MemberText(m)|, depth)
    decreases m
  {
    hide Text, StrText, ColonText, ValueEnd, WellFormed;
    match m
    case Item(before, value, after) =>
      AtSplit(s, i, before, Text(value) + after);
      ThroughNeutral(s, i, before, depth);
      ThroughItem(s, i + |before|, m, fields, depth);
    case Field(before, name, cb, ca, value, after) =>
      AtSplit(s, i, before, StrText(name) + (ColonText(cb, ca) + (Text(value) + after)));
      ThroughNeutral(s, i, before, depth);
      ThroughField(s, i + |before|, m, fields, depth);
  }

  lemma {:induction false} ThroughField(s: Bytes, i: nat, m: Member, fields: bool, depth: nat)
    requires m.Field? && WellFormedMember(m, fields) && depth > 0
    requires At(s, i, StrText(m.name) + (ColonText(m.colonBefore, m.colonAfter) + (Text(m.value) + m.after)))
    ensures ValueEnd(s, i, depth)
         == ValueEnd(s, i + |StrText(m.name) + (ColonText(m.colonBefore, m.colonAfter) + (Text(m.value) + m.after))|,
           depth)
    decreases m, 1
  {
    hide Text, CharsText, ValueEnd, StringEnd, WellFormed;
    var colon, tail := ColonText(m.colonBefore, m.colonAfter), Text(m.value) + m.after;
    AtSplit(s, i, StrText(m.name), colon + tail);
    ThroughStringInside(s, i, m.name, depth);
    var k := i + |StrText(m.name)|;
    AtSplit(s, k, colon, tail);
    ThroughNeutral(s, k, colon, depth);
    ThroughItem(s, k + |colon|, m, fields, depth);
  }

  lemma {:induction false} ThroughItem(s: Bytes, i: nat, m: Member, fields: bool, depth: nat)
    requires At(s, i, Text(m.value) + m.after) && WellFormedMember(m, fields) && depth > 0
    ensures ValueEnd(s, i, depth) == ValueEnd(s, i + |Text(m.value) + m.after|, depth)
    decreases m, 0
  {
    hide Text, ValueEnd, WellFormed;
    AtSplit(s, i, Text(m.value), m.after);
    ThroughValue(s, i, m.value, depth);
    ThroughNeutral(s, i + |Text(m.value)|, m.after, depth);
  }

  /** White space as the C locale has it: tab to carriage return, and the space. */
  lemma SpaceCodes(c: char)
    ensures IsSpace(c) <==> c as int == 32 || 9 <= c as int <= 13
    ensures IsBlank([c]) ==> IsSpace(c)
  {
    assert c in [c];
  }

  lemma {:induction false} SeparatorIsFirst(s: Bytes, i: nat)
    requires i <= |s|
    ensures var e := SeparatorAt(s, i);
      (e == |s| || s[e] == ',' || s[e] == ']') && forall k | i <= k < e :: s[k] != ',' && s[k] != ']'
    decreases |s| - i
  {
    if i < |s| && s[i] != ',' && s[i] != ']' {
      SeparatorIsFirst(s, i + 1);
    }
  }

  /** A scalar, with white space behind it, is cut at the comma or bracket that follows, and not before one is
      visible. */
  lemma ScalarsEndAtSeparator(text: Bytes, blank: Bytes, separator: char, rest: Bytes)
    requires WellFormedScalar(text) && IsBlank(blank) && (separator == ',' || separator == ']')
    ensures NextJson(text + blank + [separator] + rest) == Some(|text + blank|) && NextJson(text + blank) == None
  {
    var s := text + blank + [separator] + rest;
    SeparatorIsFirst(s, 0);
    SeparatorIsFirst(text + blank, 0);
    forall k | 0 <= k < |text + blank| ensures s[k] != ',' && s[k] != ']' {
      assert s[k] == (text + blank)[k];
      assert k < |text| ==> text[k] in text;
      assert k >= |text| ==> blank[k - |text|] in blank;
    }
    assert s[|text + blank|] == separator && text[0] in text && s[0] == text[0];
    assert (text + blank)[0] == text[0];
    assert forall k | 0 <= k < |text + blank| :: (text + blank)[k] == s[k];
  }

  /** A well-formed object, array or string is cut exactly at its end as soon as one more byte is visible. */
  lemma SplitterFindsTheEnd(j: Json, rest: Bytes)
    requires WellFormed(j) && !j.Scalar? && rest != []
    ensures NextJson(Text(j) + rest) == Some(|Text(j)|)
  {
    var s := Text(j) + rest;
    assert At(s, 0, Text(j));
    if j.Str? {
      ThroughString(s, 0, j.chars);
    } else {
      ThroughContainer(s, 0, j, 0);
    }
  }

  /** No proper prefix of such a value, nor the value alone, is ever cut. */
  lemma SplitterWaitsForTheEnd(j: Json, k: nat)
    requires WellFormed(j) && !j.Scalar? && 0 < k <= |Text(j)|
    ensures NextJson(Text(j)[..k]) == None
  {
    var p, s := Text(j)[..k], Text(j) + [' '];
    if NextJson(p).Some? {
      assert p <= s;
      NextJsonGrows(p, s);
      SplitterFindsTheEnd(j, [' ']);
    }
  }
}
