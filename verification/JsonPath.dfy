/** JSON paths such as $.a[0]..b[*]: the tokenizer, the validator, and the two evaluators that trust it. A position is
    an offset into the path. The tokenizer looks at the byte behind the path, too: the terminating NUL of a constant
    path, but any byte at all when the path comes from a column and has 12 bytes or more. */
module JsonPath {
  import opened Wrappers
  import opened JsonTree
  import opened Names

  const NUL := '\0'
  const INVALID_INDEX: nat := 0xFFFF_FFFF_FFFF_FFFF
  const UINT32_MAX: nat := 0xFFFF_FFFF
  const IDX_T_SAFE_DIG: nat := 19

  /** A byte of the path or, at its end, the byte that happens to be behind it in memory. */
  function Peek(path: string, after: char, p: nat): char { if p < |path| then path[p] else after }

  // ---- Keys ----

  /** `chars` is 0 when the key is not valid. */
  datatype Key = Key(chars: nat, recursive: bool, key: string)

  /** The text of a quoted key from p on and the position of the closing quote; `backslash` is set behind one. */
  function Quoted(path: string, p: nat, backslash: bool): (r: Option<(string, nat)>)
    requires p <= |path|
    ensures r.Some? ==> p <= r.value.1 < |path| && path[r.value.1] == '"'
    decreases |path| - p
  {
    if p == |path| then None
    else if backslash then
      Put(if path[p] == '"' || path[p] == '\\' then [path[p]] else ['\\', path[p]], Quoted(path, p + 1, false))
    else if path[p] == '"' then Some(([], p))
    else if path[p] == '\\' then Quoted(path, p + 1, true)
    else Put([path[p]], Quoted(path, p + 1, false))
  }

  function Put(text: string, r: Option<(string, nat)>): Option<(string, nat)> {
    if r.Some? then Some((text + r.value.0, r.value.1)) else None
  }

  lemma PutPut(a: string, b: string, r: Option<(string, nat)>)
    ensures Put(a, Put(b, r)) == Put(a + b, r) && Put([], r) == r
  {
    if r.Some? {
      assert a + (b + r.value.0) == a + b + r.value.0;
      assert [] + r.value.0 == r.value.0;
    }
  }

  function KeyEnd(path: string, p: nat): (e: nat)
    requires p <= |path|
    ensures p <= e <= |path| && (e == |path| || path[e] == '.' || path[e] == '[')
    ensures forall q | p <= q < e :: path[q] != '.' && path[q] != '['
    decreases |path| - p
  {
    if p == |path| || path[p] == '.' || path[p] == '[' then p else KeyEnd(path, p + 1)
  }

  method ReadString(path: string, start: nat, escaped: bool) returns (r: Key)
    requires start <= |path|
    ensures !r.recursive
    ensures !escaped ==> r == Key(KeyEnd(path, start) - start, false, path[start..KeyEnd(path, start)])
    ensures escaped ==> var q := Quoted(path, start, false);
                        r == if q.Some? then Key(q.value.1 - start, false, q.value.0) else Key(0, false, "")
  {
    var end, ptr := |path|, start;
    if escaped {
      var key := new char[end - ptr];
      var keyLen: nat := 0;
      var backslash := false;
      PutPut([], [], Quoted(path, ptr, false));
      assert key[..keyLen] == [];
      while ptr != end
        invariant start <= ptr <= end && keyLen + (if backslash then 1 else 0) <= ptr - start
        invariant Put(key[..keyLen], Quoted(path, ptr, backslash)) == Quoted(path, start, false)
        decreases end - ptr
      {
        ghost var before := key[..keyLen];
        ghost var unit := if backslash && path[ptr] != '"' && path[ptr] != '\\' then ['\\', path[ptr]] else [path[ptr]];
        PutPut(before, unit, Quoted(path, ptr + 1, false));
        if backslash {
          if path[ptr] != '"' && path[ptr] != '\\' {
            key[keyLen] := '\\';
            keyLen := keyLen + 1;
            assert key[..keyLen] == before + ['\\'];
          }
          backslash := false;
        } else {
          if path[ptr] == '"' {
            break;
          } else if path[ptr] == '\\' {
            backslash := true;
            ptr := ptr + 1;
            continue;
          }
        }
        ghost var more := key[..keyLen];
        key[keyLen] := path[ptr];
        keyLen := keyLen + 1;
        assert key[..keyLen] == more + [path[ptr]] == before + unit;
        ptr := ptr + 1;
      }
      if ptr == end || backslash {
        return Key(0, false, "");
      }
      return Key(ptr - start, false, key[..keyLen]);
    }
    while ptr != end
      invariant start <= ptr <= end && KeyEnd(path, ptr) == KeyEnd(path, start)
      decreases end - ptr
    {
      if path[ptr] == '.' || path[ptr] == '[' {
        break;
      }
      ptr := ptr + 1;
    }
    return Key(ptr - start, false, path[start..ptr]);
  }

  /** A plain or quoted key at p. Behind the path, a quote is taken for an opening one and the end is passed. */
  function NameAt(path: string, after: char, p: nat): (k: Key)
    requires p <= |path|
    ensures !k.recursive && p + k.chars <= |path| + 1
    ensures p < |path| ==> p + k.chars <= |path|
  {
    if Peek(path, after, p) == '"' then
      if p == |path| then Key(1, false, "")
      else
        var q := Quoted(path, p + 1, false);
        if q.None? || q.value.1 == p + 1 then Key(0, false, "") else Key(q.value.1 - p + 1, false, q.value.0)
    else Key(KeyEnd(path, p) - p, false, path[p..KeyEnd(path, p)])
  }

  /** The key behind a dot: a name, a wildcard, or one of the forms of recursive descent. */
  function KeyAt(path: string, after: char, p: nat): (k: Key)
    requires p < |path|
    ensures p + k.chars <= |path| + 1
  {
    if path[p] == '*' then
      if Peek(path, after, p + 1) == '*' then Key(2, true, "*") else Key(1, false, "*")
    else if path[p] == '.' then
      if Peek(path, after, p + 1) == '*' then Key(2, true, "*")
      else if Peek(path, after, p + 1) == '[' then Key(1, true, "*")
      else
        var k := NameAt(path, after, p + 1);
        if k.chars == 0 then Key(0, false, k.key) else Key(k.chars + 1, true, k.key)
    else NameAt(path, after, p)
  }

  method ReadKey(path: string, after: char, start: nat) returns (r: Key)
    requires start < |path|
    ensures r.chars == KeyAt(path, after, start).chars && (r.chars != 0 ==> r == KeyAt(path, after, start))
  {
    var ptr := start;
    if path[ptr] == '*' {
      if Peek(path, after, ptr + 1) == '*' {
        return Key(2, true, "*");
      }
      return Key(1, false, "*");
    }
    var recursive := false;
    if path[ptr] == '.' {
      var next := Peek(path, after, ptr + 1);
      if next == '*' {
        return Key(2, true, "*");
      }
      if next == '[' {
        return Key(1, true, "*");
      }
      ptr := ptr + 1;
      recursive := true;
    }
    var escaped := false;
    if Peek(path, after, ptr) == '"' {
      ptr := ptr + 1;
      escaped := true;
      if ptr > |path| {
        return Key(2, true, "");  // the loop of ReadString starts behind the end
      }
    }
    var result := ReadString(path, ptr, escaped);
    if result.chars == 0 {
      return result;
    }
    var chars := result.chars;
    if escaped {
      chars := chars + 2;
    }
    if recursive {
      chars := chars + 1;
    }
    return Key(chars, recursive, result.key);
  }

  /** What has to be written between quotes for a key. */
  function Escaped(key: string): string {
    if key == [] then []
    else (if key[0] == '"' || key[0] == '\\' then ['\\', key[0]] else [key[0]]) + Escaped(key[1..])
  }

  /** Quoting undoes escaping. */
  lemma {:induction false} QuotedUndoesEscaped(before: string, key: string, after: string)
    ensures var path := before + Escaped(key) + ['"'] + after;
            Quoted(path, |before|, false) == Some((key, |before| + |Escaped(key)|))
    decreases |key|
  {
    var path := before + Escaped(key) + ['"'] + after;
    if key != [] {
      var unit := if key[0] == '"' || key[0] == '\\' then ['\\', key[0]] else [key[0]];
      assert path == (before + unit) + Escaped(key[1..]) + ['"'] + after;
      QuotedUndoesEscaped(before + unit, key[1..], after);
      assert path[|before|] == unit[0] && path[|before| + |unit| - 1] == key[0];
      assert [key[0]] + key[1..] == key;
    }
  }

  // ---- Array indexes ----

  /** Up to `left` digits from p on. */
  function Digits(path: string, p: nat, left: nat, value: nat): (r: Option<(nat, nat)>)
    requires p <= |path|
    ensures r.Some? ==> p <= r.value.1 <= |path| && r.value.1 <= p + left
    decreases left
  {
    if left == 0 then Some((value, p))
    else if p == |path| then None
    else if path[p] == ']' then Some((value, p))
    else if IsDigit(path[p]) then Digits(path, p + 1, left - 1, value * 10 + (path[p] as int - '0' as int))
    else None
  }

  method ReadInteger(path: string, start: nat) returns (idx: nat, len: nat)
    requires start <= |path|
    ensures var d := Digits(path, start, IDX_T_SAFE_DIG, 0);
            if d.Some? then len == d.value.1 - start && idx == d.value.0 < INVALID_INDEX else len == 0
  {
    idx := 0;
    var ptr, i: nat := start, 0;
    ghost var bound := 1;
    while i < IDX_T_SAFE_DIG
      invariant i <= IDX_T_SAFE_DIG && ptr == start + i <= |path|
      invariant Digits(path, ptr, IDX_T_SAFE_DIG - i, idx) == Digits(path, start, IDX_T_SAFE_DIG, 0)
      invariant idx < Power10(i)
    {
      if ptr == |path| {
        return 0, 0;
      }
      if path[ptr] == ']' {
        break;
      }
      if !IsDigit(path[ptr]) {
        return idx, 0;
      }
      idx := (path[ptr] as int - '0' as int) + idx * 10;
      ptr := ptr + 1;
      i := i + 1;
    }
    Power10Grows(i, IDX_T_SAFE_DIG);
    len := ptr - start;
  }

  ghost function Power10(n: nat): nat { if n == 0 then 1 else 10 * Power10(n - 1) }

  lemma {:induction false} Power10Grows(i: nat, n: nat)
    requires i <= n
    ensures Power10(i) <= Power10(n) && Power10(IDX_T_SAFE_DIG) < INVALID_INDEX
    decreases n
  {
    assert Power10(19) == 10000000000000000000 by {
      assert Power10(5) == 100000;
      assert Power10(10) == 10000000000;
      assert Power10(15) == 1000000000000000;
    }
    if i < n {
      Power10Grows(i, n - 1);
    }
  }

  /** `next` is where the path goes on. It may be one behind the end: after 19 digits the byte taken for the closing
      bracket is not looked at. */
  datatype Index = Index(index: nat, fromBack: bool, next: nat)

  function IndexAt(path: string, p: nat): (r: Option<Index>)
    requires p < |path|
    ensures r.Some? ==> p < r.value.next <= |path| + 1
  {
    if path[p] == '*' then
      if p + 1 < |path| && path[p + 1] == ']' then Some(Index(INVALID_INDEX, false, p + 2)) else None
    else if path[p] == '#' then
      if p + 1 < |path| && path[p + 1] == ']' then Some(Index(UINT32_MAX, false, p + 2))
      else if p + 1 < |path| && path[p + 1] == '-' then NumberAt(path, p + 2, true)
      else None
    else if path[p] == '-' then NumberAt(path, p + 1, true)
    else NumberAt(path, p, false)
  }

  function NumberAt(path: string, p: nat, fromBack: bool): (r: Option<Index>)
    requires p <= |path|
    ensures r.Some? ==> p + 1 < r.value.next <= |path| + 1
  {
    var d := Digits(path, p, IDX_T_SAFE_DIG, 0);
    if d.None? || d.value.1 == p then None else Some(Index(d.value.0, fromBack, d.value.1 + 1))
  }

  method ReadArrayIndex(path: string, start: nat) returns (r: Option<Index>)
    requires start < |path|
    ensures r == IndexAt(path, start)
    ensures r.Some? ==> (r.value.index == INVALID_INDEX <==> path[start] == '*')
  {
    var ptr, end, fromBack, index: nat := start, |path|, false, 0;
    if path[ptr] == '*' {
      ptr := ptr + 1;
      if ptr == end || path[ptr] != ']' {
        return None;
      }
      index := INVALID_INDEX;
    } else {
      if path[ptr] == '#' {
        ptr := ptr + 1;
        if ptr == end {
          return None;
        }
        if path[ptr] == ']' {
          ptr := ptr + 1;
          return Some(Index(UINT32_MAX, false, ptr));
        }
        if path[ptr] != '-' {
          return None;
        }
        fromBack := true;
      }
      if path[ptr] == '-' {
        ptr := ptr + 1;
        fromBack := true;
      }
      var idxLen: nat;
      index, idxLen := ReadInteger(path, ptr);
      if idxLen == 0 {
        return None;
      }
      ptr := ptr + idxLen;
    }
    ptr := ptr + 1;
    return Some(Index(index, fromBack, ptr));
  }

  // ---- The path as a sequence of steps ----

  datatype Step = Field(key: string) | AnyField | Item(index: nat, fromBack: bool) | AnyItem | Descend

  predicate IsWild(step: Step) { !step.Field? && !step.Item? }

  datatype Token = Bad | Token(steps: seq<Step>, next: nat)

  /** The token at p. `..name` is two steps; after `..*`, `..[` and a quoted `*` only the descent is left. */
  function TokenAt(path: string, after: char, p: nat): (t: Token)
    requires p < |path|
    ensures t.Token? ==> p < t.next <= |path| + 1
  {
    if p + 1 == |path| then Bad
    else if path[p] == '.' then
      var k := KeyAt(path, after, p + 1);
      if k.chars == 0 then Bad
      else Token(if k.recursive then if k.key == "*" then [Descend] else [Descend, Field(k.key)]
                 else if k.key == "*" then [AnyField] else [Field(k.key)], p + 1 + k.chars)
    else if path[p] == '[' then
      var i := IndexAt(path, p + 1);
      if i.None? then Bad
      else Token([if path[p + 1] == '*' then AnyItem else Item(i.value.index, i.value.fromBack)], i.value.next)
    else Bad
  }

  datatype Parsed = Malformed | PastEnd | Steps(steps: seq<Step>)

  function Parse(path: string, after: char, p: nat): (r: Parsed)
    requires p <= |path| + 1
    decreases |path| + 1 - p
  {
    if p == |path| then Steps([])
    else if p > |path| then PastEnd
    else
      var t := TokenAt(path, after, p);
      if t.Bad? then Malformed
      else
        var rest := Parse(path, after, t.next);
        if rest.Steps? then Steps(t.steps + rest.steps) else rest
  }

  lemma ParseStep(path: string, after: char, p: nat)
    requires p < |path| && Parse(path, after, p).Steps?
    ensures p + 1 < |path| && TokenAt(path, after, p).Token? && TokenAt(path, after, p).next <= |path|
    ensures Parse(path, after, TokenAt(path, after, p).next).Steps?
    ensures Parse(path, after, p).steps ==
      TokenAt(path, after, p).steps + Parse(path, after, TokenAt(path, after, p).next).steps
  {}

  /** `Overrun`: the pointer has passed the end of the path, and the loop would go on behind it. */
  datatype Validity = Regular | Wildcard | PathError | Overrun

  method ValidatePath(path: string, after: char) returns (r: Validity)
    requires path != [] && path[0] == '$'
    ensures r == match Parse(path, after, 1)
                 case Malformed => PathError
                 case PastEnd => Overrun
                 case Steps(steps) => if exists step <- steps :: IsWild(step) then Wildcard else Regular
  {
    hide TokenAt;
    var wild := false;
    var ptr := 1;
    ghost var done: seq<Step> := [];
    while ptr != |path|
      invariant 1 <= ptr <= |path|
      invariant wild <==> exists step <- done :: IsWild(step)
      invariant Parse(path, after, 1) ==
        if Parse(path, after, ptr).Steps? then Steps(done + Parse(path, after, ptr).steps) else Parse(path, after, ptr)
      decreases |path| - ptr
    {
      ghost var t := TokenAt(path, after, ptr);
      var ok, wildToken, next := ValidateToken(path, after, ptr);
      if !ok {
        return PathError;
      }
      wild := wild || wildToken;
      ptr := next;
      MoreSteps(done, t.steps);
      Reassociate(path, after, done, t.steps, t.next);
      done := done + t.steps;
      if ptr > |path| {
        return Overrun;
      }
    }
    assert done + [] == done;
    return if wild then Wildcard else Regular;
  }

  /** One round of the loop of ValidatePath. */
  method ValidateToken(path: string, after: char, start: nat) returns (ok: bool, wild: bool, ptr: nat)
    requires start < |path|
    ensures var t := TokenAt(path, after, start);
            ok == t.Token? && (ok ==> ptr == t.next && (wild <==> exists step <- t.steps :: IsWild(step)))
  {
    hide KeyAt, IndexAt;
    ok, wild := false, false;
    var c := path[start];
    ptr := start + 1;
    if ptr == |path| {
      return;
    }
    if c == '.' {
      var key := ReadKey(path, after, ptr);
      if key.chars == 0 {
        return;
      } else if key.key == "*" || key.recursive {
        wild := true;
      }
      ptr := ptr + key.chars;
    } else if c == '[' {
      var index := ReadArrayIndex(path, ptr);
      if index.None? {
        return;
      }
      if index.value.index == INVALID_INDEX {
        wild := true;
      }
      ptr := index.value.next;
    } else {
      return;
    }
    ok := true;
    assert wild ==> IsWild(TokenAt(path, after, start).steps[0]);
  }

  lemma MoreSteps(done: seq<Step>, more: seq<Step>)
    ensures (exists step <- done + more :: IsWild(step)) <==>
      (exists step <- done :: IsWild(step)) || exists step <- more :: IsWild(step)
  {
    if step :| step in done && IsWild(step) {
      assert step in done + more;
    }
    if step :| step in more && IsWild(step) {
      assert step in done + more;
    }
  }

  lemma Reassociate(path: string, after: char, done: seq<Step>, more: seq<Step>, next: nat)
    requires next <= |path| + 1
    ensures Parse(path, after, next).Steps? ==>
      done + (more + Parse(path, after, next).steps) == (done + more) + Parse(path, after, next).steps
  {}

  // ---- The meaning of a path ----

  /** The position an index stands for; counting from the back wraps around below zero, far behind any array. */
  function Resolve(length: nat, index: nat, fromBack: bool): nat {
    if fromBack && index != 0 then (length - index) % 0x1_0000_0000_0000_0000 else index
  }

  /** The nodes a path leads to, in the order they are found. */
  ghost function Eval(steps: seq<Step>, node: Node): seq<Node>
    decreases |steps|, 0
  {
    if steps == [] then [node]
    else
      var value, rest := node.value, steps[1..];
      match steps[0]
      case Field(key) =>
        if value.Obj? && Lookup(value.members, key).Some?
        then Eval(rest, Child(node, Lookup(value.members, key).value))
        else []
      case AnyField => if value.Obj? then EvalAll(rest, Children(node)) else []
      case Item(index, fromBack) =>
        if value.Arr? && Resolve(|value.items|, index, fromBack) < |value.items|
        then Eval(rest, Child(node, Resolve(|value.items|, index, fromBack))) else []
      case AnyItem => if value.Arr? then EvalAll(rest, Children(node)) else []
      case Descend => EvalAll(rest, Descendants(node, rest == []))
  }

  /** The nodes of the subtree breadth first; without the root when the path ends with the descent. */
  ghost function Descendants(node: Node, atEnd: bool): seq<Node> {
    if atEnd then Visited([node])[1..] else Visited([node])
  }

  ghost function EvalAll(steps: seq<Step>, nodes: seq<Node>): seq<Node>
    decreases |steps|, |nodes|
  {
    if nodes == [] then [] else EvalAll(steps, nodes[..|nodes| - 1]) + Eval(steps, nodes[|nodes| - 1])
  }

  method GetPath(path: string, after: char, root: Node) returns (r: Option<Node>)
    requires path != [] && path[0] == '$' && Parse(path, after, 1).Steps?
    requires forall step <- Parse(path, after, 1).steps :: !IsWild(step)
    ensures Eval(Parse(path, after, 1).steps, root) == if r.Some? then [r.value] else []
  {
    hide Parse, TokenAt;
    var val := Some(root);
    var ptr := 1;
    while val.Some? && ptr != |path|
      invariant 1 <= ptr <= |path| && Parse(path, after, ptr).Steps?
      invariant forall step <- Parse(path, after, ptr).steps :: !IsWild(step)
      invariant Eval(Parse(path, after, 1).steps, root) ==
        if val.Some? then Eval(Parse(path, after, ptr).steps, val.value) else []
      decreases |path| - ptr
    {
      ParseStep(path, after, ptr);
      ghost var steps, t := Parse(path, after, ptr).steps, TokenAt(path, after, ptr);
      assert forall step <- t.steps + Parse(path, after, t.next).steps :: step in steps;
      val, ptr := FollowToken(path, after, ptr, val.value);
    }
    EvalEnd(path, after);
    return val;
  }

  /** A field or an array index: the one node it leads to, if there is one. */
  method FollowToken(path: string, after: char, start: nat, node: Node) returns (val: Option<Node>, ptr: nat)
    requires start < |path| && Parse(path, after, start).Steps?
    requires TokenAt(path, after, start).Token? && forall step <- TokenAt(path, after, start).steps :: !IsWild(step)
    ensures ptr == TokenAt(path, after, start).next
    ensures Parse(path, after, ptr).Steps?
    ensures Eval(Parse(path, after, start).steps, node) ==
      if val.Some? then Eval(Parse(path, after, ptr).steps, val.value) else []
  {
    OneStep(path, after, start);
    hide KeyAt, IndexAt, Parse;
    ghost var t := TokenAt(path, after, start);
    assert t.steps[0] in t.steps;
    ptr := start + 1;
    if path[start] == '.' {
      var key := ReadKey(path, after, ptr);
      ptr := ptr + key.chars;
      if !node.value.Obj? {
        return None, ptr;
      }
      var k := Lookup(node.value.members, key.key);
      val := if k.Some? then Some(Child(node, k.value)) else None;
    } else {
      var index := ReadArrayIndex(path, ptr);
      ptr := index.value.next;
      if !node.value.Arr? {
        return None, ptr;
      }
      var i := Resolve(|node.value.items|, index.value.index, index.value.fromBack);
      val := if i < |node.value.items| then Some(Child(node, i)) else None;
    }
  }

  lemma OneStep(path: string, after: char, p: nat)
    requires p < |path| && Parse(path, after, p).Steps? && forall step <- TokenAt(path, after, p).steps :: !IsWild(step)
    ensures var t, steps := TokenAt(path, after, p), Parse(path, after, p).steps;
      && p + 1 < |path| && t.Token? && t.next <= |path| && Parse(path, after, t.next).Steps? && |t.steps| == 1
      && steps != [] && steps[0] == t.steps[0] && steps[1..] == Parse(path, after, t.next).steps
      && (path[p] == '.' || path[p] == '[')
  {
    hide KeyAt, IndexAt;
    assert TokenAt(path, after, p).steps[0] in TokenAt(path, after, p).steps;
  }

  lemma EvalEnd(path: string, after: char)
    ensures Parse(path, after, |path|) == Steps([]) && forall node :: Eval([], node) == [node]
  {}

  /** One more node to evaluate the rest of the path on. */
  lemma EvalMore(steps: seq<Step>, nodes: seq<Node>, k: nat)
    requires k < |nodes|
    ensures EvalAll(steps, nodes[..k + 1]) == EvalAll(steps, nodes[..k]) + Eval(steps, nodes[k])
  {
    assert nodes[..k + 1][..k] == nodes[..k];
  }

  lemma EvalAllOf(steps: seq<Step>, nodes: seq<Node>)
    ensures EvalAll(steps, nodes[..0]) == [] && nodes[..|nodes|] == nodes
  {}

  method GetWildcardPath(path: string, after: char, root: Node) returns (vals: seq<Node>)
    requires path != [] && path[0] == '$' && Parse(path, after, 1).Steps?
    ensures vals == Eval(Parse(path, after, 1).steps, root)
  {
    vals := GetWildcardPathInternal(path, after, 1, root, []);
  }

  /** Appends what the rest of the path from `start` finds to `vals0`. Nested calls get a shorter rest. */
  method GetWildcardPathInternal(path: string, after: char, start: nat, node: Node, vals0: seq<Node>)
    returns (vals: seq<Node>)
    requires 0 < start <= |path| && Parse(path, after, start).Steps?
    ensures vals == vals0 + Eval(Parse(path, after, start).steps, node)
    decreases |path| - start, 2
  {
    hide Parse, TokenAt, Eval, EvalAll;
    vals := vals0;
    var val := Some(node);
    var ptr := start;
    while val.Some? && ptr != |path|
      invariant start <= ptr <= |path| && Parse(path, after, ptr).Steps? && vals == vals0
      invariant Eval(Parse(path, after, start).steps, node) ==
        if val.Some? then Eval(Parse(path, after, ptr).steps, val.value) else []
      decreases |path| - ptr
    {
      ParseStep(path, after, ptr);
      var form, next := ReadForm(path, after, ptr);
      if form != Single {
        vals := EvalWild(path, after, ptr, next, form, val.value, vals);
        return;
      }
      val, ptr := FollowToken(path, after, ptr, val.value);
    }
    EvalEnd(path, after);
    if val.Some? {
      vals := vals + [val.value];
    }
  }

  /** What the token at `start` makes the evaluator do. */
  datatype Form = Single | Members | Elements | DescendBehind | DescendHere

  ghost predicate IsForm(path: string, after: char, p: nat, form: Form)
    requires p < |path|
  {
    var t := TokenAt(path, after, p);
    && t.Token? && t.next <= |path|
    && match form
       case Single => forall step <- t.steps :: !IsWild(step)
       case Members => t.steps == [AnyField]
       case Elements => t.steps == [AnyItem]
       case DescendBehind => t.steps == [Descend]
       case DescendHere =>
         && |t.steps| == 2 && t.steps[0] == Descend && p + 1 < |path|
         && TokenAt(path, after, p + 1) == Token(t.steps[1..], t.next)
  }

  /** Where the path goes on for the nodes found: behind the token, or at the name behind the second dot. */
  ghost function Target(path: string, after: char, p: nat, form: Form): nat
    requires p < |path| && IsForm(path, after, p, form)
  {
    if form == DescendHere then p + 1 else TokenAt(path, after, p).next
  }

  method ReadForm(path: string, after: char, p: nat) returns (form: Form, ptr: nat)
    requires p + 1 < |path| && TokenAt(path, after, p).Token? && TokenAt(path, after, p).next <= |path|
    ensures IsForm(path, after, p, form) && ptr == Target(path, after, p, form)
  {
    if path[p] == '.' {
      var key := ReadKey(path, after, p + 1);
      if key.recursive && key.key != "*" {
        NestedToken(path, after, p);
      }
      ptr := p + 1;
      if !key.recursive || key.key == "*" {
        ptr := ptr + key.chars;
      }
      form := if key.recursive then if key.key == "*" then DescendBehind else DescendHere
              else if key.key == "*" then Members else Single;
    } else {
      var index := ReadArrayIndex(path, p + 1);
      return if index.value.index == INVALID_INDEX then Elements else Single, index.value.next;
    }
  }

  /** From the second dot of `..name` on, the path reads as an ordinary field. */
  lemma NestedToken(path: string, after: char, p: nat)
    requires p + 1 < |path| && path[p] == '.' && TokenAt(path, after, p).Token?
    requires TokenAt(path, after, p).next <= |path|
    requires KeyAt(path, after, p + 1).recursive && KeyAt(path, after, p + 1).key != "*"
    ensures p + 2 < |path|
    ensures TokenAt(path, after, p + 1) == Token([Field(KeyAt(path, after, p + 1).key)], TokenAt(path, after, p).next)
  {
    hide Quoted, KeyEnd;
  }

  ghost function FirstStep(form: Form): Step {
    if form == Members then AnyField else if form == Elements then AnyItem else Descend
  }

  lemma WildStep(path: string, after: char, p: nat, form: Form)
    requires p < |path| && Parse(path, after, p).Steps? && IsForm(path, after, p, form) && form != Single
    ensures var q := Target(path, after, p, form);
      && p < q <= |path| && Parse(path, after, q).Steps? && (Parse(path, after, q).steps == [] <==> q == |path|)
      && Parse(path, after, p).steps != [] && Parse(path, after, p).steps[0] == FirstStep(form)
      && Parse(path, after, p).steps[1..] == Parse(path, after, q).steps
  {
    hide KeyAt, IndexAt;
    ParseStep(path, after, p);
    var t, q := TokenAt(path, after, p), Target(path, after, p, form);
    if q < |path| {
      assert TokenAt(path, after, q).Token? ==> TokenAt(path, after, q).steps != [];
    }
    if form == DescendHere {
      assert t.steps == [Descend] + t.steps[1..];
    }
  }

  /** The wildcards and the descent: the rest of the path is evaluated on several nodes. */
  method EvalWild(path: string, after: char, ghost p: nat, ptr: nat, form: Form, node: Node, vals0: seq<Node>)
    returns (vals: seq<Node>)
    requires 0 < p < |path| && Parse(path, after, p).Steps? && IsForm(path, after, p, form) && form != Single
    requires ptr == Target(path, after, p, form)
    ensures vals == vals0 + Eval(Parse(path, after, p).steps, node)
    decreases |path| - p, 1
  {
    hide Parse, TokenAt, EvalAll, Visited, IsForm;
    WildStep(path, after, p, form);
    if form == DescendBehind || form == DescendHere {
      vals := EvalDescendants(path, after, p, ptr, node, vals0);
    } else if (form == Members && !node.value.Obj?) || (form == Elements && !node.value.Arr?) {
      return vals0;
    } else {
      vals := EvalChildren(path, after, p, ptr, node, vals0);
    }
  }

  method EvalChildren(path: string, after: char, ghost p: nat, ptr: nat, node: Node, vals0: seq<Node>)
    returns (vals: seq<Node>)
    requires 0 < p < ptr <= |path| && Parse(path, after, ptr).Steps?
    ensures vals == vals0 + EvalAll(Parse(path, after, ptr).steps, Children(node))
    decreases |path| - p, 0
  {
    hide Parse, TokenAt, Eval, EvalAll;
    var children := Children(node);
    vals := vals0;
    EvalAllOf(Parse(path, after, ptr).steps, children);
    for k := 0 to |children|
      invariant vals == vals0 + EvalAll(Parse(path, after, ptr).steps, children[..k])
    {
      EvalMore(Parse(path, after, ptr).steps, children, k);
      vals := GetWildcardPathInternal(path, after, ptr, children[k], vals);
    }
  }

  /** The worklist: every visited node appends its children and is then evaluated, the root only if there is a rest. */
  method EvalDescendants(path: string, after: char, ghost p: nat, ptr: nat, node: Node, vals0: seq<Node>)
    returns (vals: seq<Node>)
    requires 0 < p < ptr <= |path| && Parse(path, after, ptr).Steps?
    ensures vals == vals0 + EvalAll(Parse(path, after, ptr).steps, Descendants(node, ptr == |path|))
    decreases |path| - p, 0
  {
    hide Parse, TokenAt, Eval, EvalAll, Visited, Evaluated;
    var recVals := [node];
    vals := vals0;
    ghost var steps := Parse(path, after, ptr).steps;
    var i := 0;
    NothingEvaluated(steps, recVals, ptr == |path|);
    assert recVals[..0] + Visited(recVals[0..]) == Visited([node]);
    while i < |recVals|
      invariant i <= |recVals| && recVals[..i] + Visited(recVals[i..]) == Visited([node])
      invariant vals == vals0 + EvalAll(steps, Evaluated(recVals, i, ptr == |path|))
      decreases Work(recVals[i..])
    {
      var recVal := recVals[i];
      ghost var before := recVals;
      recVals := recVals + Children(recVal);
      VisitNext(before, i, recVals);
      EvaluateNext(steps, before, recVals, i, ptr == |path|);
      if i > 0 || ptr != |path| {
        vals := GetWildcardPathInternal(path, after, ptr, recVal, vals);
      }
      i := i + 1;
    }
    AllEvaluated(node, recVals, ptr == |path|);
  }

  /** The nodes of the worklist evaluated in the first i rounds. */
  ghost function Evaluated(recVals: seq<Node>, i: nat, atEnd: bool): seq<Node>
    requires i <= |recVals|
  {
    if atEnd then if i == 0 then [] else recVals[1..i] else recVals[..i]
  }

  lemma NothingEvaluated(steps: seq<Step>, recVals: seq<Node>, atEnd: bool)
    ensures EvalAll(steps, Evaluated(recVals, 0, atEnd)) == []
  {}

  lemma VisitNext(before: seq<Node>, i: nat, after: seq<Node>)
    requires i < |before| && after == before + Children(before[i])
    ensures before[..i] + Visited(before[i..]) == after[..i + 1] + Visited(after[i + 1..])
    ensures Work(after[i + 1..]) < Work(before[i..])
  {
    hide Visited, Work;
    var todo := before[i..];
    VisitedStep(todo);
    WorkShrinks(todo);
    assert after[i + 1..] == todo[1..] + Children(todo[0]);
    assert after[..i + 1] == before[..i] + [before[i]];
  }

  lemma EvaluateNext(steps: seq<Step>, before: seq<Node>, after: seq<Node>, i: nat, atEnd: bool)
    requires i < |before| && before <= after
    ensures EvalAll(steps, Evaluated(after, i + 1, atEnd)) == EvalAll(steps, Evaluated(before, i, atEnd))
            + if i > 0 || !atEnd then Eval(steps, before[i]) else []
  {
    hide EvalAll, Eval;
    var done := Evaluated(before, i, atEnd);
    if i > 0 || !atEnd {
      assert Evaluated(after, i + 1, atEnd) == done + [before[i]];
      SnocEval(steps, done, before[i]);
    } else {
      assert Evaluated(after, i + 1, atEnd) == done;
    }
  }

  lemma AllEvaluated(node: Node, recVals: seq<Node>, atEnd: bool)
    requires recVals + Visited(recVals[|recVals|..]) == Visited([node])
    ensures Evaluated(recVals, |recVals|, atEnd) == Descendants(node, atEnd)
  {
    VisitedStep([node]);
  }

  lemma SnocEval(steps: seq<Step>, nodes: seq<Node>, node: Node)
    ensures EvalAll(steps, nodes + [node]) == EvalAll(steps, nodes) + Eval(steps, node)
  {
    assert (nodes + [node])[..|nodes|] == nodes;
  }

  // ---- The two evaluators against each other ----

  lemma {:induction false} RegularFindsAtMostOne(steps: seq<Step>, node: Node)
    requires forall step <- steps :: !IsWild(step)
    ensures |Eval(steps, node)| <= 1
    decreases |steps|
  {
    if steps != [] {
      assert steps[0] in steps;
      forall c: Node ensures |Eval(steps[1..], c)| <= 1 {
        RegularFindsAtMostOne(steps[1..], c);
      }
    }
  }

  /** On every document, a path that validates is evaluated to its meaning; on a regular path the wildcard evaluator
      finds what the single-result evaluator finds. */
  method Evaluate(path: string, after: char, root: Node)
    returns (validity: Validity, single: Option<Node>, vals: seq<Node>)
    requires path != [] && path[0] == '$'
    ensures validity == Regular ==> vals == if single.Some? then [single.value] else []
    ensures validity == Regular || validity == Wildcard ==>
      Parse(path, after, 1).Steps? && vals == Eval(Parse(path, after, 1).steps, root)
  {
    single, vals := None, [];
    validity := ValidatePath(path, after);
    if validity == Regular || validity == Wildcard {
      vals := GetWildcardPath(path, after, root);
    }
    if validity == Regular {
      single := GetPath(path, after, root);
    }
  }

  lemma {:induction false} FoundIn(steps: seq<Step>, nodes: seq<Node>, x: Node)
    ensures x in EvalAll(steps, nodes) <==> exists i :: 0 <= i < |nodes| && x in Eval(steps, nodes[i])
    decreases |nodes|
  {
    hide Eval;
    if nodes != [] {
      var n := |nodes| - 1;
      FoundIn(steps, nodes[..n], x);
      if i :| 0 <= i < |nodes[..n]| && x in Eval(steps, nodes[..n][i]) {
        assert x in Eval(steps, nodes[i]);
      }
      if i :| 0 <= i < |nodes| && x in Eval(steps, nodes[i]) {
        assert i < n ==> x in Eval(steps, nodes[..n][i]);
      }
    }
  }

  /** Recursive descent reaches whatever the rest of the path reaches from any node of the subtree. */
  lemma DescentIsComplete(rest: seq<Step>, root: Node, x: Node)
    ensures x in Eval([Descend] + rest, root)
       <==> exists y :: Under(root, y) && (rest == [] ==> y != root) && x in Eval(rest, y)
  {
    hide Visited, Under;
    VisitsEachNodeOnce(root);
    VisitedStep([root]);
    var all, nodes := Visited([root]), Descendants(root, rest == []);
    FoundIn(rest, nodes, x);
    EvalDescend(rest, root);
    hide Eval;
    forall y ensures y in nodes <==> Under(root, y) && (rest == [] ==> y != root) {
      assert all == [all[0]] + all[1..];
    }
    if i :| 0 <= i < |nodes| && x in Eval(rest, nodes[i]) {
      assert nodes[i] in nodes;
    }
    if y :| Under(root, y) && (rest == [] ==> y != root) && x in Eval(rest, y) {
      assert y in nodes;
    }
  }

  lemma EvalDescend(rest: seq<Step>, root: Node)
    ensures Eval([Descend] + rest, root) == EvalAll(rest, Descendants(root, rest == []))
  {
    assert ([Descend] + rest)[1..] == rest;
  }

  // ---- When the tokenizer runs past the end ----

  ghost predicate AllDigits(path: string, p: nat, q: nat) {
    p <= q <= |path| && forall i | p <= i < q :: IsDigit(path[i])
  }

  lemma {:induction false} DigitsAreRead(path: string, p: nat, left: nat, value: nat)
    requires p <= |path| && Digits(path, p, left, value).Some?
    ensures var q := Digits(path, p, left, value).value.1;
            AllDigits(path, p, q) && (q == p + left || (q < |path| && path[q] == ']'))
    decreases left
  {
    if left > 0 && path[p] != ']' {
      DigitsAreRead(path, p + 1, left - 1, value * 10 + (path[p] as int - '0' as int));
    }
  }

  lemma {:induction false} DigitsReadAll(path: string, p: nat, left: nat, value: nat)
    requires AllDigits(path, p, p + left)
    ensures Digits(path, p, left, value).Some? && Digits(path, p, left, value).value.1 == p + left
    decreases left
  {
    if left > 0 {
      assert IsDigit(path[p]);
      DigitsReadAll(path, p + 1, left - 1, value * 10 + (path[p] as int - '0' as int));
    }
  }

  /** The path ends in a bracket at k with exactly 19 digits behind it, which no closing bracket follows. */
  ghost predicate EndsInLongIndex(path: string, k: nat) {
    exists s | s in {1, 2, 3} :: EndsInDigits(path, k, s)
  }

  ghost predicate EndsInDigits(path: string, k: nat, s: nat) {
    && k + s + IDX_T_SAFE_DIG == |path| && s > 0 && path[k] == '[' && AllDigits(path, k + s, |path|)
    && (s == 2 ==> path[k + 1] == '-') && (s == 3 ==> path[k + 1] == '#' && path[k + 2] == '-')
  }

  /** What the index at the end is replaced by in the condition below. */
  function WithZero(path: string, k: nat): string
    requires k <= |path|
  {
    path[..k] + "[0]"
  }

  lemma LongIndexOverruns(path: string, k: nat)
    requires k < |path|
    ensures EndsInLongIndex(path, k) <==>
      path[k] == '[' && TokenAt(path, NUL, k).Token? && TokenAt(path, NUL, k).next == |path| + 1
    ensures EndsInLongIndex(path, k) ==> k + 1 < |path|
    ensures EndsInLongIndex(path, k) ==> forall q | k < q < |path| :: path[q] != '"' && path[q] != '.' && path[q] != '['
  {
    hide Digits;
    if EndsInLongIndex(path, k) {
      var s :| s in {1, 2, 3} && EndsInDigits(path, k, s);
      assert IsDigit(path[k + s]);
      DigitsReadAll(path, k + s, IDX_T_SAFE_DIG, 0);
    }
    if path[k] == '[' && TokenAt(path, NUL, k).Token? && TokenAt(path, NUL, k).next == |path| + 1 {
      var s := if path[k + 1] == '#' then 3 else if path[k + 1] == '-' then 2 else 1;
      DigitsAreRead(path, k + s, IDX_T_SAFE_DIG, 0);
      assert EndsInDigits(path, k, s);
    }
  }

  // Two paths that agree up to and including a bracket at k are read alike as long as no token passes it.

  ghost predicate AgreeTo(a: string, b: string, k: nat) {
    k < |a| && k < |b| && a[k] == '[' && forall i | 0 <= i <= k :: a[i] == b[i]
  }

  lemma {:induction false} QuotedLocal(a: string, b: string, k: nat, p: nat, backslash: bool)
    requires AgreeTo(a, b, k) && p <= k + 1
    ensures var q := Quoted(a, p, backslash); q.Some? && q.value.1 <= k ==> Quoted(b, p, backslash) == q
    decreases k + 1 - p
  {
    if p <= k {
      QuotedLocal(a, b, k, p + 1, true);
      QuotedLocal(a, b, k, p + 1, false);
    }
  }

  lemma {:induction false} KeyEndLocal(a: string, b: string, k: nat, p: nat)
    requires AgreeTo(a, b, k) && p <= k
    ensures KeyEnd(a, p) == KeyEnd(b, p) <= k && a[p..KeyEnd(a, p)] == b[p..KeyEnd(a, p)]
    decreases k - p
  {
    if p < k && a[p] != '.' && a[p] != '[' {
      KeyEndLocal(a, b, k, p + 1);
    }
  }

  lemma {:induction false} DigitsLocal(a: string, b: string, k: nat, p: nat, left: nat, value: nat)
    requires AgreeTo(a, b, k) && p <= k
    ensures Digits(a, p, left, value) == Digits(b, p, left, value)
    ensures Digits(a, p, left, value).Some? ==> Digits(a, p, left, value).value.1 <= k
    decreases left
  {
    if left > 0 && p < k && IsDigit(a[p]) {
      DigitsLocal(a, b, k, p + 1, left - 1, value * 10 + (a[p] as int - '0' as int));
    }
  }

  lemma NameLocal(a: string, b: string, k: nat, p: nat)
    requires AgreeTo(a, b, k) && p <= k
    ensures p + NameAt(a, NUL, p).chars <= k ==> NameAt(a, NUL, p).chars == 0 || NameAt(b, NUL, p) == NameAt(a, NUL, p)
    ensures p + NameAt(a, NUL, p).chars > k ==> a[p + NameAt(a, NUL, p).chars - 1] == '"'
  {
    QuotedLocal(a, b, k, p + 1, false);
    KeyEndLocal(a, b, k, p);
    hide Quoted, KeyEnd;
  }

  lemma IndexLocal(a: string, b: string, k: nat, p: nat)
    requires AgreeTo(a, b, k) && p <= k
    ensures IndexAt(a, p).Some? ==> IndexAt(a, p).value.next <= k + 1
    ensures IndexAt(a, p).Some? ==> IndexAt(b, p) == IndexAt(a, p)
  {
    hide Digits;
    DigitsLocal(a, b, k, p, IDX_T_SAFE_DIG, 0);
    if p + 1 <= k {
      DigitsLocal(a, b, k, p + 1, IDX_T_SAFE_DIG, 0);
    }
    if p + 2 <= k {
      DigitsLocal(a, b, k, p + 2, IDX_T_SAFE_DIG, 0);
    }
  }

  lemma TokenLocal(a: string, b: string, k: nat, p: nat)
    requires AgreeTo(a, b, k) && p < k && TokenAt(a, NUL, p).Token?
    ensures TokenAt(a, NUL, p).next <= k ==> TokenAt(b, NUL, p) == TokenAt(a, NUL, p)
    ensures TokenAt(a, NUL, p).next > k + 1 ==> TokenAt(a, NUL, p).next <= |a| && a[TokenAt(a, NUL, p).next - 1] == '"'
  {
    hide NameAt, IndexAt;
    if a[p] == '[' {
      IndexLocal(a, b, k, p + 1);
    } else {
      NameLocal(a, b, k, p + 1);
      if p + 2 <= k {
        NameLocal(a, b, k, p + 2);
      }
    }
  }

  lemma ParseBad(path: string, p: nat)
    requires p < |path| && path[p] != '.' && path[p] != '['
    ensures Parse(path, NUL, p) == Malformed
  {}

  lemma LastZero(path: string, k: nat)
    requires k <= |path|
    ensures var z := WithZero(path, k); |z| == k + 3 && Parse(z, NUL, k).Steps? && Parse(z, NUL, k + 1) == Malformed
    ensures var z := WithZero(path, k); z[k + 1] == '0' && forall q | k < q < |z| :: z[q] != '"'
  {
    var z := WithZero(path, k);
    assert z[k] == '[' && z[k + 1] == '0' && z[k + 2] == ']';
    assert Digits(z, k + 2, 18, 0) == Some((0, k + 2));
    assert Digits(z, k + 1, 19, 0) == Some((0, k + 2));
    assert TokenAt(z, NUL, k) == Token([Item(0, false)], k + 3);
    assert Parse(z, NUL, k + 3) == Steps([]);
  }

  /** Where a token that ends at q, behind the bracket at k, can leave off: in no case does the path go on from
      there. */
  lemma BehindBracket(path: string, k: nat, q: nat)
    requires k + 1 < |path| && path[k + 1] != '.' && path[k + 1] != '['
    requires q == k + 1 || (k + 1 < q <= |path| && path[q - 1] == '"')
    requires forall i | k < i < |path| :: path[i] != '"'
    ensures Parse(path, NUL, q) == Malformed
  {
    hide TokenAt;
    ParseBad(path, k + 1);
  }

  lemma {:induction false} OverrunFrom(path: string, k: nat, p: nat)
    requires p <= k < |path| && EndsInLongIndex(path, k)
    ensures Parse(path, NUL, p).PastEnd? <==> Parse(WithZero(path, k), NUL, p).Steps?
    decreases k - p
  {
    hide EndsInLongIndex, WithZero, Parse, TokenAt;
    var z := WithZero(path, k);
    LongIndexOverruns(path, k);
    LastZero(path, k);
    ParseOnce(path, p);
    if p < k {
      ZeroAgrees(path, k);
      ParseOnce(z, p);
      var t, u := TokenAt(path, NUL, p), TokenAt(z, NUL, p);
      if t.Token? {
        TokenLocal(path, z, k, p);
        if t.next > k {
          BehindBracket(path, k, t.next);
        }
      }
      if u.Token? {
        TokenLocal(z, path, k, p);
        if u.next > k {
          BehindBracket(z, k, u.next);
        }
      }
      if t.Token? && t.next <= k {
        OverrunFrom(path, k, t.next);
      }
    }
  }

  lemma ParseOnce(path: string, p: nat)
    requires p < |path|
    ensures var t := TokenAt(path, NUL, p);
      && (t.Bad? ==> Parse(path, NUL, p) == Malformed)
      && (t.Token? ==> (Parse(path, NUL, p).Steps? <==> Parse(path, NUL, t.next).Steps?))
      && (t.Token? ==> (Parse(path, NUL, p).PastEnd? <==> Parse(path, NUL, t.next).PastEnd?))
      && (t.Token? && t.next == |path| + 1 ==> Parse(path, NUL, p).PastEnd?)
  {}

  lemma ZeroAgrees(path: string, k: nat)
    requires k < |path| && path[k] == '['
    ensures AgreeTo(path, WithZero(path, k), k) && AgreeTo(WithZero(path, k), path, k)
  {}

  lemma {:induction false} OverrunEndsLong(path: string, p: nat)
    requires p <= |path| && Parse(path, NUL, p).PastEnd?
    ensures exists k :: p <= k < |path| && EndsInLongIndex(path, k)
    decreases |path| - p
  {
    hide EndsInLongIndex;
    var t := TokenAt(path, NUL, p);
    LongIndexOverruns(path, p);
    if t.next <= |path| {
      OverrunEndsLong(path, t.next);
    }
  }

  /** A terminated path is left behind exactly when it ends in a bracket with 19 digits and no closing bracket, and
      would be accepted with the index 0 in their place. */
  lemma ConstantPathOverruns(path: string)
    requires path != [] && path[0] == '$'
    ensures Parse(path, NUL, 1).PastEnd?
       <==> exists k :: 0 < k < |path| && EndsInLongIndex(path, k) && Parse(WithZero(path, k), NUL, 1).Steps?
  {
    hide EndsInLongIndex, WithZero, Parse;
    if Parse(path, NUL, 1).PastEnd? {
      OverrunEndsLong(path, 1);
      var k :| 1 <= k < |path| && EndsInLongIndex(path, k);
      OverrunFrom(path, k, 1);
    }
    if k :| 0 < k < |path| && EndsInLongIndex(path, k) && Parse(WithZero(path, k), NUL, 1).Steps? {
      OverrunFrom(path, k, 1);
    }
  }

  /** For example $[1234567890123456789, without a closing bracket. */
  lemma UnclosedIndexOverruns()
    ensures Parse("$[1234567890123456789", NUL, 1).PastEnd?
  {
    var path := "$[1234567890123456789";
    assert |path| == 21;
    assert EndsInDigits(path, 1, 1);
    LongIndexOverruns(path, 1);
  }

  // ---- The byte behind the path ----

  predicate EndsWith(path: string, end: string) { |end| <= |path| && path[|path| - |end|..] == end }

  /** The byte behind the path matters only to a wildcard or a dot at the end. */
  lemma AfterIsUnused(path: string, after: char, p: nat)
    requires p < |path| && !(p + 2 == |path| && path[p] == '.' && (path[p + 1] == '*' || path[p + 1] == '.'))
    ensures TokenAt(path, after, p) == TokenAt(path, NUL, p)
  {
    hide Quoted, KeyEnd, Digits;
  }

  lemma {:induction false} ParseIgnoresAfter(path: string, after: char, p: nat)
    requires p <= |path| + 1 && !EndsWith(path, ".*") && !EndsWith(path, "..")
    ensures Parse(path, after, p) == Parse(path, NUL, p)
    decreases |path| + 1 - p
  {
    hide TokenAt;
    if p < |path| {
      if p + 2 == |path| {
        assert path[|path| - 2..] == [path[p], path[p + 1]];
      }
      AfterIsUnused(path, after, p);
      if TokenAt(path, NUL, p).Token? {
        ParseIgnoresAfter(path, after, TokenAt(path, NUL, p).next);
      }
    }
  }

  /** From p on the path is accepted, and its last step is the given one. */
  ghost predicate StepsEndIn(path: string, after: char, p: nat, step: Step)
    requires p <= |path| + 1
  {
    var r := Parse(path, after, p);
    r.Steps? && r.steps != [] && r.steps[|r.steps| - 1] == step
  }

  /** After one token that leaves a rest, the last step is that of the rest. */
  lemma LastStepOfRest(path: string, after: char, p: nat, step: Step)
    requires p < |path| && TokenAt(path, after, p).Token? && TokenAt(path, after, p).next != |path|
    ensures StepsEndIn(path, after, p, step) <==> StepsEndIn(path, after, TokenAt(path, after, p).next, step)
  {
    var q := TokenAt(path, after, p).next;
    if q < |path| && Parse(path, after, q).Steps? {
      RestHasSteps(path, after, q);
    }
  }

  lemma RestHasSteps(path: string, after: char, q: nat)
    requires q < |path| && Parse(path, after, q).Steps?
    ensures Parse(path, after, q).steps != []
  {
    assert TokenAt(path, after, q).steps != [];
  }

  /** A longer token does not end in the wildcard of `.*`. */
  lemma StarTokenEnd(path: string, p: nat)
    requires EndsWith(path, ".*") && p + 2 < |path| && TokenAt(path, NUL, p).Token?
    requires TokenAt(path, NUL, p).next == |path|
    ensures var steps := TokenAt(path, NUL, p).steps; steps != [] && steps[|steps| - 1] != AnyField
  {
    hide Digits;
    assert path[|path| - 1] == path[|path| - 2..][1] == '*';
  }

  lemma {:induction false} StarFrom(path: string, after: char, p: nat)
    requires EndsWith(path, ".*") && p + 2 <= |path|
    ensures Parse(path, after, p).PastEnd? <==>
      Parse(path, NUL, p).PastEnd? || (after == '*' && StepsEndIn(path, NUL, p, AnyField))
    ensures Parse(path, after, p) == Parse(path, NUL, p) || Parse(path, after, p).PastEnd?
    decreases |path| - p
  {
    assert path[|path| - 2] == path[|path| - 2..][0] && path[|path| - 1] == path[|path| - 2..][1];
    if p + 2 == |path| {
      StarToken(path, after, p);
    } else {
      AfterIsUnused(path, after, p);
      var t := TokenAt(path, NUL, p);
      hide TokenAt;
      if t.Token? {
        if t.next + 2 <= |path| {
          StarFrom(path, after, t.next);
          LastStepOfRest(path, NUL, p, AnyField);
        } else if t.next == |path| {
          StarTokenEnd(path, p);
        } else if t.next + 1 == |path| {
          ParseBad(path, t.next);
        }
      }
    }
  }

  lemma StarToken(path: string, after: char, p: nat)
    requires p + 2 == |path| && path[p] == '.' && path[p + 1] == '*'
    ensures StepsEndIn(path, NUL, p, AnyField)
    ensures Parse(path, after, p) == if after == '*' then PastEnd else Parse(path, NUL, p)
  {
    assert TokenAt(path, NUL, p) == Token([AnyField], |path|);
    assert TokenAt(path, after, p) == if after == '*' then Token([Descend], |path| + 1) else Token([AnyField], |path|);
    assert Parse(path, NUL, |path|) == Parse(path, after, |path|) == Steps([]);
    assert Parse(path, after, |path| + 1) == PastEnd;
  }

  // A path that ends in two dots is compared with the same path and a star.

  lemma {:induction false} QuotedExtends(path: string, p: nat, backslash: bool)
    requires p <= |path|
    ensures Quoted(path + "*", p, backslash) == Quoted(path, p, backslash)
    decreases |path| - p
  {
    var z := path + "*";
    if p < |path| {
      QuotedExtends(path, p + 1, true);
      QuotedExtends(path, p + 1, false);
    } else {
      assert z[p] == '*' && Quoted(z, p + 1, false) == None;
    }
  }

  lemma {:induction false} KeyEndExtends(path: string, p: nat)
    requires p < |path| && path[|path| - 1] == '.'
    ensures KeyEnd(path + "*", p) == KeyEnd(path, p) < |path|
    decreases |path| - p
  {
    if path[p] != '.' && path[p] != '[' {
      KeyEndExtends(path, p + 1);
    }
  }

  lemma {:induction false} DigitsExtend(path: string, p: nat, left: nat, value: nat)
    requires p + 2 <= |path| && path[|path| - 2] == '.'
    ensures Digits(path + "*", p, left, value) == Digits(path, p, left, value)
    ensures Digits(path, p, left, value).Some? ==> Digits(path, p, left, value).value.1 + 2 <= |path|
    decreases left
  {
    if left > 0 && p + 2 < |path| && IsDigit(path[p]) {
      DigitsExtend(path, p + 1, left - 1, value * 10 + (path[p] as int - '0' as int));
    }
  }

  lemma NameExtends(path: string, p: nat)
    requires p < |path| && path[|path| - 1] == '.'
    ensures NameAt(path + "*", NUL, p) == NameAt(path, NUL, p)
    ensures |path| >= 2 && path[|path| - 2] == '.' ==>
      NameAt(path, NUL, p).chars == 0 || p + NameAt(path, NUL, p).chars + 2 <= |path|
  {
    KeyEndExtends(path, p);
    QuotedExtends(path, p + 1, false);
    assert (path + "*")[p..KeyEnd(path, p)] == path[p..KeyEnd(path, p)];
  }

  lemma KeyExtends(path: string, p: nat)
    requires p + 1 < |path| && path[|path| - 2] == '.' && path[|path| - 1] == '.'
    ensures KeyAt(path + "*", NUL, p) == KeyAt(path, NUL, p) && p + KeyAt(path, NUL, p).chars < |path|
  {
    hide NameAt;
    NameExtends(path, p);
    NameExtends(path, p + 1);
  }

  lemma IndexExtends(path: string, p: nat)
    requires p + 2 <= |path| && path[|path| - 2] == '.' && path[|path| - 1] == '.'
    ensures IndexAt(path + "*", p) == IndexAt(path, p)
    ensures IndexAt(path, p).Some? ==> IndexAt(path, p).value.next < |path|
  {
    hide NumberAt;
    NumberExtends(path, p, false);
    if p + 3 <= |path| {
      NumberExtends(path, p + 1, true);
    }
    if p + 4 <= |path| {
      NumberExtends(path, p + 2, true);
    }
  }

  lemma NumberExtends(path: string, p: nat, fromBack: bool)
    requires p + 2 <= |path| && path[|path| - 2] == '.'
    ensures NumberAt(path + "*", p, fromBack) == NumberAt(path, p, fromBack)
    ensures NumberAt(path, p, fromBack).Some? ==> NumberAt(path, p, fromBack).value.next < |path|
  {
    hide Digits;
    DigitsExtend(path, p, IDX_T_SAFE_DIG, 0);
  }

  lemma TokenExtends(path: string, p: nat)
    requires p + 2 < |path| && path[|path| - 2] == '.' && path[|path| - 1] == '.'
    ensures TokenAt(path + "*", NUL, p) == TokenAt(path, NUL, p)
    ensures TokenAt(path, NUL, p).Token? ==> TokenAt(path, NUL, p).next < |path|
  {
    hide KeyAt, IndexAt;
    IndexExtends(path, p + 1);
    KeyExtends(path, p + 1);
  }

  lemma DotsToken(path: string, after: char, p: nat)
    requires p + 2 == |path| && path[p] == '.' && path[p + 1] == '.'
    ensures Parse(path, NUL, p) == Malformed && StepsEndIn(path + "*", NUL, p, Descend)
    ensures Parse(path, after, p) ==
      if after == '*' || after == '"' then PastEnd else if after == '[' then Steps([Descend]) else Malformed
  {
    var z := path + "*";
    assert z[p] == '.' && z[p + 1] == '.' && z[p + 2] == '*';
    assert TokenAt(z, NUL, p) == Token([Descend], |z|);
    assert Parse(z, NUL, |z|) == Steps([]);
    assert NameAt(path, NUL, |path|).chars == 0;
    assert Parse(path, after, |path|) == Steps([]) && Parse(path, after, |path| + 1) == PastEnd;
  }

  lemma StarBehindDots(path: string)
    requires |path| >= 2 && path[|path| - 1] == '.'
    ensures Parse(path, NUL, |path| - 1) == Malformed && !StepsEndIn(path + "*", NUL, |path| - 1, Descend)
  {
    var z, p := path + "*", |path| - 1;
    assert z[p] == '.' && z[p + 1] == '*';
    assert TokenAt(z, NUL, p) == Token([AnyField], |z|);
    assert Parse(z, NUL, |z|) == Steps([]);
  }

  lemma {:induction false} DotsFrom(path: string, after: char, p: nat)
    requires EndsWith(path, "..") && p + 2 <= |path|
    ensures Parse(path, after, p).PastEnd?
       <==> Parse(path, NUL, p).PastEnd? || ((after == '*' || after == '"') && StepsEndIn(path + "*", NUL, p, Descend))
    ensures || Parse(path, after, p) == Parse(path, NUL, p) || Parse(path, after, p).PastEnd?
            || (after == '[' && Parse(path, NUL, p) == Malformed && StepsEndIn(path, after, p, Descend))
    decreases |path| - p
  {
    assert path[|path| - 2] == path[|path| - 2..][0] && path[|path| - 1] == path[|path| - 2..][1];
    if p + 2 == |path| {
      DotsToken(path, after, p);
    } else {
      var z := path + "*";
      AfterIsUnused(path, after, p);
      TokenExtends(path, p);
      var t := TokenAt(path, NUL, p);
      hide TokenAt;
      if t.Token? {
        LastStepOfRest(z, NUL, p, Descend);
        LastStepOfRest(path, after, p, Descend);
        if t.next + 2 <= |path| {
          DotsFrom(path, after, t.next);
        } else {
          StarBehindDots(path);
          OneByteLeft(path, after, t.next);
        }
      }
    }
  }

  lemma OneByteLeft(path: string, after: char, p: nat)
    requires p + 1 == |path|
    ensures Parse(path, after, p) == Malformed
  {}

  /** The loops run past the end of a path exactly in three cases: it ends in a bracket with 19 digits and no closing
      bracket, and would be accepted with the index 0 in their place; it ends in the wildcard `.*` and the byte behind
      it is a star; or it ends in two dots, would be accepted with a star behind them as a descent, and the byte behind
      it is a star or a quote. */
  lemma OverrunExactly(path: string, after: char)
    requires path != [] && path[0] == '$'
    ensures Parse(path, after, 1).PastEnd? <==>
      || (exists k :: 0 < k < |path| && EndsInLongIndex(path, k) && Parse(WithZero(path, k), NUL, 1).Steps?)
      || (after == '*' && EndsWith(path, ".*") && StepsEndIn(path, NUL, 1, AnyField))
      || ((after == '*' || after == '"') && EndsWith(path, "..") && StepsEndIn(path + "*", NUL, 1, Descend))
  {
    hide EndsInLongIndex, WithZero, Parse, StepsEndIn;
    ConstantPathOverruns(path);
    if EndsWith(path, ".*") {
      assert path[|path| - 2..][0] == '.' && |path| > 2;
      StarFrom(path, after, 1);
      assert path[|path| - 2..] != "..";
    } else if EndsWith(path, "..") {
      assert path[|path| - 2..][0] == '.' && |path| > 2;
      DotsFrom(path, after, 1);
    } else {
      ParseIgnoresAfter(path, after, 1);
    }
  }

  /** Otherwise the byte behind the path changes nothing, except that a bracket there makes a path that ends in two dots
      acceptable, as a descent; so a regular path does not depend on it. */
  lemma AfterChangesLittle(path: string, after: char)
    requires path != [] && path[0] == '$' && !Parse(path, after, 1).PastEnd?
    ensures || Parse(path, after, 1) == Parse(path, NUL, 1)
            || (after == '[' && EndsWith(path, "..") && Parse(path, NUL, 1) == Malformed
                && StepsEndIn(path, after, 1, Descend))
    ensures Parse(path, after, 1).Steps? && (forall step <- Parse(path, after, 1).steps :: !IsWild(step)) ==>
      Parse(path, after, 1) == Parse(path, NUL, 1)
  {
    hide Parse;
    if EndsWith(path, ".*") {
      assert path[|path| - 2..][0] == '.' && |path| > 2;
      StarFrom(path, after, 1);
    } else if EndsWith(path, "..") {
      assert path[|path| - 2..][0] == '.' && |path| > 2;
      DotsFrom(path, after, 1);
    } else {
      ParseIgnoresAfter(path, after, 1);
    }
    if StepsEndIn(path, after, 1, Descend) {
      assert Descend in Parse(path, after, 1).steps;
    }
  }

  /** A plain name before the second dot. */
  lemma PlainName(path: string, after: char, e: nat)
    requires 2 < e < |path| && path[1] == '.' && path[e] == '.'
    requires forall q | 2 <= q < e :: path[q] !in {'.', '[', '*', '"'}
    ensures TokenAt(path, after, 1).Token? && TokenAt(path, after, 1).next == e
  {
    assert KeyEnd(path, 2) == e;
    hide KeyEnd, Quoted;
    assert path[2] !in {'.', '[', '*', '"'};
    assert KeyAt(path, after, 2) == NameAt(path, after, 2) == Key(e - 2, false, path[2..e]);
  }

  /** For example $.abcdefghijk.* followed by a star, and $.abcdefghijk.. followed by a quote. Both are longer than the
      12 bytes that a string keeps within itself, so the byte behind them is whatever comes next on the heap. */
  lemma UnterminatedPathsOverrun()
    ensures Parse("$.abcdefghijk.*", '*', 1).PastEnd? && Parse("$.abcdefghijk..", '"', 1).PastEnd?
  {
    hide TokenAt;
    PlainName("$.abcdefghijk.*", '*', 13);
    PlainName("$.abcdefghijk..", '"', 13);
    StarToken("$.abcdefghijk.*", '*', 13);
    DotsToken("$.abcdefghijk..", '"', 13);
  }

  // ---- Which members a path can name ----

  /** A quoted and escaped key behind a dot: the empty key is refused, the key * is taken for the wildcard, and every
      other key is read as the field it names. */
  lemma QuotedKeyToken(before: string, key: string, behind: string, after: char)
    ensures var path, p := before + ['.', '"'] + Escaped(key) + ['"'] + behind, |before|;
      TokenAt(path, after, p) == if key == "" then Bad
                                 else Token([if key == "*" then AnyField else Field(key)], p + 3 + |Escaped(key)|)
  {
    var path, p := before + ['.', '"'] + Escaped(key) + ['"'] + behind, |before|;
    QuotedUndoesEscaped(before + ['.', '"'], key, behind);
    assert Escaped(key) == [] <==> key == [];
    hide Quoted, KeyEnd, Escaped;
    assert path[p] == '.' && path[p + 1] == '"';
    assert NameAt(path, after, p + 1) == if key == "" then Key(0, false, "") else Key(2 + |Escaped(key)|, false, key);
  }

  /** A path names exactly the member with a given key if and only if the key is neither empty nor a star. */
  lemma NamesMember(key: string, after: char)
    ensures Parse(['$', '.', '"'] + Escaped(key) + ['"'], after, 1) == Steps([Field(key)]) <==> key != "" && key != "*"
  {
    var path := ['$', '.', '"'] + Escaped(key) + ['"'];
    assert path == "$" + ['.', '"'] + Escaped(key) + ['"'] + "";
    QuotedKeyToken("$", key, "", after);
    hide TokenAt;
    assert Parse(path, after, |path|) == Steps([]);
    var steps := [if key == "*" then AnyField else Field(key)];
    assert key != "" ==> Parse(path, after, 1) == Steps(steps) by {
      assert steps + [] == steps;
    }
    assert steps[0].Field? <==> key != "*";
  }

  /** A key without quotes, dots or brackets can be written as it is. */
  lemma PlainKeyToken(key: string, after: char)
    requires key != "" && key[0] != '*' && key[0] != '"' && forall i | 0 <= i < |key| :: key[i] != '.' && key[i] != '['
    ensures Parse("$." + key, after, 1) == Steps([Field(key)])
  {
    var path, steps := "$." + key, [Field(key)];
    assert path[2] == key[0];
    forall i | 2 <= i < |path| ensures path[i] != '.' && path[i] != '[' {
      assert path[i] == key[i - 2];
    }
    assert KeyEnd(path, 2) == |path| && path[2..] == key == path[2..|path|];
    hide KeyEnd, Quoted;
    assert path[2] !in {'.', '[', '*', '"'};
    assert KeyAt(path, after, 2) == NameAt(path, after, 2) == Key(|path| - 2, false, key);
    assert TokenAt(path, after, 1) == Token(steps, |path|);
    assert Parse(path, after, |path|) == Steps([]) && steps + [] == steps;
  }

  /** The forms of wildcards, in paths that end with them. */
  lemma WildcardForms()
    ensures Parse("$.*", NUL, 1) == Steps([AnyField]) && Parse("$[*]", NUL, 1) == Steps([AnyItem])
    ensures Parse("$.**", NUL, 1) == Steps([Descend]) && Parse("$..*", NUL, 1) == Steps([Descend])
    ensures Parse("$..a", NUL, 1) == Steps([Descend, Field("a")])
  {
    assert TokenAt("$.*", NUL, 1) == Token([AnyField], 3) && TokenAt("$[*]", NUL, 1) == Token([AnyItem], 4);
    assert TokenAt("$.**", NUL, 1) == Token([Descend], 4) && TokenAt("$..*", NUL, 1) == Token([Descend], 4);
    assert KeyEnd("$..a", 4) == 4 && KeyEnd("$..a", 3) == 4 && "$..a"[3..4] == "a";
    assert TokenAt("$..a", NUL, 1) == Token([Descend, Field("a")], 4);
    assert Parse("$.*", NUL, 3) == Parse("$[*]", NUL, 4) == Parse("$.**", NUL, 4) == Steps([]);
    assert Parse("$..*", NUL, 4) == Parse("$..a", NUL, 4) == Steps([]);
    hide TokenAt;
    assert [AnyField] + [] == [AnyField] && [AnyItem] + [] == [AnyItem] && [Descend] + [] == [Descend];
    assert [Descend, Field("a")] + [] == [Descend, Field("a")];
  }

  lemma EvalField(key: string, root: Node)
    ensures Eval([Field(key)], root) == if root.value.Obj? && Lookup(root.value.members, key).Some?
                                        then [Child(root, Lookup(root.value.members, key).value)] else []
  {
    assert [Field(key)][1..] == [];
  }

  /** For such a key, GetPath finds the first member with it. */
  method GetMember(key: string, after: char, root: Node) returns (r: Option<Node>)
    requires key != "" && key != "*"
    ensures r == if root.value.Obj? && Lookup(root.value.members, key).Some?
                 then Some(Child(root, Lookup(root.value.members, key).value)) else None
  {
    hide Parse;
    NamesMember(key, after);
    EvalField(key, root);
    r := GetPath(['$', '.', '"'] + Escaped(key) + ['"'], after, root);
  }

  // ---- Which elements a path can name ----

  /** An index is that of the element; from the back, it counts from 1 for the last element, but 0 is the first one. */
  lemma IndexMeans(index: nat, fromBack: bool, node: Node)
    requires node.value.Arr? && index < 0x1_0000_0000_0000_0000 && |node.value.items| < 0x1_0000_0000_0000_0000
    ensures var n := |node.value.items|;
      Eval([Item(index, fromBack)], node) ==
        if fromBack && index > 0 then if index <= n then [Child(node, n - index)] else []
        else if index < n then [Child(node, index)] else []
  {
    assert [Item(index, fromBack)][1..] == [];
    var n := |node.value.items|;
    if index > n {
      assert (n - index) % 0x1_0000_0000_0000_0000 == n - index + 0x1_0000_0000_0000_0000;
    }
  }

  /** The form [#] names no element of an array that has fewer than 2^32 of them. */
  lemma HashMeansNothing(after: char, root: Node)
    requires root.value.Arr? && |root.value.items| <= UINT32_MAX
    ensures Parse("$[#]", after, 1).Steps? && Eval(Parse("$[#]", after, 1).steps, root) == []
  {
    assert TokenAt("$[#]", after, 1) == Token([Item(UINT32_MAX, false)], 4);
    assert Parse("$[#]", after, 4) == Steps([]);
    assert [Item(UINT32_MAX, false)] + [] == [Item(UINT32_MAX, false)];
    IndexMeans(UINT32_MAX, false, root);
  }

  /** A wildcard finds all members of an object, or all elements of an array, in order, and nothing on other values. */
  lemma WildcardsFindAll(node: Node)
    ensures Eval([AnyField], node) ==
      if node.value.Obj?
      then seq(|node.value.members|, k requires 0 <= k < |node.value.members| => Child(node, k)) else []
    ensures Eval([AnyItem], node) ==
      if node.value.Arr?
      then seq(|node.value.items|, k requires 0 <= k < |node.value.items| => Child(node, k)) else []
  {
    assert [AnyField][1..] == [] && [AnyItem][1..] == [];
    if node.value.Obj? || node.value.Arr? {
      EvalNothing(Children(node));
    }
  }

  lemma {:induction false} EvalNothing(nodes: seq<Node>)
    ensures EvalAll([], nodes) == nodes
    decreases |nodes|
  {
    if nodes != [] {
      EvalNothing(nodes[..|nodes| - 1]);
    }
  }

  /** Digits in front of a bracket are read as the number they stand for. */
  lemma {:induction false} DigitsAreNumber(path: string, p: nat, digits: string, left: nat, value: nat)
    requires p + |digits| < |path| && path[p..p + |digits|] == digits && path[p + |digits|] == ']'
    requires |digits| <= left && AreDigits(digits)
    ensures Digits(path, p, left, value) == Some((Number(value, digits), p + |digits|))
    decreases |digits|
  {
    if digits != [] {
      assert path[p] == digits[0] && IsDigit(digits[0]);
      assert path[p + 1..p + 1 + |digits[1..]|] == digits[1..];
      DigitsAreNumber(path, p + 1, digits[1..], left - 1, value * 10 + (path[p] as int - '0' as int));
    }
  }

  lemma {:induction false} DigitsNeeded(n: nat, k: nat)
    requires k > 0 && n < Power10(k)
    ensures |ToString(n)| <= k
  {
    if n >= 10 {
      DigitsNeeded(n / 10, k - 1);
    }
  }

  /** How an index is written: counted from the front, or from the back with or without a hash. */
  datatype Side = Front | Back | HashBack

  function Prefix(side: Side): string {
    match side
    case Front => ""
    case Back => "-"
    case HashBack => "#-"
  }

  function ElementPath(side: Side, index: nat): string { "$[" + Prefix(side) + ToString(index) + "]" }

  lemma ElementToken(side: Side, index: nat, after: char)
    requires index < Power10(IDX_T_SAFE_DIG)
    ensures var path := ElementPath(side, index);
      TokenAt(path, after, 1) == Token([Item(index, side != Front)], |path|)
  {
    hide Digits, Power10, Number, ToString;
    var path, digits, p := ElementPath(side, index), ToString(index), 2 + |Prefix(side)|;
    ToStringReads(index);
    DigitsNeeded(index, IDX_T_SAFE_DIG);
    assert path[p..p + |digits|] == digits && path[p + |digits|] == ']' && |path| == p + |digits| + 1;
    DigitsAreNumber(path, p, digits, IDX_T_SAFE_DIG, 0);
    assert IsDigit(digits[0]) && path[p] == digits[0];
    assert NumberAt(path, p, side != Front) == Some(Index(index, side != Front, |path|));
    assert path[1] == '[' && (side != Front ==> path[2] == Prefix(side)[0]);
    assert side == HashBack ==> path[3] == '-';
  }

  /** A path with an index of up to 19 digits finds the element it says, from the front or from the back. */
  method GetElement(side: Side, index: nat, after: char, root: Node) returns (r: Option<Node>)
    requires index < Power10(IDX_T_SAFE_DIG) && root.value.Arr? && |root.value.items| < 0x1_0000_0000_0000_0000
    ensures var n := |root.value.items|;
      r == if side != Front && index > 0 then if index <= n then Some(Child(root, n - index)) else None
           else if index < n then Some(Child(root, index)) else None
  {
    hide Parse, TokenAt, Eval, ToString, Power10, Resolve;
    var path := ElementPath(side, index);
    ElementParses(side, index, after);
    Power10Grows(0, 0);
    IndexMeans(index, side != Front, root);
    r := GetPath(path, after, root);
  }

  lemma ElementParses(side: Side, index: nat, after: char)
    requires index < Power10(IDX_T_SAFE_DIG)
    ensures Parse(ElementPath(side, index), after, 1) == Steps([Item(index, side != Front)])
  {
    hide TokenAt, ToString, Power10;
    var path, steps := ElementPath(side, index), [Item(index, side != Front)];
    ElementToken(side, index, after);
    assert Parse(path, after, |path|) == Steps([]) && steps + [] == steps;
  }

  /** For example, the last element of three. */
  method LastOfThree(after: char, root: Node) returns (r: Option<Node>)
    requires root.value.Arr? && |root.value.items| == 3
    ensures r == Some(Child(root, 2))
  {
    hide Parse, TokenAt, Eval;
    Power10Grows(1, IDX_T_SAFE_DIG);
    assert ToString(1) == "1" && ElementPath(HashBack, 1) == "$[#-1]";
    ElementParses(HashBack, 1, after);
    IndexMeans(1, true, root);
    r := GetPath("$[#-1]", after, root);
  }
}
