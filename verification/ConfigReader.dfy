/**
 * `ImmutableConfig` (config.h): looking options up in the flat bytes and walking them, without
 * ever building the forest they encode. Lengths are 32 bits wide, so each record must be smaller
 * than 2^32 bytes for its length to be the stored one; the whole may be larger.
 */
module ConfigReader {
  import opened Bytes
  import opened Sequences
  import opened Wrappers
  import opened ConfigGrammar
  import opened ConfigEncoding
  import opened ConfigParser
  import opened ConfigRoundTrip

  // ---------------------------------------------------------------- C strings in the bytes

  ghost predicate Terminated(v: seq<byte>, p: nat) {
    exists q: nat :: p <= q < |v| && v[q] == 0
  }

  function Strlen(v: seq<byte>, p: nat): (n: nat)
    requires Terminated(v, p)
    ensures p + n < |v| && v[p + n] == 0 && NulFree(v[p..p + n])
    decreases |v| - p
  {
    if v[p] == 0 then 0 else 1 + Strlen(v, p + 1)
  }

  function CString(v: seq<byte>, p: nat): seq<byte>
    requires Terminated(v, p)
  {
    v[p..p + Strlen(v, p)]
  }

  /** A NUL-free string stored with its terminator is read back whole. */
  lemma {:induction false} StoredString(v: seq<byte>, p: nat, s: seq<byte>)
    requires NulFree(s) && p + |s| < |v| && v[p..p + |s|] == s && v[p + |s|] == 0
    ensures Terminated(v, p) && Strlen(v, p) == |s| && CString(v, p) == s
    decreases |s|
  {
    if s != [] {
      assert v[p] == s[0] && v[p + 1..p + 1 + |s[1..]|] == v[p..p + |s|][1..];
      StoredString(v, p + 1, s[1..]);
    }
  }

  // ---------------------------------------------------------------- one record in the bytes

  function PayloadBytes(value: Option<seq<byte>>, children: seq<byte>): seq<byte> {
    (if value.Some? then value.value + [0] else []) + children
  }

  function Payload(n: Node): seq<byte> {
    PayloadBytes(n.value, Encode(n.children))
  }

  function RecordSize(n: Node): nat {
    4 + |n.name| + 1 + |Payload(n)|
  }

  /** The length of each of the records fits in 32 bits. */
  predicate Small(f: seq<Node>) {
    forall i :: 0 <= i < |f| ==> RecordSize(f[i]) < 0x1_0000_0000
  }

  /** The stored length of a record is its size exactly when the size fits. */
  lemma LengthExactExactlyWhen(n: Node)
    ensures ReadLe32(Le32(RecordSize(n))) == RecordSize(n) <==> Small([n])
  {
    Le32RoundTrip(RecordSize(n));
    assert Small([n]) <==> RecordSize([n][0]) < 0x1_0000_0000;
  }

  /** `v[b..e]` holds the encoding of `f`, with exact lengths. */
  ghost predicate Holds(v: seq<byte>, b: nat, e: nat, f: seq<Node>) {
    b <= e <= |v| && v[b..e] == Encode(f) && Small(f)
  }

  lemma SplitSpan(v: seq<byte>, b: nat, e: nat, left: seq<byte>, right: seq<byte>)
    requires b <= e <= |v| && v[b..e] == left + right
    ensures b + |left| <= e && v[b..b + |left|] == left && v[b + |left|..e] == right
  {
    assert v[b..b + |left|] == v[b..e][..|left|];
    assert v[b + |left|..e] == v[b..e][|left|..];
  }

  lemma RecordParts(name: seq<byte>, value: Option<seq<byte>>, children: seq<byte>)
    ensures var payload := PayloadBytes(value, children);
            Record(name, value, children) == Le32(5 + |name| + |payload|) + (name + ([0] + payload))
  {
    assert Body(name, value, children) == name + ([0] + PayloadBytes(value, children));
  }

  /** A length, a name and a payload, followed by the rest of the span. */
  lemma RecordLayout(v: seq<byte>, b: nat, e: nat, len: seq<byte>, name: seq<byte>, payload: seq<byte>, rest: seq<byte>)
    requires b <= e <= |v| && |len| == 4 && v[b..e] == len + (name + ([0] + payload)) + rest
    ensures var at := b + 4; var start := at + |name| + 1; var end := start + |payload|;
            && start <= end <= e
            && v[b..at] == len && v[at..start - 1] == name && v[start - 1] == 0
            && v[start..end] == payload && v[end..e] == rest
  {
    var at, end := b + 4, b + 5 + |name| + |payload|;
    SplitSpan(v, b, e, len + (name + ([0] + payload)), rest);
    SplitSpan(v, b, end, len, name + ([0] + payload));
    SplitSpan(v, at, end, name, [0] + payload);
    SplitSpan(v, at + |name|, end, [0], payload);
    assert v[at + |name|] == v[at + |name|..at + |name| + 1][0];
  }

  lemma EncodeFirst(f: seq<Node>)
    requires f != []
    ensures Encode(f) == Record(f[0].name, f[0].value, Encode(f[0].children)) + Encode(f[1..])
  {
  }

  /** The first record of a span, apart from its length. */
  lemma FirstRecordParts(v: seq<byte>, b: nat, e: nat, f: seq<Node>)
    requires Holds(v, b, e, f) && f != []
    ensures var n := f[0]; var name := b + 4; var payload := name + |n.name| + 1; var end := b + RecordSize(n);
            && payload <= end <= e
            && v[b..name] == Le32(RecordSize(n))
            && v[name..payload - 1] == n.name && v[payload - 1] == 0
            && v[payload..end] == Payload(n)
            && Holds(v, end, e, f[1..])
  {
    hide Encode, Le32, Record;
    var n := f[0];
    EncodeFirst(f);
    RecordParts(n.name, n.value, Encode(n.children));
    RecordLayout(v, b, e, Le32(RecordSize(n)), n.name, Payload(n), Encode(f[1..]));
  }

  lemma FirstRecord(v: seq<byte>, b: nat, e: nat, f: seq<Node>)
    requires Holds(v, b, e, f) && f != []
    ensures var n := f[0]; var name := b + 4; var payload := name + |n.name| + 1; var end := b + RecordSize(n);
            && payload <= end <= e
            && ReadLe32(v[b..name]) == RecordSize(n)
            && v[name..payload - 1] == n.name && v[payload - 1] == 0
            && v[payload..end] == Payload(n)
            && Holds(v, end, e, f[1..])
  {
    FirstRecordParts(v, b, e, f);
    Le32RoundTrip(RecordSize(f[0]));
  }

  lemma EmptySpan(v: seq<byte>, b: nat, e: nat, f: seq<Node>)
    requires Holds(v, b, e, f)
    ensures b == e <==> f == []
  {
    if f != [] {
      FirstRecord(v, b, e, f);
    }
  }

  lemma PrefixSize(f: seq<Node>, i: nat)
    requires i < |f| || i == 0
    ensures f[0..] == f && Encode(f[..0]) == []
    ensures i < |f| ==> |Encode(f[..i + 1])| == |Encode(f[..i])| + RecordSize(f[i])
  {
    assert f[..0] == [];
    if i == |f| {
      return;
    }
    assert f[..i + 1] == f[..i] + [f[i]];
    EncodeAppend(f[..i], [f[i]]);
    EncodeOne(f[i]);
    RecordParts(f[i].name, f[i].value, Encode(f[i].children));
  }

  // ---------------------------------------------------------------- lookup

  /** Index of the first option with that name. */
  function First(f: seq<Node>, name: seq<byte>): (r: Option<nat>)
    ensures r.Some? ==> r.value < |f| && f[r.value].name == name
    ensures forall i :: 0 <= i < (if r.Some? then r.value else |f|) ==> f[i].name != name
  {
    if f == [] then None
    else if f[0].name == name then Some(0)
    else match First(f[1..], name)
      case None => None
      case Some(i) => Some(i + 1)
  }

  function Later(i: nat, r: Option<nat>): Option<nat> {
    match r
    case None => None
    case Some(k) => Some(i + k)
  }

  lemma FirstStep(f: seq<Node>, i: nat, name: seq<byte>)
    requires i <= |f|
    ensures First(f[i..], name) ==
            if i == |f| then None else if f[i].name == name then Some(0) else Later(1, First(f[i + 1..], name))
  {
    if i < |f| {
      assert f[i..][0] == f[i] && f[i..][1..] == f[i + 1..];
    }
  }

  /** Option `i` has the name and no option before it has. */
  predicate IsFirst(f: seq<Node>, name: seq<byte>, i: int) {
    0 <= i < |f| && f[i].name == name && forall j :: 0 <= j < i ==> f[j].name != name
  }

  lemma FirstIsFirst(f: seq<Node>, name: seq<byte>)
    ensures forall i :: IsFirst(f, name, i) <==> First(f, name) == Some(i)
  {
  }

  lemma {:induction false} CanonicalAt(f: seq<Node>, i: nat, text: seq<byte> -> bool)
    requires Canonical(f, text) && i < |f|
    ensures text(f[i].name) && (f[i].value.Some? ==> text(f[i].value.value))
    ensures (f[i].children != [] ==> f[i].value == Some([])) && Canonical(f[i].children, text)
    decreases i
  {
    if i > 0 {
      CanonicalAt(f[1..], i - 1, text);
    }
  }

  // ---------------------------------------------------------------- the walk

  datatype Line = Line(indent: nat, name: seq<byte>, value: Option<seq<byte>>)

  /** Every option once, an option before its children, and they before the next option. */
  function Preorder(f: seq<Node>, indent: nat): seq<Line> {
    if f == [] then []
    else [Line(indent, f[0].name, f[0].value)] + Preorder(f[0].children, indent + 1) + Preorder(f[1..], indent)
  }

  /** The forest of the lines at `indent` and deeper at the front, and the lines left. */
  function Rebuild(lines: seq<Line>, indent: nat): (r: (seq<Node>, seq<Line>))
    ensures |r.1| <= |lines|
    decreases |lines|
  {
    if lines == [] || lines[0].indent != indent then ([], lines)
    else
      var (children, after) := Rebuild(lines[1..], indent + 1);
      var (siblings, rest) := Rebuild(after, indent);
      ([Node(lines[0].name, lines[0].value, children)] + siblings, rest)
  }

  lemma RebuildFirst(line: Line, inner: seq<Line>, after: seq<Line>, children: seq<Node>,
                     siblings: seq<Node>, rest: seq<Line>)
    requires Rebuild(inner + after, line.indent + 1) == (children, after)
    requires Rebuild(after, line.indent) == (siblings, rest)
    ensures Rebuild([line] + (inner + after), line.indent) == ([Node(line.name, line.value, children)] + siblings, rest)
  {
    assert ([line] + (inner + after))[1..] == inner + after;
  }

  lemma PreorderFirst(f: seq<Node>, indent: nat, rest: seq<Line>)
    requires f != []
    ensures Preorder(f, indent) + rest
            == [Line(indent, f[0].name, f[0].value)]
               + (Preorder(f[0].children, indent + 1) + (Preorder(f[1..], indent) + rest))
  {
    var line := [Line(indent, f[0].name, f[0].value)];
    var inner, after := Preorder(f[0].children, indent + 1), Preorder(f[1..], indent);
    Regroup(line, inner, after);
    Regroup(line, inner + after, rest);
    Regroup(inner, after, rest);
  }

  lemma RebuildCons(f: seq<Node>, indent: nat, rest: seq<Line>)
    requires f != []
    requires var after := Preorder(f[1..], indent) + rest;
             && Rebuild(Preorder(f[0].children, indent + 1) + after, indent + 1) == (f[0].children, after)
             && Rebuild(after, indent) == (f[1..], rest)
    ensures Rebuild(Preorder(f, indent) + rest, indent) == (f, rest)
  {
    hide Rebuild, Preorder;
    RebuildFirst(Line(indent, f[0].name, f[0].value), Preorder(f[0].children, indent + 1),
                 Preorder(f[1..], indent) + rest, f[0].children, f[1..], rest);
    PreorderFirst(f, indent, rest);
    assert [f[0]] + f[1..] == f && f[0] == Node(f[0].name, f[0].value, f[0].children);
  }

  /** Lines in preorder with their depths give the forest back. */
  lemma {:induction false} RebuildInverts(f: seq<Node>, indent: nat, rest: seq<Line>)
    requires rest == [] || rest[0].indent < indent
    ensures Rebuild(Preorder(f, indent) + rest, indent) == (f, rest)
    decreases f
  {
    if f == [] {
      assert Preorder(f, indent) + rest == rest;
    } else {
      AfterFirst(f[1..], indent, rest);
      RebuildInverts(f[0].children, indent + 1, Preorder(f[1..], indent) + rest);
      RebuildInverts(f[1..], indent, rest);
      RebuildCons(f, indent, rest);
    }
  }

  lemma AfterFirst(f: seq<Node>, indent: nat, rest: seq<Line>)
    requires rest == [] || rest[0].indent < indent
    ensures var after := Preorder(f, indent) + rest; after == [] || after[0].indent < indent + 1
  {
  }

  /** `v[b..e]` holds the options of one level. */
  ghost predicate Level(v: seq<byte>, b: nat, e: nat, f: seq<Node>) {
    Holds(v, b, e, f) && Canonical(f, NulFree)
  }

  /** A record is no longer than the records it stands among, so children of a record that fits do. */
  lemma {:induction false} RecordWithin(f: seq<Node>, i: nat)
    requires i < |f|
    ensures RecordSize(f[i]) <= |Encode(f)|
    decreases i
  {
    EncodeFirst(f);
    RecordParts(f[0].name, f[0].value, Encode(f[0].children));
    if i > 0 {
      RecordWithin(f[1..], i - 1);
    }
  }

  lemma ChildrenSmall(n: Node)
    requires RecordSize(n) < 0x1_0000_0000
    ensures Small(n.children)
  {
    hide Encode;
    forall i | 0 <= i < |n.children|
      ensures RecordSize(n.children[i]) < 0x1_0000_0000
    {
      RecordWithin(n.children, i);
    }
  }

  /** The first option of a level: its value, its children, and the options after it. */
  lemma LevelFirst(v: seq<byte>, b: nat, e: nat, f: seq<Node>)
    requires Level(v, b, e, f) && f != []
    ensures var n := f[0];
            var end := b + RecordSize(n);
            var inner := end - |Encode(n.children)|;
            && end <= e && inner >= b
            && NulFree(n.name) && (n.value.Some? ==> NulFree(n.value.value))
            && (n.children != [] ==> n.value == Some([]))
            && Level(v, end, e, f[1..]) && Level(v, inner, end, n.children)
  {
    hide Encode;
    FirstRecordParts(v, b, e, f);
    var n := f[0];
    ChildrenSmall(n);
    var end := b + RecordSize(n);
    SplitSpan(v, end - |Payload(n)|, end, if n.value.Some? then n.value.value + [0] else [], Encode(n.children));
  }

  /** A payload that is not empty starts with the value. */
  lemma PayloadValue(v: seq<byte>, b: nat, e: nat, n: Node)
    requires b < e <= |v| && v[b..e] == Payload(n)
    requires (n.value.Some? ==> NulFree(n.value.value)) && (n.children != [] ==> n.value == Some([]))
    ensures n.value.Some? && Terminated(v, b) && CString(v, b) == n.value.value
    ensures b + Strlen(v, b) + 1 == e - |Encode(n.children)|
  {
    var s := n.value.value;
    assert v[b..b + |s|] == v[b..e][..|s|] == s && v[b + |s|] == v[b..e][|s|] == 0;
    StoredString(v, b, s);
  }

  lemma ReadValue(v: seq<byte>, b: nat, e: nat, n: Node)
    requires b <= e <= |v| && v[b..e] == Payload(n)
    requires (n.value.Some? ==> NulFree(n.value.value)) && (n.children != [] ==> n.value == Some([]))
    ensures b == e <==> n.value == None
    ensures b == e ==> Encode(n.children) == []
    ensures b < e ==> n.value.Some? && Terminated(v, b) && CString(v, b) == n.value.value
    ensures b < e ==> b + Strlen(v, b) + 1 == e - |Encode(n.children)|
    ensures b < e ==> (v[b] == 0 <==> n.value == Some([]))
  {
    if b < e {
      PayloadValue(v, b, e, n);
    }
  }

  lemma LevelHolds(v: seq<byte>, b: nat, e: nat, f: seq<Node>)
    requires Level(v, b, e, f)
    ensures Holds(v, b, e, f) && b <= e <= |v|
  {
  }

  lemma ReadName(v: seq<byte>, b: nat, e: nat, f: seq<Node>)
    requires Level(v, b, e, f) && b < e
    ensures f != []
    ensures var n := f[0];
            var at := b + 4; var p := at + |n.name| + 1; var end := b + RecordSize(n);
            && p <= end <= e <= |v| && v[p..end] == Payload(n)
            && ReadLe32(v[b..at]) == RecordSize(n)
            && Terminated(v, at) && CString(v, at) == n.name && Strlen(v, at) == |n.name|
            && Level(v, end, e, f[1..])
  {
    hide Encode, Canonical, Payload, ReadLe32, Strlen, CString, Level, Holds;
    LevelHolds(v, b, e, f);
    EmptySpan(v, b, e, f);
    FirstRecord(v, b, e, f);
    LevelFirst(v, b, e, f);
    StoredString(v, b + 4, f[0].name);
  }

  /** What the code sees at a record: its length, its name, and its value if there is one. */
  lemma ReadRecord(v: seq<byte>, b: nat, e: nat, f: seq<Node>)
    requires Level(v, b, e, f) && b < e
    ensures f != []
    ensures var n := f[0];
            var at := b + 4; var p := at + |n.name| + 1; var end := b + RecordSize(n);
            && p <= end <= e <= |v| && v[p..end] == Payload(n)
            && ReadLe32(v[b..at]) == RecordSize(n)
            && Terminated(v, at) && CString(v, at) == n.name && Strlen(v, at) == |n.name|
            && (p == end <==> n.value.None?)
            && (p == end ==> Encode(n.children) == [])
            && (p < end ==> Terminated(v, p) && CString(v, p) == n.value.value
                            && p + Strlen(v, p) + 1 == end - |Encode(n.children)|)
            && Level(v, end, e, f[1..])
  {
    hide Encode, Canonical, Payload, ReadLe32, Strlen, CString, Level;
    ReadName(v, b, e, f);
    LevelFirst(v, b, e, f);
    var n := f[0];
    ReadValue(v, b + 5 + |n.name|, b + RecordSize(n), n);
  }

  /** Where the `i`-th level of the stack of end positions goes on: after the level inside it. */
  function Resume(pos: nat, stack: seq<nat>, i: nat): nat
    requires i < |stack|
  {
    if i == |stack| - 1 then pos else stack[i + 1]
  }

  /** The stack of end positions `stack` cuts `v` from `pos` on into the encodings of `todo`,
      the innermost last. */
  ghost predicate Spans(v: seq<byte>, pos: nat, stack: seq<nat>, todo: seq<seq<Node>>) {
    && |stack| == |todo|
    && forall i: nat :: i < |stack| ==> Level(v, Resume(pos, stack, i), stack[i], todo[i])
  }

  /** The lines still to come. */
  function ToCome(todo: seq<seq<Node>>): seq<Line> {
    if todo == [] then []
    else Preorder(todo[|todo| - 1], |todo| + 1) + ToCome(todo[..|todo| - 1])
  }

  /** Replacing the innermost level by what is left of it and putting a new one inside. */
  lemma PushSpan(v: seq<byte>, pos: nat, stack: seq<nat>, todo: seq<seq<Node>>,
                 start: nat, end: nat, inner: seq<Node>, rest: seq<Node>)
    requires stack != [] && Spans(v, pos, stack, todo)
    requires Level(v, end, stack[|stack| - 1], rest) && Level(v, start, end, inner)
    ensures Spans(v, start, stack + [end], todo[|todo| - 1 := rest] + [inner])
  {
    hide Level;
    var k := |stack| - 1;
    var stack1, todo1 := stack + [end], todo[k := rest] + [inner];
    forall i: nat | i < |stack1|
      ensures Level(v, Resume(start, stack1, i), stack1[i], todo1[i])
    {
      if i < k {
        assert Level(v, Resume(pos, stack, i), stack[i], todo[i]);
      }
    }
  }

  lemma OneSpan(v: seq<byte>, f: seq<Node>)
    requires Level(v, 0, |v|, f)
    ensures Spans(v, 0, [|v|], [f])
  {
  }

  lemma TopLevel(v: seq<byte>, pos: nat, stack: seq<nat>, todo: seq<seq<Node>>)
    requires Spans(v, pos, stack, todo)
    ensures |stack| == |todo|
    ensures stack != [] ==> Level(v, pos, stack[|stack| - 1], todo[|todo| - 1]) && pos <= stack[|stack| - 1] <= |v|
  {
    if stack != [] {
      assert Level(v, Resume(pos, stack, |stack| - 1), stack[|stack| - 1], todo[|todo| - 1]);
    }
  }

  /** Leaving a level that has been read to its end. */
  lemma PopSpan(v: seq<byte>, pos: nat, stack: seq<nat>, todo: seq<seq<Node>>)
    requires stack != [] && Spans(v, pos, stack, todo) && pos >= stack[|stack| - 1]
    ensures todo[|todo| - 1] == []
    ensures Spans(v, pos, stack[..|stack| - 1], todo[..|todo| - 1])
  {
    var k := |stack| - 1;
    assert Level(v, Resume(pos, stack, k), stack[k], todo[k]);
    EmptySpan(v, pos, stack[k], todo[k]);
    forall i: nat | i < k
      ensures Level(v, Resume(pos, stack[..k], i), stack[..k][i], todo[..k][i])
    {
      assert Level(v, Resume(pos, stack, i), stack[i], todo[i]);
    }
  }

  lemma OpenRecord(v: seq<byte>, pos: nat, stack: seq<nat>, todo: seq<seq<Node>>)
    requires stack != [] && Spans(v, pos, stack, todo) && todo[|todo| - 1] != []
    ensures var n := todo[|todo| - 1][0];
            var end := pos + RecordSize(n);
            && end <= |v| && end >= |Encode(n.children)|
            && Spans(v, end - |Encode(n.children)|, stack + [end], Descend(todo))
  {
    hide Encode, Canonical;
    var k := |stack| - 1;
    var n := todo[k][0];
    var end := pos + RecordSize(n);
    assert Level(v, Resume(pos, stack, k), stack[k], todo[k]);
    LevelFirst(v, pos, stack[k], todo[k]);
    PushSpan(v, pos, stack, todo, end - |Encode(n.children)|, end, n.children, todo[k][1..]);
  }

  lemma LinesOfLevel(todo: seq<seq<Node>>)
    ensures todo == [] ==> ToCome(todo) == []
    ensures todo != [] && todo[|todo| - 1] == [] ==> ToCome(todo) == ToCome(todo[..|todo| - 1])
    ensures |todo| == 1 ==> ToCome(todo) == Preorder(todo[0], 2)
  {
    if |todo| == 1 {
      assert todo[..0] == [];
      assert Preorder(todo[0], 2) + [] == Preorder(todo[0], 2);
    }
  }

  lemma LinesOfRecord(todo: seq<seq<Node>>)
    requires todo != [] && todo[|todo| - 1] != []
    ensures var n := todo[|todo| - 1][0];
            ToCome(todo) == [Line(|todo| + 1, n.name, n.value)] + ToCome(Descend(todo))
  {
    var k := |todo| - 1;
    var n := todo[k][0];
    var outer := todo[k := todo[k][1..]];
    assert outer[..k] == todo[..k] && Descend(todo)[..k + 1] == outer;
    var line, inner := [Line(|todo| + 1, n.name, n.value)], Preorder(n.children, |todo| + 2);
    var after := Preorder(todo[k][1..], |todo| + 1);
    Regroup(line, inner, after);
    Regroup(line, inner + after, ToCome(todo[..k]));
    Regroup(inner, after, ToCome(todo[..k]));
    assert ToCome(Descend(todo)) == inner + ToCome(outer);
  }

  /** Going into the first option of the innermost span. */
  function Descend(todo: seq<seq<Node>>): seq<seq<Node>>
    requires todo != [] && todo[|todo| - 1] != []
  {
    todo[|todo| - 1 := todo[|todo| - 1][1..]] + [todo[|todo| - 1][0].children]
  }

  class ImmutableConfig {
    var v: seq<byte>

    /** The object holds the encoding of a forest that a text can denote. */
    ghost predicate Stores(f: seq<Node>)
      reads this
    {
      Level(v, 0, |v|, f)
    }

    constructor ()
      ensures v == []
    {
      v := [];
    }

    /** `parse`: on success the object stores the forest of the text, whatever it held before. */
    method Parse(str: seq<byte>) returns (r: Result<(), ParseError>)
      modifies this
      ensures r.Ok? <==> Denotes(str).Ok?
      ensures r.Err? ==> r.error.kind == Denotes(str).error
      ensures r.Ok? ==> v == Encode(Denotes(str).value)
      ensures r.Ok? && NulFree(str) && Small(Denotes(str).value) ==> Stores(Denotes(str).value)
    {
      v := [];
      var parser := new ParseConfig(str);
      r := parser.Parse();
      v := parser.outData;
      if r.Ok? && NulFree(str) {
        DenotesCanonical(str);
        assert v[0..|v|] == v;
      }
    }

    /** The number whose stored form is at `pos`. Where a record starts, it leads to the next one. */
    method ReadLen(pos: nat) returns (r: nat, next: nat)
      requires pos + 4 <= |v|
      ensures next == pos + 4 && r < 0x1_0000_0000 && v[pos..next] == Le32(r)
      ensures forall e: nat, f :: Level(v, pos, e, f) && pos < e ==>
                f != [] && r == RecordSize(f[0]) && Level(v, pos + r, e, f[1..])
    {
      hide Level, ReadLe32, Le32;
      StoredFormOf(v[pos..pos + 4]);
      forall e: nat, f | Level(v, pos, e, f) && pos < e
        ensures f != [] && ReadLe32(v[pos..pos + 4]) == RecordSize(f[0])
        ensures Level(v, pos + RecordSize(f[0]), e, f[1..])
      {
        ReadName(v, pos, e, f);
      }
      r, next := ReadLe32(v[pos..pos + 4]), pos + 4;
    }

    /** One turn of the loop of `find`: the length is read, the name compared. */
    method Compare(pos: nat, posE: nat, str: seq<byte>, ghost f: seq<Node>)
      returns (hit: bool, payload: nat, newPos: nat)
      requires Level(v, pos, posE, f) && pos < posE && NulFree(str)
      ensures f != [] && hit == (f[0].name == str)
      ensures newPos == pos + RecordSize(f[0]) && pos < newPos <= posE && Level(v, newPos, posE, f[1..])
      ensures hit ==> payload <= newPos && v[payload..newPos] == Payload(f[0])
    {
      hide Encode, Canonical, Level, Payload, ReadLe32, Strlen, CString;
      ReadRecord(v, pos, posE, f);
      newPos := pos;
      var len, at := ReadLen(pos);
      newPos := newPos + len;
      hit := CString(v, at) == str;
      payload := at + |str| + 1;
    }

    /** `find` over any span that holds a forest: the payload span of the first record with that
        name, or the empty span at the end. */
    method Find(b: nat, e: nat, str: seq<byte>, ghost f: seq<Node>) returns (pb: nat, pe: nat)
      requires Level(v, b, e, f) && NulFree(str)
      ensures match First(f, str)
              case None => pb == e && pe == e
              case Some(i) =>
                && b <= pb <= pe <= e
                && v[pb..pe] == Payload(f[i])
                && pe == b + |Encode(f[..i])| + RecordSize(f[i])
    {
      hide Encode, Canonical, Payload, First;
      PrefixSize(f, 0);
      var pos, posE := b, e;
      ghost var i := 0;
      while pos < posE
        invariant i <= |f| && b <= pos <= posE == e
        invariant Level(v, pos, posE, f[i..])
        invariant pos == b + |Encode(f[..i])|
        invariant First(f, str) == Later(i, First(f[i..], str))
        decreases posE - pos
      {
        var hit, payload, newPos := Compare(pos, posE, str, f[i..]);
        assert f[i..][1..] == f[i + 1..];
        FirstStep(f, i, str);
        PrefixSize(f, i);
        if hit {
          return payload, newPos;
        }
        pos := newPos;
        i := i + 1;
      }
      EmptySpan(v, pos, posE, f[i..]);
      FirstStep(f, i, str);
      return posE, posE;
    }

    /** `_get`: the stored value of the first option with that name, if it is not empty. */
    method Get(name: seq<byte>, ghost f: seq<Node>) returns (r: Option<seq<byte>>)
      requires Stores(f) && NulFree(name)
      ensures r.Some? <==> exists i :: IsFirst(f, name, i) && f[i].value.Some? && f[i].value.value != []
      ensures forall i :: IsFirst(f, name, i) && r.Some? ==> r == f[i].value
    {
      FirstIsFirst(f, name);
      var b, e := Find(0, |v|, name, f);
      ghost var first := First(f, name);
      if first.Some? {
        CanonicalAt(f, first.value, NulFree);
        ReadValue(v, b, e, f[first.value]);
      }
      if b == e || v[b] == 0 {
        return None;
      }
      return Some(CString(v, b));
    }

    /** One record of the walk: its line, where its children start, and where it ends. */
    method Visit(pos: nat, back: nat, indent: nat, ghost f: seq<Node>) returns (line: Line, inner: nat, end: nat)
      requires Level(v, pos, back, f) && pos < back
      ensures f != [] && line == Line(indent, f[0].name, f[0].value)
      ensures pos < end <= back && end == pos + RecordSize(f[0])
      ensures pos < inner <= end && inner == end - |Encode(f[0].children)|
    {
      hide Encode, Canonical, Level, Payload, ReadLe32, Strlen, CString;
      ReadRecord(v, pos, back, f);
      var len, at := ReadLen(pos);
      end := pos + len;
      var name := CString(v, at);
      var pos2 := at + Strlen(v, at) + 1;
      if pos2 < end {
        line := Line(indent, name, Some(CString(v, pos2)));
        inner := pos2 + Strlen(v, pos2) + 1;
      } else {
        line := Line(indent, name, None);
        inner := pos2;
      }
    }

    /** `dump`: the lines it prints, in order. Each record is visited once, in preorder, with the
        height of the position stack as indentation. */
    method Dump(ghost f: seq<Node>) returns (lines: seq<Line>)
      requires Stores(f)
      ensures lines == Preorder(f, 2)
      ensures Rebuild(lines, 2) == (f, [])
    {
      hide Encode, Canonical, Preorder, Rebuild, Spans, ToCome, Descend, Level, Payload;
      lines := [];
      var pos := 0;
      var vsize := |v|;
      var posStack: seq<nat> := [vsize];
      ghost var todo := [f];
      OneSpan(v, f);
      LinesOfLevel([f]);
      while posStack != []
        invariant Spans(v, pos, posStack, todo) && vsize == |v| && pos <= |v|
        invariant lines + ToCome(todo) == Preorder(f, 2)
        decreases |v| - pos, |posStack|
      {
        TopLevel(v, pos, posStack, todo);
        var back := posStack[|posStack| - 1];
        if pos < back {
          var line, inner, end := Visit(pos, back, |posStack| + 1, todo[|todo| - 1]);
          OpenRecord(v, pos, posStack, todo);
          LinesOfRecord(todo);
          Regroup(lines, [line], ToCome(Descend(todo)));
          lines := lines + [line];
          posStack := posStack + [if end < vsize then end else vsize];
          todo := Descend(todo);
          pos := inner;
        } else {
          PopSpan(v, pos, posStack, todo);
          LinesOfLevel(todo);
          posStack, todo := posStack[..|posStack| - 1], todo[..|todo| - 1];
        }
      }
      TopLevel(v, pos, posStack, todo);
      LinesOfLevel(todo);
      assert lines + [] == lines;
      RebuildInverts(f, 2, []);
    }
  }

  /** Print a canonical forest, compile the text, walk the bytes, rebuild: the same forest. */
  method ThereAndBack(f: seq<Node>) returns (r: seq<Node>)
    requires Canonical(f, Quotable) && Small(f)
    ensures r == f
  {
    var text := Print(f);
    PrintedDenotes(f);
    PrintedNulFree(f);
    var config := new ImmutableConfig();
    var parsed := config.Parse(text);
    var lines := config.Dump(f);
    r := Rebuild(lines, 2).0;
  }
}
