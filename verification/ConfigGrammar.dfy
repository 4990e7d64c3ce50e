/**
 * The language of configuration texts (config.h): tokens, the forest a text denotes given by a
 * recursive grammar, and when a text has none.
 *
 * An option is one or more strings; the first is its name, the others are its value, joined by
 * single spaces. An option of exactly one string may be followed by a brace block of options.
 */
module ConfigGrammar {
  import opened Bytes
  import opened Wrappers

  const QUOTE: byte := 34
  const NEWLINE: byte := 10
  const TAB: byte := 9
  const SPACE: byte := 32
  const COLON: byte := 58
  const SEMICOLON: byte := 59
  const OPEN_BRACE: byte := 123
  const CLOSE_BRACE: byte := 125

  /** `value` is absent for an option of one string without a block. */
  datatype Node = Node(name: seq<byte>, value: Option<seq<byte>>, children: seq<Node>)

  datatype Token = Str(s: seq<byte>) | Open | Close | End

  datatype ErrorKind = InvalidStringCount | UnmatchingClose | LackingClose

  // ---------------------------------------------------------------- tokens

  /** Where the scanner is: between strings, or inside one of which `acc` has been read. */
  datatype Lexing = Outside | Bare(acc: seq<byte>) | Quoted(acc: seq<byte>)

  /** Characters that end a bare string and are read again as themselves. */
  predicate EndsBare(c: byte) {
    c == OPEN_BRACE || c == CLOSE_BRACE || c == SEMICOLON || c == NEWLINE || c == QUOTE
  }

  predicate Blank(c: byte) {
    c == TAB || c == SPACE
  }

  /** Characters with a meaning between strings; a colon is one only there. */
  predicate StartsBare(c: byte) {
    !EndsBare(c) && !Blank(c) && c != COLON
  }

  /** The tokens of `text` for a scanner in state `lex`. */
  function Lex(lex: Lexing, text: seq<byte>): seq<Token>
    decreases |text|, if lex.Outside? then 0 else 1
  {
    if text == [] then
      if lex.Outside? then [] else [Str(lex.acc)]
    else
      var c, rest := text[0], text[1..];
      match lex
      case Outside =>
        if c == OPEN_BRACE then [Open] + Lex(Outside, rest)
        else if c == CLOSE_BRACE then [Close] + Lex(Outside, rest)
        else if c == SEMICOLON || c == NEWLINE then [End] + Lex(Outside, rest)
        else if c == QUOTE then Lex(Quoted([]), rest)
        else if StartsBare(c) then Lex(Bare([c]), rest)
        else Lex(Outside, rest)
      case Bare(acc) =>
        if EndsBare(c) then [Str(acc)] + Lex(Outside, text)
        else if Blank(c) then [Str(acc)] + Lex(Outside, rest)
        else Lex(Bare(acc + [c]), rest)
      case Quoted(acc) =>
        if c == QUOTE then [Str(acc)] + Lex(Outside, rest)
        else Lex(Quoted(acc + [c]), rest)
  }

  // ---------------------------------------------------------------- the recursive grammar

  /** Number of strings at the front. */
  function Run(ts: seq<Token>): (n: nat)
    ensures n <= |ts|
    ensures forall i :: 0 <= i < n ==> ts[i].Str?
    ensures n < |ts| ==> !ts[n].Str?
  {
    if ts != [] && ts[0].Str? then 1 + Run(ts[1..]) else 0
  }

  function Strings(ts: seq<Token>): (r: seq<seq<byte>>)
    requires forall i :: 0 <= i < |ts| ==> ts[i].Str?
    ensures |r| == |ts|
  {
    seq(|ts|, i requires 0 <= i < |ts| => ts[i].s)
  }

  function Join(ss: seq<seq<byte>>): seq<byte>
    requires |ss| > 0
  {
    if |ss| == 1 then ss[0] else Join(ss[..|ss| - 1]) + [SPACE] + ss[|ss| - 1]
  }

  /** The option written as the given strings, without a block. */
  function Leaf(ss: seq<seq<byte>>): Node
    requires |ss| > 0
  {
    Node(ss[0], if |ss| == 1 then None else Some(Join(ss[1..])), [])
  }

  /** The options up to a closing brace or the end, and what follows them. */
  function Options(ts: seq<Token>): (r: Result<(seq<Node>, seq<Token>), ErrorKind>)
    ensures r.Ok? ==> |r.value.1| <= |ts| && (r.value.1 == [] || r.value.1[0].Close?)
    decreases |ts|
  {
    if ts == [] || ts[0].Close? then Ok(([], ts))
    else if ts[0].End? then Options(ts[1..])
    else if ts[0].Open? then Err(InvalidStringCount)
    else
      var n := Run(ts);
      var rest := ts[n..];
      if rest != [] && rest[0].Open? then
        if n != 1 then Err(InvalidStringCount)
        else
          match Options(rest[1..])
          case Err(e) => Err(e)
          case Ok((block, after)) =>
            if after == [] then Err(LackingClose)
            else Prepend(Node(ts[0].s, Some([]), block), Options(after[1..]))
      else
        Prepend(Leaf(Strings(ts[..n])), Options(rest))
  }

  function Prepend(node: Node, r: Result<(seq<Node>, seq<Token>), ErrorKind>)
    : Result<(seq<Node>, seq<Token>), ErrorKind>
  {
    match r
    case Err(e) => Err(e)
    case Ok((nodes, rest)) => Ok(([node] + nodes, rest))
  }

  function Document(ts: seq<Token>): Result<seq<Node>, ErrorKind> {
    match Options(ts)
    case Err(e) => Err(e)
    case Ok((nodes, rest)) => if rest == [] then Ok(nodes) else Err(UnmatchingClose)
  }

  /** The forest that a text denotes. */
  function Denotes(text: seq<byte>): Result<seq<Node>, ErrorKind> {
    Document(Lex(Outside, text))
  }

  // ---------------------------------------------------------------- one pass over the tokens

  /** An open block: the options finished before it at its level, and its name. */
  datatype Frame = Frame(done: seq<Node>, name: seq<byte>)

  /** What has been read: the open blocks from the outside in, the finished options of the
      innermost one, and the strings of the option being read. */
  datatype Zip = Zip(frames: seq<Frame>, done: seq<Node>, strs: seq<seq<byte>>)

  function Flush(z: Zip): Zip {
    if z.strs == [] then z else Zip(z.frames, z.done + [Leaf(z.strs)], [])
  }

  function Shift(z: Zip, t: Token): Result<Zip, ErrorKind> {
    match t
    case Str(s) => Ok(z.(strs := z.strs + [s]))
    case End => Ok(Flush(z))
    case Open =>
      if |z.strs| != 1 then Err(InvalidStringCount)
      else Ok(Zip(z.frames + [Frame(z.done, z.strs[0])], [], []))
    case Close =>
      if z.frames == [] then Err(UnmatchingClose)
      else
        var f := z.frames[|z.frames| - 1];
        Ok(Zip(z.frames[..|z.frames| - 1], f.done + [Node(f.name, Some([]), Flush(z).done)], []))
  }

  function Finish(z: Zip): Result<seq<Node>, ErrorKind> {
    if z.frames != [] then Err(LackingClose) else Ok(Flush(z).done)
  }

  function Pass(z: Zip, ts: seq<Token>): Result<seq<Node>, ErrorKind>
    decreases |ts|
  {
    if ts == [] then Finish(z)
    else match Shift(z, ts[0])
      case Err(e) => Err(e)
      case Ok(z1) => Pass(z1, ts[1..])
  }

  const START := Zip([], [], [])

  lemma {:induction false} PassStrings(z: Zip, ts: seq<Token>, n: nat)
    requires n <= |ts| && forall i :: 0 <= i < n ==> ts[i].Str?
    ensures Pass(z, ts) == Pass(z.(strs := z.strs + Strings(ts[..n])), ts[n..])
    decreases n
  {
    if n == 0 {
      assert z.strs + Strings(ts[..0]) == z.strs;
    } else {
      var z1 := z.(strs := z.strs + [ts[0].s]);
      PassStrings(z1, ts[1..], n - 1);
      assert z1.strs + Strings(ts[1..][..n - 1]) == z.strs + Strings(ts[..n]);
      assert ts[1..][n - 1..] == ts[n..];
    }
  }

  /** The one-pass reading agrees with the recursive grammar at every nesting depth. */
  lemma {:induction false} PassIsOptions(frames: seq<Frame>, done: seq<Node>, ts: seq<Token>)
    ensures Pass(Zip(frames, done, []), ts) ==
            match Options(ts)
            case Err(e) => Err(e)
            case Ok((nodes, rest)) => Pass(Zip(frames, done + nodes, []), rest)
    decreases |ts|
  {
    if ts == [] || ts[0].Close? {
      assert done + [] == done;
    } else if ts[0].End? {
      PassIsOptions(frames, done, ts[1..]);
    } else if ts[0].Str? {
      var n := Run(ts);
      var rest, strs := ts[n..], Strings(ts[..n]);
      PassStrings(Zip(frames, done, []), ts, n);
      assert [] + strs == strs;
      if rest != [] && rest[0].Open? {
        if n == 1 {
          PassBlock(frames, done, ts, rest);
        }
      } else {
        assert Pass(Zip(frames, done, strs), rest) == Pass(Zip(frames, done + [Leaf(strs)], []), rest);
        PassIsOptions(frames, done + [Leaf(strs)], rest);
        DoneAppend(done, Leaf(strs), Options(rest));
      }
    }
  }

  /** Finished options are kept in front, whatever follows. */
  lemma DoneAppend(done: seq<Node>, node: Node, r: Result<(seq<Node>, seq<Token>), ErrorKind>)
    ensures r.Ok? ==> done + [node] + r.value.0 == done + Prepend(node, r).value.0
  {
  }

  lemma {:induction false} PassBlock(frames: seq<Frame>, done: seq<Node>, ts: seq<Token>, rest: seq<Token>)
    requires |ts| > 1 && ts[0].Str? && ts[1].Open? && rest == ts[1..]
    ensures Pass(Zip(frames, done, [ts[0].s]), rest) ==
            match Options(ts)
            case Err(e) => Err(e)
            case Ok((nodes, after)) => Pass(Zip(frames, done + nodes, []), after)
    decreases |rest|
  {
    assert Run(ts) == 1;
    var inner := frames + [Frame(done, ts[0].s)];
    PassIsOptions(inner, [], rest[1..]);
    match Options(rest[1..])
    case Err(_) =>
    case Ok((block, after)) =>
      assert [] + block == block;
      if after != [] {
        var node := Node(ts[0].s, Some([]), block);
        assert inner[..|inner| - 1] == frames;
        PassIsOptions(frames, done + [node], after[1..]);
        DoneAppend(done, node, Options(after[1..]));
      }
  }

  lemma PassIsDocument(ts: seq<Token>)
    ensures Pass(START, ts) == Document(ts)
  {
    PassIsOptions([], [], ts);
    if Options(ts).Ok? {
      assert [] + Options(ts).value.0 == Options(ts).value.0;
    }
  }

  // ---------------------------------------------------------------- when there is no forest

  /** Number of strings immediately before position `i`. */
  function StringsBefore(ts: seq<Token>, i: nat): nat
    requires i <= |ts|
  {
    if i > 0 && ts[i - 1].Str? then 1 + StringsBefore(ts, i - 1) else 0
  }

  /** Opening minus closing braces before position `i`. */
  function Depth(ts: seq<Token>, i: nat): int
    requires i <= |ts|
  {
    if i == 0 then 0
    else Depth(ts, i - 1) + (if ts[i - 1].Open? then 1 else if ts[i - 1].Close? then -1 else 0)
  }

  /** No closing brace without its opening one, and none missing at the end. */
  ghost predicate Balanced(ts: seq<Token>, from: nat := 0)
    requires from <= |ts|
  {
    Depth(ts, |ts|) == 0 && forall i: nat :: from <= i <= |ts| ==> Depth(ts, i) >= 0
  }

  /** Every block follows exactly one string of its option. */
  ghost predicate BlocksNamed(ts: seq<Token>, from: nat := 0)
    requires from <= |ts|
  {
    forall i: nat :: from <= i < |ts| && ts[i].Open? ==> StringsBefore(ts, i) == 1
  }

  lemma {:induction false} PassSucceeds(z: Zip, ts: seq<Token>, i: nat)
    requires i <= |ts| && |z.frames| == Depth(ts, i) && |z.strs| == StringsBefore(ts, i)
    ensures Pass(z, ts[i..]).Ok? <==> Balanced(ts, i) && BlocksNamed(ts, i)
    decreases |ts| - i
  {
    if i < |ts| {
      assert ts[i..][0] == ts[i] && ts[i..][1..] == ts[i + 1..];
      match Shift(z, ts[i])
      case Ok(z1) => PassSucceeds(z1, ts, i + 1);
      case Err(_) =>
        if ts[i].Close? {
          assert Depth(ts, i + 1) < 0;
        }
    }
  }

  /** A text has no forest exactly when its braces do not balance or some block does not follow
      exactly one string of its option. */
  lemma NoForestExactlyWhen(text: seq<byte>)
    ensures Denotes(text).Err? <==>
            var ts := Lex(Outside, text); !Balanced(ts) || !BlocksNamed(ts)
  {
    var ts := Lex(Outside, text);
    PassIsDocument(ts);
    PassSucceeds(START, ts, 0);
    assert ts[0..] == ts;
  }

  /** Token `i` is the one at which the text cannot go on. */
  predicate Fault(ts: seq<Token>, i: nat)
    requires i < |ts|
  {
    (ts[i].Open? && StringsBefore(ts, i) != 1) || (ts[i].Close? && Depth(ts, i) <= 0)
  }

  /** The first fault from `i` on is at `j`, where `j == |ts|` means that there is none. */
  ghost predicate FirstFault(ts: seq<Token>, i: nat, j: nat) {
    i <= j <= |ts| && (forall m: nat :: i <= m < j ==> !Fault(ts, m)) && (j < |ts| ==> Fault(ts, j))
  }

  function FaultError(ts: seq<Token>, j: nat): ErrorKind
    requires j <= |ts|
  {
    if j == |ts| then LackingClose else if ts[j].Open? then InvalidStringCount else UnmatchingClose
  }

  lemma {:induction false} PassBlames(z: Zip, ts: seq<Token>, i: nat) returns (j: nat)
    requires i <= |ts| && |z.frames| == Depth(ts, i) && |z.strs| == StringsBefore(ts, i)
    ensures FirstFault(ts, i, j) && (Pass(z, ts[i..]).Err? ==> Pass(z, ts[i..]).error == FaultError(ts, j))
    ensures Pass(z, ts[i..]).Err? <==> j < |ts| || Depth(ts, |ts|) != 0
    decreases |ts| - i
  {
    j := i;
    if i < |ts| {
      assert ts[i..][0] == ts[i] && ts[i..][1..] == ts[i + 1..];
      match Shift(z, ts[i])
      case Ok(z1) => j := PassBlames(z1, ts, i + 1);
      case Err(_) =>
    }
  }

  /** The error tells what is wrong first: a block whose option has not just one string, a closing brace
      too many, or at the end one too few. */
  lemma ErrorTellsFirstFault(text: seq<byte>) returns (j: nat)
    ensures var ts := Lex(Outside, text);
            && FirstFault(ts, 0, j)
            && (Denotes(text).Err? ==> Denotes(text).error == FaultError(ts, j))
            && (Denotes(text).Err? <==> j < |ts| || Depth(ts, |ts|) != 0)
  {
    var ts := Lex(Outside, text);
    PassIsDocument(ts);
    j := PassBlames(START, ts, 0);
    assert ts[0..] == ts;
  }
}
