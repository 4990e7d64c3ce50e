/**
 * Printing a forest as quoted text and reading it back. `a ""` and `a {}` denote the same
 * option, so a forest is canonical when an option has children only under an empty value.
 */
module ConfigRoundTrip {
  import opened Bytes
  import opened Sequences
  import opened Wrappers
  import opened ConfigGrammar

  /** No NUL: such a string survives being stored with a terminator. */
  predicate NulFree(s: seq<byte>) {
    0 !in s
  }

  /** No NUL and no quote: such a string can be written between quotes. */
  predicate Quotable(s: seq<byte>) {
    NulFree(s) && QUOTE !in s
  }

  ghost predicate Canonical(f: seq<Node>, text: seq<byte> -> bool) {
    f != [] ==>
      && text(f[0].name)
      && (f[0].value.Some? ==> text(f[0].value.value))
      && (f[0].children != [] ==> f[0].value == Some([]))
      && Canonical(f[0].children, text)
      && Canonical(f[1..], text)
  }

  function QuotedText(s: seq<byte>): seq<byte> {
    [QUOTE] + s + [QUOTE]
  }

  function Print(f: seq<Node>): seq<byte> {
    if f == [] then []
    else PrintNode(f[0].name, f[0].value, f[0].children == [], Print(f[0].children)) + Print(f[1..])
  }

  function PrintNode(name: seq<byte>, value: Option<seq<byte>>, leaf: bool, inner: seq<byte>): seq<byte> {
    if !leaf then QuotedText(name) + [OPEN_BRACE] + inner + [CLOSE_BRACE]
    else if value.None? then QuotedText(name) + [SEMICOLON]
    else QuotedText(name) + [SPACE] + QuotedText(value.value) + [SEMICOLON]
  }

  function Tokens(f: seq<Node>): seq<Token> {
    if f == [] then []
    else NodeTokens(f[0].name, f[0].value, f[0].children == [], Tokens(f[0].children)) + Tokens(f[1..])
  }

  function NodeTokens(name: seq<byte>, value: Option<seq<byte>>, leaf: bool, inner: seq<Token>): seq<Token> {
    if !leaf then [Str(name), Open] + inner + [Close]
    else if value.None? then [Str(name), End]
    else [Str(name), Str(value.value), End]
  }

  lemma {:induction false} LexInsideQuotes(acc: seq<byte>, s: seq<byte>, rest: seq<byte>)
    requires QUOTE !in s
    ensures Lex(Quoted(acc), s + [QUOTE] + rest) == [Str(acc + s)] + Lex(Outside, rest)
    decreases |s|
  {
    if s == [] {
      assert (s + [QUOTE] + rest)[1..] == rest && acc + s == acc;
    } else {
      assert (s + [QUOTE] + rest)[1..] == s[1..] + [QUOTE] + rest;
      LexInsideQuotes(acc + [s[0]], s[1..], rest);
      assert acc + [s[0]] + s[1..] == acc + s;
    }
  }

  lemma LexQuoted(s: seq<byte>, rest: seq<byte>)
    requires QUOTE !in s
    ensures Lex(Outside, QuotedText(s) + rest) == [Str(s)] + Lex(Outside, rest)
  {
    LexInsideQuotes([], s, rest);
    assert (QuotedText(s) + rest)[1..] == s + [QUOTE] + rest;
    assert [] + s == s;
  }

  lemma LexOne(c: byte, rest: seq<byte>)
    requires c == OPEN_BRACE || c == CLOSE_BRACE || c == SEMICOLON || c == SPACE
    ensures Lex(Outside, [c] + rest) ==
            (if c == OPEN_BRACE then [Open]
             else if c == CLOSE_BRACE then [Close]
             else if c == SEMICOLON then [End]
             else [])
            + Lex(Outside, rest)
  {
    assert ([c] + rest)[1..] == rest;
  }

  lemma LeafText(name: seq<byte>, value: Option<seq<byte>>, tail: seq<byte>)
    ensures PrintNode(name, value, true, []) + tail ==
            if value.None? then QuotedText(name) + ([SEMICOLON] + tail)
            else QuotedText(name) + ([SPACE] + (QuotedText(value.value) + ([SEMICOLON] + tail)))
  {
    if value.Some? {
      assert PrintNode(name, value, true, []) == QuotedText(name) + ([SPACE] + (QuotedText(value.value) + [SEMICOLON]));
    }
  }

  lemma BlockText(name: seq<byte>, inner: seq<byte>, tail: seq<byte>)
    ensures PrintNode(name, Some([]), false, inner) + tail
            == QuotedText(name) + ([OPEN_BRACE] + (inner + ([CLOSE_BRACE] + tail)))
  {
    assert PrintNode(name, Some([]), false, inner) == QuotedText(name) + ([OPEN_BRACE] + (inner + [CLOSE_BRACE]));
  }

  lemma LeafTokens(name: seq<byte>, value: Option<seq<byte>>, rest: seq<Token>)
    ensures NodeTokens(name, value, true, []) + rest ==
            if value.None? then [Str(name)] + ([End] + rest)
            else [Str(name)] + ([Str(value.value)] + ([End] + rest))
  {
  }

  lemma BlockTokens(name: seq<byte>, inner: seq<Token>, rest: seq<Token>)
    ensures NodeTokens(name, Some([]), false, inner) + rest
            == [Str(name)] + ([Open] + (inner + ([Close] + rest)))
  {
  }

  lemma LexLeaf(name: seq<byte>, value: Option<seq<byte>>, tail: seq<byte>)
    requires Quotable(name) && (value.Some? ==> Quotable(value.value))
    ensures Lex(Outside, PrintNode(name, value, true, []) + tail)
            == NodeTokens(name, value, true, []) + Lex(Outside, tail)
  {
    LeafText(name, value, tail);
    LeafTokens(name, value, Lex(Outside, tail));
    LexOne(SEMICOLON, tail);
    if value.None? {
      LexQuoted(name, [SEMICOLON] + tail);
    } else {
      var second := QuotedText(value.value) + ([SEMICOLON] + tail);
      LexQuoted(value.value, [SEMICOLON] + tail);
      LexOne(SPACE, second);
      assert [] + Lex(Outside, second) == Lex(Outside, second);
      LexQuoted(name, [SPACE] + second);
    }
  }

  lemma LexBlock(name: seq<byte>, inner: seq<byte>, tokens: seq<Token>, tail: seq<byte>)
    requires Quotable(name)
    requires Lex(Outside, inner + ([CLOSE_BRACE] + tail)) == tokens + Lex(Outside, [CLOSE_BRACE] + tail)
    ensures Lex(Outside, PrintNode(name, Some([]), false, inner) + tail)
            == NodeTokens(name, Some([]), false, tokens) + Lex(Outside, tail)
  {
    var inside := inner + ([CLOSE_BRACE] + tail);
    BlockText(name, inner, tail);
    BlockTokens(name, tokens, Lex(Outside, tail));
    LexQuoted(name, [OPEN_BRACE] + inside);
    LexOne(OPEN_BRACE, inside);
    LexOne(CLOSE_BRACE, tail);
  }

  lemma {:induction false} LexPrinted(f: seq<Node>, rest: seq<byte>)
    requires Canonical(f, Quotable)
    ensures Lex(Outside, Print(f) + rest) == Tokens(f) + Lex(Outside, rest)
    decreases f
  {
    if f == [] {
      assert Print(f) + rest == rest && Tokens(f) + Lex(Outside, rest) == Lex(Outside, rest);
    } else {
      LexFirst(f, rest);
      LexPrinted(f[1..], rest);
      var n := f[0];
      Regroup(NodeTokens(n.name, n.value, n.children == [], Tokens(n.children)), Tokens(f[1..]), Lex(Outside, rest));
    }
  }

  lemma {:induction false} LexFirst(f: seq<Node>, rest: seq<byte>)
    requires f != [] && Canonical(f, Quotable)
    ensures var n := f[0];
            Lex(Outside, Print(f) + rest)
            == NodeTokens(n.name, n.value, n.children == [], Tokens(n.children)) + Lex(Outside, Print(f[1..]) + rest)
    decreases f, 0
  {
    var n := f[0];
    var tail := Print(f[1..]) + rest;
    Regroup(PrintNode(n.name, n.value, n.children == [], Print(n.children)), Print(f[1..]), rest);
    if n.children == [] {
      LexLeaf(n.name, n.value, tail);
    } else {
      LexPrinted(n.children, [CLOSE_BRACE] + tail);
      LexBlock(n.name, Print(n.children), Tokens(n.children), tail);
    }
  }

  lemma OptionsOfLeaf(name: seq<byte>, value: Option<seq<byte>>, tail: seq<Token>)
    ensures Options(NodeTokens(name, value, true, []) + tail) == Prepend(Node(name, value, []), Options(tail))
  {
    var ts := NodeTokens(name, value, true, []) + tail;
    if value.None? {
      assert ts == [Str(name), End] + tail && ts[1..] == [End] + tail && Run(ts) == 1;
      assert Strings(ts[..1]) == [name] && ([End] + tail)[1..] == tail;
    } else {
      assert ts == [Str(name), Str(value.value), End] + tail;
      assert ts[1..][1..] == [End] + tail && ts[2..] == [End] + tail && Run(ts[1..]) == 1;
      assert Strings(ts[..2]) == [name, value.value] && [name, value.value][1..] == [value.value];
      assert ([End] + tail)[1..] == tail;
    }
  }

  lemma OptionsOfBlock(name: seq<byte>, children: seq<Node>, tokens: seq<Token>, tail: seq<Token>)
    requires Options(tokens + ([Close] + tail)) == Ok((children, [Close] + tail))
    ensures Options(NodeTokens(name, Some([]), false, tokens) + tail)
            == Prepend(Node(name, Some([]), children), Options(tail))
  {
    var ts := NodeTokens(name, Some([]), false, tokens) + tail;
    BlockTokens(name, tokens, tail);
    assert ts[1..] == [Open] + (tokens + ([Close] + tail));
    assert ts[1..][1..] == tokens + ([Close] + tail);
    assert ([Close] + tail)[1..] == tail;
    assert Run(ts) == 1;
  }

  lemma {:induction false} OptionsOfTokens(f: seq<Node>, rest: seq<Token>)
    requires Canonical(f, Quotable) && (rest == [] || rest[0].Close?)
    ensures Options(Tokens(f) + rest) == Ok((f, rest))
    decreases f
  {
    if f == [] {
      assert Tokens(f) + rest == rest;
    } else {
      OptionsOfTokens(f[1..], rest);
      if f[0].children != [] {
        OptionsOfTokens(f[0].children, [Close] + (Tokens(f[1..]) + rest));
      }
      OptionsOfFirst(f, rest);
    }
  }

  lemma TokensFirst(f: seq<Node>, rest: seq<Token>)
    requires f != []
    ensures Tokens(f) + rest == NodeTokens(f[0].name, f[0].value, f[0].children == [], Tokens(f[0].children))
                                + (Tokens(f[1..]) + rest)
    ensures f[0].children == [] ==> Tokens(f[0].children) == []
  {
    hide NodeTokens;
  }

  lemma OptionsOfFirst(f: seq<Node>, rest: seq<Token>)
    requires f != [] && (f[0].children != [] ==> f[0].value == Some([]))
    requires Options(Tokens(f[1..]) + rest) == Ok((f[1..], rest))
    requires var tail := [Close] + (Tokens(f[1..]) + rest);
             f[0].children != [] ==> Options(Tokens(f[0].children) + tail) == Ok((f[0].children, tail))
    ensures Options(Tokens(f) + rest) == Ok((f, rest))
  {
    hide Options, Tokens, NodeTokens;
    var n := f[0];
    var tail := Tokens(f[1..]) + rest;
    TokensFirst(f, rest);
    if n.children == [] {
      OptionsOfLeaf(n.name, n.value, tail);
    } else {
      OptionsOfBlock(n.name, n.children, Tokens(n.children), tail);
    }
    assert [n] + f[1..] == f;
  }

  /** Printing a canonical forest and reading the text gives the forest back. */
  lemma PrintedDenotes(f: seq<Node>)
    requires Canonical(f, Quotable)
    ensures Denotes(Print(f)) == Ok(f)
  {
    LexPrinted(f, []);
    OptionsOfTokens(f, []);
    assert Print(f) + [] == Print(f) && Tokens(f) + [] == Tokens(f);
  }

  lemma {:induction false} PrintedNulFree(f: seq<Node>)
    requires Canonical(f, Quotable)
    ensures NulFree(Print(f))
    decreases f
  {
    if f != [] {
      PrintedNulFree(f[0].children);
      PrintedNulFree(f[1..]);
    }
  }

  // ---------------------------------------------------------------- every result is canonical

  predicate TokensNulFree(ts: seq<Token>) {
    forall i :: 0 <= i < |ts| && ts[i].Str? ==> NulFree(ts[i].s)
  }

  lemma {:induction false} LexNulFree(lex: Lexing, text: seq<byte>)
    requires NulFree(text) && (!lex.Outside? ==> NulFree(lex.acc))
    ensures TokensNulFree(Lex(lex, text))
    decreases |text|, if lex.Outside? then 0 else 1
  {
    if text != [] {
      var c, rest := text[0], text[1..];
      match lex
      case Outside =>
        if c == QUOTE {
          LexNulFree(Quoted([]), rest);
        } else if StartsBare(c) {
          LexNulFree(Bare([c]), rest);
        } else {
          LexNulFree(Outside, rest);
        }
      case Bare(acc) =>
        if EndsBare(c) {
          LexNulFree(Outside, text);
        } else if Blank(c) {
          LexNulFree(Outside, rest);
        } else {
          LexNulFree(Bare(acc + [c]), rest);
        }
      case Quoted(acc) =>
        if c == QUOTE {
          LexNulFree(Outside, rest);
        } else {
          LexNulFree(Quoted(acc + [c]), rest);
        }
    }
  }

  lemma {:induction false} JoinNulFree(ss: seq<seq<byte>>)
    requires |ss| > 0 && forall i :: 0 <= i < |ss| ==> NulFree(ss[i])
    ensures NulFree(Join(ss))
    decreases |ss|
  {
    if |ss| > 1 {
      JoinNulFree(ss[..|ss| - 1]);
    }
  }

  lemma {:induction false} OptionsCanonical(ts: seq<Token>)
    requires TokensNulFree(ts) && Options(ts).Ok?
    ensures Canonical(Options(ts).value.0, NulFree) && TokensNulFree(Options(ts).value.1)
    decreases |ts|
  {
    if ts == [] || ts[0].Close? {
    } else if ts[0].End? {
      OptionsCanonical(ts[1..]);
    } else {
      var n := Run(ts);
      var rest := ts[n..];
      if rest != [] && rest[0].Open? {
        OptionsCanonical(rest[1..]);
        var (block, after) := Options(rest[1..]).value;
        OptionsCanonical(after[1..]);
        PrependCanonical(Node(ts[0].s, Some([]), block), Options(after[1..]).value.0);
      } else {
        var strs := Strings(ts[..n]);
        if n > 1 {
          JoinNulFree(strs[1..]);
        }
        OptionsCanonical(rest);
        PrependCanonical(Leaf(strs), Options(rest).value.0);
      }
    }
  }

  lemma PrependCanonical(n: Node, f: seq<Node>)
    requires NulFree(n.name) && (n.value.Some? ==> NulFree(n.value.value))
    requires (n.children != [] ==> n.value == Some([])) && Canonical(n.children, NulFree) && Canonical(f, NulFree)
    ensures Canonical([n] + f, NulFree)
  {
    assert ([n] + f)[1..] == f;
  }

  /** Every forest a NUL-terminated text denotes is canonical, with NUL-free strings. */
  lemma DenotesCanonical(text: seq<byte>)
    requires NulFree(text) && Denotes(text).Ok?
    ensures Canonical(Denotes(text).value, NulFree)
  {
    LexNulFree(Outside, text);
    OptionsCanonical(Lex(Outside, text));
  }
}
