/**
 * What configuration texts look like (config.h), character by character and apart from the scanner:
 * words bare or quoted, blanks and colons between them, line ends and semicolons after options,
 * braces round blocks. Every such text denotes the forest that can be read off its layout.
 */
module ConfigLayout {
  import opened Bytes
  import opened Sequences
  import opened Wrappers
  import opened ConfigGrammar

  /** A word, and what stands between the one before it and itself. */
  datatype Word = Word(gap: seq<byte>, quoted: bool, text: seq<byte>)

  /** An option: its words up to the end of the line, or its name and a block. */
  datatype Laid =
    | Line(lead: seq<byte>, words: seq<Word>, trail: seq<byte>, stop: seq<byte>)
    | Block(lead: seq<byte>, name: Word, gap: seq<byte>, inner: seq<Laid>, close: seq<byte>)

  // ---------------------------------------------------------------- the characters

  /** Tabs, spaces and colons. */
  predicate Gap(g: seq<byte>) {
    forall i :: 0 <= i < |g| ==> g[i] == 9 || g[i] == 32 || g[i] == 58
  }

  /** The same with line ends and semicolons. */
  predicate Breaks(g: seq<byte>) {
    forall i :: 0 <= i < |g| ==> g[i] == 9 || g[i] == 32 || g[i] == 58 || g[i] == 10 || g[i] == 59
  }

  /** Not a tab, space, brace, semicolon, line end or quote: characters that a bare word may have. */
  predicate Plain(c: byte) {
    c != 9 && c != 32 && c != 123 && c != 125 && c != 59 && c != 10 && c != 34
  }

  predicate Bare(text: seq<byte>) {
    text != [] && text[0] != 58 && forall i :: 0 <= i < |text| ==> Plain(text[i])
  }

  predicate WordOk(w: Word) {
    Gap(w.gap) && if w.quoted then 34 !in w.text else Bare(w.text)
  }

  function Spelled(w: Word): seq<byte> {
    w.gap + (if w.quoted then [34] + w.text + [34] else w.text)
  }

  /** A colon directly after a bare word would belong to it. */
  predicate After(w: Word, gap: seq<byte>) {
    w.quoted || gap == [] || gap[0] != 58
  }

  /** Two bare words need something between them. */
  predicate Apart(w: Word, next: Word) {
    After(w, next.gap) && (w.quoted || next.quoted || next.gap != [])
  }

  // ---------------------------------------------------------------- texts and their forests

  function WordsText(words: seq<Word>): seq<byte> {
    if words == [] then [] else Spelled(words[0]) + WordsText(words[1..])
  }

  function ItemText(item: Laid): seq<byte> {
    match item
    case Line(lead, words, trail, stop) => lead + WordsText(words) + trail + stop
    case Block(lead, name, gap, inner, close) => lead + Spelled(name) + gap + [123] + Text(inner) + close + [125]
  }

  function Text(items: seq<Laid>): seq<byte> {
    if items == [] then [] else ItemText(items[0]) + Text(items[1..])
  }

  /** The words with one space between any two. */
  function Spaced(words: seq<Word>): seq<byte>
    requires words != []
  {
    if |words| == 1 then words[0].text else words[0].text + [32] + Spaced(words[1..])
  }

  /** The forest: the first word is the name, the others are the value. */
  function Tree(items: seq<Laid>): seq<Node>
    requires WellLaid(items)
  {
    if items == [] then []
    else
      [match items[0]
       case Line(_, words, _, _) => Node(words[0].text, if |words| == 1 then None else Some(Spaced(words[1..])), [])
       case Block(_, name, _, inner, _) => Node(name.text, Some([]), Tree(inner))]
      + Tree(items[1..])
  }

  predicate WordsOk(words: seq<Word>) {
    words == [] ||
    (WordOk(words[0]) && (|words| > 1 ==> Apart(words[0], words[1])) && WordsOk(words[1..]))
  }

  /** Only the last option of a block or a text may go without a semicolon or line end. */
  predicate OpenEnd(items: seq<Laid>) {
    items != [] && items[|items| - 1].Line? && items[|items| - 1].stop == []
  }

  predicate WellLaid(items: seq<Laid>) {
    items == [] ||
    (&& Breaks(items[0].lead)
     && (match items[0]
         case Line(_, words, trail, stop) =>
           && words != [] && WordsOk(words)
           && Gap(trail) && After(words[|words| - 1], trail)
           && (stop == [59] || stop == [10] || (stop == [] && |items| == 1))
         case Block(_, name, gap, inner, close) =>
           && WordOk(name) && Gap(gap) && After(name, gap)
           && WellLaid(inner) && Breaks(close) && (OpenEnd(inner) ==> close == []))
     && WellLaid(items[1..]))
  }

  // ---------------------------------------------------------------- the scanner on such a text

  /** What may follow a bare word. */
  predicate Stops(rest: seq<byte>) {
    rest == [] || !Plain(rest[0])
  }

  function Ends(g: seq<byte>): seq<Token> {
    if g == [] then [] else (if g[0] == 10 || g[0] == 59 then [End] else []) + Ends(g[1..])
  }

  lemma {:induction false} LexBreaks(g: seq<byte>, rest: seq<byte>)
    requires Breaks(g)
    ensures Lex(Outside, g + rest) == Ends(g) + Lex(Outside, rest)
    ensures Gap(g) ==> Ends(g) == []
    decreases |g|
  {
    if g == [] {
      assert g + rest == rest;
    } else {
      assert (g + rest)[1..] == g[1..] + rest;
      LexBreaks(g[1..], rest);
    }
  }

  lemma {:induction false} LexBare(acc: seq<byte>, text: seq<byte>, rest: seq<byte>)
    requires (forall i :: 0 <= i < |text| ==> Plain(text[i])) && Stops(rest)
    ensures Lex(Lexing.Bare(acc), text + rest) == [Str(acc + text)] + Lex(Outside, rest)
    decreases |text|
  {
    if text == [] {
      assert text + rest == rest && acc + text == acc;
    } else {
      assert (text + rest)[1..] == text[1..] + rest;
      assert acc + [text[0]] + text[1..] == acc + text;
      LexBare(acc + [text[0]], text[1..], rest);
    }
  }

  lemma {:induction false} LexQuote(acc: seq<byte>, text: seq<byte>, rest: seq<byte>)
    requires 34 !in text
    ensures Lex(Quoted(acc), text + [34] + rest) == [Str(acc + text)] + Lex(Outside, rest)
    decreases |text|
  {
    var all := text + [34] + rest;
    if text == [] {
      assert all[1..] == rest && acc + text == acc;
    } else {
      assert all[1..] == text[1..] + [34] + rest;
      assert acc + [text[0]] + text[1..] == acc + text;
      LexQuote(acc + [text[0]], text[1..], rest);
    }
  }

  lemma LexWord(w: Word, rest: seq<byte>)
    requires WordOk(w) && (w.quoted || Stops(rest))
    ensures Lex(Outside, Spelled(w) + rest) == [Str(w.text)] + Lex(Outside, rest)
  {
    var body := if w.quoted then [34] + w.text + [34] else w.text;
    Regroup(w.gap, body, rest);
    LexBreaks(w.gap, body + rest);
    if w.quoted {
      assert (body + rest)[1..] == w.text + [34] + rest;
      LexQuote([], w.text, rest);
    } else {
      assert (body + rest)[1..] == w.text[1..] + rest;
      assert [w.text[0]] + w.text[1..] == w.text;
      LexBare([w.text[0]], w.text[1..], rest);
    }
    assert [] + w.text == w.text;
  }

  function Strs(words: seq<Word>): (r: seq<Token>)
    ensures |r| == |words|
    ensures forall i :: 0 <= i < |r| ==> r[i] == Str(words[i].text)
  {
    seq(|words|, i requires 0 <= i < |words| => Str(words[i].text))
  }

  lemma StrsFirst(words: seq<Word>)
    requires words != []
    ensures Strs(words) == [Str(words[0].text)] + Strs(words[1..])
    ensures |words| == 1 ==> Strs(words) == [Str(words[0].text)]
  {
  }

  lemma {:induction false} LexWords(words: seq<Word>, rest: seq<byte>)
    requires words != [] && WordsOk(words) && (words[|words| - 1].quoted || Stops(rest))
    ensures Lex(Outside, WordsText(words) + rest) == Strs(words) + Lex(Outside, rest)
    decreases |words|
  {
    hide Lex, Spelled, WordOk, Apart, Stops, Strs;
    var more := words[1..];
    Regroup(Spelled(words[0]), WordsText(more), rest);
    StrsFirst(words);
    if |words| == 1 {
      assert WordsText(more) + rest == rest;
      LexWord(words[0], rest);
    } else {
      Regroup(Spelled(more[0]), WordsText(more[1..]), rest);
      SpelledStops(words[0], more[0], WordsText(more[1..]) + rest);
      LexWord(words[0], WordsText(more) + rest);
      LexWords(more, rest);
      Regroup([Str(words[0].text)], Strs(more), Lex(Outside, rest));
    }
  }

  lemma SpelledStops(w: Word, next: Word, rest: seq<byte>)
    requires Apart(w, next) && WordOk(next)
    ensures w.quoted || Stops(Spelled(next) + rest)
  {
  }

  function ItemTokens(item: Laid): seq<Token> {
    match item
    case Line(lead, words, _, stop) => Ends(lead) + (Strs(words) + Ends(stop))
    case Block(lead, name, _, inner, close) =>
      Ends(lead) + ([Str(name.text)] + ([Open] + (Tokens(inner) + (Ends(close) + [Close]))))
  }

  function Tokens(items: seq<Laid>): seq<Token> {
    if items == [] then [] else ItemTokens(items[0]) + Tokens(items[1..])
  }

  lemma LexOpen(rest: seq<byte>)
    ensures Lex(Outside, [123] + rest) == [Open] + Lex(Outside, rest)
    ensures Lex(Outside, [125] + rest) == [Close] + Lex(Outside, rest)
  {
    assert ([123] + rest)[1..] == rest && ([125] + rest)[1..] == rest;
  }

  lemma LexLine(lead: seq<byte>, words: seq<Word>, trail: seq<byte>, stop: seq<byte>, rest: seq<byte>)
    requires Breaks(lead) && words != [] && WordsOk(words) && Gap(trail) && After(words[|words| - 1], trail)
    requires stop == [59] || stop == [10] || (stop == [] && Stops(rest))
    ensures Lex(Outside, lead + WordsText(words) + trail + stop + rest)
            == Ends(lead) + (Strs(words) + Ends(stop)) + Lex(Outside, rest)
  {
    hide Lex, WordsOk, WordsText, Strs, Ends, Breaks, Gap, Stops, After, Plain;
    var text, end := WordsText(words), stop + rest;
    LineText(lead, text, trail, stop, rest);
    StopBreaks(stop);
    TrailStops(words[|words| - 1], trail, stop, rest);
    LexBreaks(lead, text + (trail + end));
    LexWords(words, trail + end);
    GapBreaks(trail);
    LexBreaks(trail, end);
    LexBreaks(stop, rest);
    var after := Lex(Outside, rest);
    assert [] + Lex(Outside, end) == Lex(Outside, end);
    Regroup(Strs(words), Ends(stop), after);
    Regroup(Ends(lead), Strs(words) + Ends(stop), after);
  }

  lemma LineText<T>(a: seq<T>, b: seq<T>, c: seq<T>, d: seq<T>, e: seq<T>)
    ensures a + b + c + d + e == a + (b + (c + (d + e)))
  {
  }

  lemma GapBreaks(g: seq<byte>)
    requires Gap(g)
    ensures Breaks(g)
  {
  }

  lemma StopBreaks(stop: seq<byte>)
    requires stop == [59] || stop == [10] || stop == []
    ensures Breaks(stop)
  {
  }

  lemma TrailStops(w: Word, trail: seq<byte>, stop: seq<byte>, rest: seq<byte>)
    requires Gap(trail) && After(w, trail) && (stop == [59] || stop == [10] || (stop == [] && Stops(rest)))
    ensures w.quoted || Stops(trail + (stop + rest))
  {
    assert trail == [] && stop == [] ==> trail + (stop + rest) == rest;
  }

  lemma LexBlock(lead: seq<byte>, name: Word, gap: seq<byte>, inner: seq<byte>, close: seq<byte>, rest: seq<byte>,
                 tokens: seq<Token>)
    requires Breaks(lead) && WordOk(name) && Gap(gap) && After(name, gap) && Breaks(close)
    requires var end := close + ([125] + rest); Lex(Outside, inner + end) == tokens + Lex(Outside, end)
    ensures Lex(Outside, lead + Spelled(name) + gap + [123] + inner + close + [125] + rest)
            == Ends(lead) + ([Str(name.text)] + ([Open] + (tokens + (Ends(close) + [Close])))) + Lex(Outside, rest)
  {
    hide Lex, WordOk, Spelled, Breaks, Gap, After, Ends, Stops, Plain;
    var end := close + ([125] + rest);
    var body := gap + ([123] + (inner + end));
    BlockText(lead, Spelled(name), gap, [123], inner, close, [125], rest);
    LexBreaks(lead, Spelled(name) + body);
    GapStops(name, gap, inner + end);
    LexWord(name, body);
    GapBreaks(gap);
    LexBreaks(gap, [123] + (inner + end));
    LexOpen(inner + end);
    LexBreaks(close, [125] + rest);
    LexOpen(rest);
    NoTokens([Open] + (tokens + (Ends(close) + ([Close] + Lex(Outside, rest)))), [Str(name.text)]);
    BlockTokens(Ends(lead), [Str(name.text)], [Open], tokens, Ends(close), [Close], Lex(Outside, rest));
  }

  lemma NoTokens(ts: seq<Token>, front: seq<Token>)
    ensures [] + ts == ts && front + [] == front
  {
  }

  lemma BlockText<T>(a: seq<T>, b: seq<T>, c: seq<T>, d: seq<T>, e: seq<T>, f: seq<T>, g: seq<T>, h: seq<T>)
    ensures a + b + c + d + e + f + g + h == a + (b + (c + (d + (e + (f + (g + h))))))
  {
  }

  lemma BlockTokens(a: seq<Token>, b: seq<Token>, c: seq<Token>, d: seq<Token>, e: seq<Token>, f: seq<Token>,
                    g: seq<Token>)
    ensures a + (b + (c + (d + (e + f)))) + g == a + (b + (c + (d + (e + (f + g)))))
  {
    Regroup(a, b + (c + (d + (e + f))), g);
    Regroup(b, c + (d + (e + f)), g);
    Regroup(c, d + (e + f), g);
    Regroup(d, e + f, g);
    Regroup(e, f, g);
  }

  lemma GapStops(w: Word, gap: seq<byte>, rest: seq<byte>)
    requires Gap(gap) && After(w, gap)
    ensures w.quoted || Stops(gap + ([123] + rest))
  {
  }

  lemma {:induction false} LexText(items: seq<Laid>, rest: seq<byte>)
    requires WellLaid(items) && (OpenEnd(items) ==> rest == [] || rest[0] == 125)
    ensures Lex(Outside, Text(items) + rest) == Tokens(items) + Lex(Outside, rest)
    decreases items
  {
    hide Lex, Spelled, WordsText, WordOk, WordsOk, Strs, Ends;
    if items == [] {
      assert Text(items) + rest == rest;
    } else {
      var more := Text(items[1..]) + rest;
      LexText(items[1..], rest);
      LexItem(items, more);
      Regroup(ItemText(items[0]), Text(items[1..]), rest);
      Regroup(ItemTokens(items[0]), Tokens(items[1..]), Lex(Outside, rest));
    }
  }

  lemma {:induction false} LexItem(items: seq<Laid>, more: seq<byte>)
    requires items != [] && WellLaid(items) && (OpenEnd(items) && |items| == 1 ==> Stops(more))
    ensures Lex(Outside, ItemText(items[0]) + more) == ItemTokens(items[0]) + Lex(Outside, more)
    decreases items, 0
  {
    hide Lex, Spelled, WordsText, WordOk, WordsOk, Strs, Ends;
    match items[0]
    case Line(lead, words, trail, stop) => LexLine(lead, words, trail, stop, more);
    case Block(lead, name, gap, inner, close) =>
      var end := close + ([125] + more);
      LexText(inner, end);
      LexBlock(lead, name, gap, Text(inner), close, more, Tokens(inner));
  }

  // ---------------------------------------------------------------- the grammar on its tokens

  lemma {:induction false} OptionsOfEnds(g: seq<byte>, tail: seq<Token>)
    ensures Options(Ends(g) + tail) == Options(tail)
    decreases |g|
  {
    hide Options;
    if g == [] {
      assert Ends(g) + tail == tail;
    } else {
      OptionsOfEnds(g[1..], tail);
      if g[0] == 10 || g[0] == 59 {
        OptionsOfEnd(Ends(g[1..]) + tail);
        Regroup([End], Ends(g[1..]), tail);
      } else {
        assert Ends(g) == [] + Ends(g[1..]) == Ends(g[1..]);
      }
    }
  }

  lemma OptionsOfEnd(tail: seq<Token>)
    ensures Options([End] + tail) == Options(tail)
  {
    assert ([End] + tail)[1..] == tail;
  }

  lemma {:induction false} RunOfStrs(words: seq<Word>, tail: seq<Token>)
    requires tail == [] || !tail[0].Str?
    ensures Run(Strs(words) + tail) == |words|
    decreases |words|
  {
    if words == [] {
      assert Strs(words) + tail == tail;
    } else {
      assert (Strs(words) + tail)[1..] == Strs(words[1..]) + tail;
      RunOfStrs(words[1..], tail);
    }
  }

  function Texts(words: seq<Word>): (r: seq<seq<byte>>)
    ensures |r| == |words|
  {
    seq(|words|, i requires 0 <= i < |words| => words[i].text)
  }

  /** Joining from the left, as the parser does, is the same as reading the words off. */
  lemma {:induction false} JoinIsSpaced(words: seq<Word>)
    requires words != []
    ensures Join(Texts(words)) == Spaced(words)
    decreases |words|
  {
    if |words| > 1 {
      JoinFromLeft(Texts(words));
      assert Texts(words)[1..] == Texts(words[1..]);
      JoinIsSpaced(words[1..]);
    }
  }

  lemma {:induction false} JoinFromLeft(ss: seq<seq<byte>>)
    requires |ss| > 1
    ensures Join(ss) == ss[0] + [32] + Join(ss[1..])
    decreases |ss|
  {
    if |ss| == 2 {
      assert ss[..1] == [ss[0]] && ss[1..] == [ss[1]];
    } else {
      var n := |ss| - 1;
      JoinFromLeft(ss[..n]);
      assert ss[..n][1..] == ss[1..][..n - 1];
    }
  }

  lemma OptionsOfLine(words: seq<Word>, tail: seq<Token>)
    requires words != [] && (tail == [] || (!tail[0].Str? && !tail[0].Open?))
    ensures Options(Strs(words) + tail) ==
            Prepend(Node(words[0].text, if |words| == 1 then None else Some(Spaced(words[1..])), []), Options(tail))
  {
    var ts := Strs(words) + tail;
    RunOfStrs(words, tail);
    assert ts[|words|..] == tail && ts[..|words|] == Strs(words);
    assert Strings(Strs(words)) == Texts(words);
    if |words| > 1 {
      assert Texts(words)[1..] == Texts(words[1..]);
      JoinIsSpaced(words[1..]);
    }
  }

  lemma OptionsOfBlock(name: Word, children: seq<Node>, inner: seq<Token>, tail: seq<Token>)
    requires Options(inner + ([Close] + tail)) == Ok((children, [Close] + tail))
    ensures Options([Str(name.text)] + ([Open] + (inner + ([Close] + tail))))
            == Prepend(Node(name.text, Some([]), children), Options(tail))
  {
    var rest := [Open] + (inner + ([Close] + tail));
    var ts := [Str(name.text)] + rest;
    assert ts[1..] == rest && rest[1..] == inner + ([Close] + tail) && ([Close] + tail)[1..] == tail;
    assert Run(ts) == 1;
  }

  lemma {:induction false} OptionsOfText(items: seq<Laid>, close: seq<byte>, tail: seq<Token>)
    requires WellLaid(items) && (OpenEnd(items) ==> close == []) && (tail == [] || tail[0].Close?)
    ensures Options(Tokens(items) + (Ends(close) + tail)) == Ok((Tree(items), tail))
    decreases items
  {
    hide Options, Spelled, WordsText, WordOk, WordsOk, Strs, Ends, Spaced;
    var end := Ends(close) + tail;
    if items == [] {
      OptionsOfEnds(close, tail);
      OptionsOfNone(tail);
      assert Tokens(items) + end == end;
    } else {
      OptionsOfText(items[1..], close, tail);
      Regroup(ItemTokens(items[0]), Tokens(items[1..]), end);
      OptionsOfItem(items, close, tail);
    }
  }

  lemma OptionsOfNone(tail: seq<Token>)
    requires tail == [] || tail[0].Close?
    ensures Options(tail) == Ok(([], tail))
  {
  }

  lemma {:induction false} OptionsOfItem(items: seq<Laid>, close: seq<byte>, tail: seq<Token>)
    requires items != [] && WellLaid(items) && (OpenEnd(items) ==> close == []) && (tail == [] || tail[0].Close?)
    requires Options(Tokens(items[1..]) + (Ends(close) + tail)) == Ok((Tree(items[1..]), tail))
    ensures Options(ItemTokens(items[0]) + (Tokens(items[1..]) + (Ends(close) + tail))) == Ok((Tree(items), tail))
    decreases items, 0
  {
    hide Options, Spelled, WordsText, WordOk, WordsOk, Strs, Ends, Spaced;
    var more := Tokens(items[1..]) + (Ends(close) + tail);
    match items[0]
    case Line(lead, words, _, stop) =>
      Regroup(Ends(lead), Strs(words) + Ends(stop), more);
      Regroup(Strs(words), Ends(stop), more);
      OptionsOfEnds(lead, Strs(words) + (Ends(stop) + more));
      EndsOfStop(stop);
      OptionsOfEnds(stop, more);
      OptionsOfLine(words, Ends(stop) + more);
    case Block(lead, name, _, inner, closing) =>
      BlockTokens(Ends(lead), [Str(name.text)], [Open], Tokens(inner), Ends(closing), [Close], more);
      OptionsOfText(inner, closing, [Close] + more);
      Regroup(Tokens(inner), Ends(closing), [Close] + more);
      OptionsOfEnds(lead, [Str(name.text)] + ([Open] + (Tokens(inner) + (Ends(closing) + ([Close] + more)))));
      OptionsOfBlock(name, Tree(inner), Tokens(inner) + Ends(closing), more);
  }

  lemma EndsOfStop(stop: seq<byte>)
    requires stop == [59] || stop == [10] || stop == []
    ensures Ends(stop) == if stop == [] then [] else [End]
  {
  }

  // ---------------------------------------------------------------- what a laid-out text denotes

  /** Any text laid out as options denotes the forest that its layout shows: words are separated by
      blanks and colons or quotes, a value is its words with one space between any two, semicolons and
      line ends are optional before a closing brace and at the end and may be repeated elsewhere. */
  lemma LaidOutDenotes(items: seq<Laid>, close: seq<byte>)
    requires WellLaid(items) && Breaks(close) && (OpenEnd(items) ==> close == [])
    ensures Denotes(Text(items) + close) == Ok(Tree(items))
  {
    hide Options, Lex;
    LexText(items, close);
    LexBreaks(close, []);
    LexNone();
    assert close + [] == close && Ends(close) + [] == Ends(close);
    OptionsOfText(items, close, []);
  }

  lemma LexNone()
    ensures Lex(Outside, []) == []
  {
  }

  // ---------------------------------------------------------------- forests that need no quotes

  /** Names that can be written bare, values too or empty, and children under an empty value only. */
  predicate BareForest(f: seq<Node>) {
    f == [] ||
    (&& Bare(f[0].name) && (f[0].value.Some? ==> f[0].value.value == [] || Bare(f[0].value.value))
     && (f[0].children != [] ==> f[0].value == Some([]))
     && BareForest(f[0].children) && BareForest(f[1..]))
  }

  function Bareword(gap: seq<byte>, text: seq<byte>): Word {
    Word(gap, false, text)
  }

  /** One way to write such a forest. */
  function Lay(f: seq<Node>): seq<Laid> {
    if f == [] then [] else [LayNode(f[0].name, f[0].value, Lay(f[0].children))] + Lay(f[1..])
  }

  function LayNode(name: seq<byte>, value: Option<seq<byte>>, inner: seq<Laid>): Laid {
    match value
    case None => Line([], [Bareword([], name)], [], [10])
    case Some(v) =>
      if v == [] then Block([], Bareword([], name), [32], inner, [])
      else Line([], [Bareword([], name), Bareword([32], v)], [], [10])
  }

  lemma {:induction false} LayIsWellLaid(f: seq<Node>)
    requires BareForest(f)
    ensures WellLaid(Lay(f)) && Tree(Lay(f)) == f && !OpenEnd(Lay(f))
    decreases f
  {
    hide Bare, WellLaid, Tree, OpenEnd;
    if f == [] {
      LayNothing();
    } else {
      LayIsWellLaid(f[0].children);
      LayIsWellLaid(f[1..]);
      LayFirst(f[0].name, f[0].value, Lay(f[0].children), Lay(f[1..]));
      assert [f[0]] + f[1..] == f;
      assert f[0] == Node(f[0].name, f[0].value, f[0].children);
    }
  }

  lemma LayNothing()
    ensures WellLaid([]) && Tree([]) == [] && !OpenEnd([])
  {
  }

  lemma LayFirst(name: seq<byte>, value: Option<seq<byte>>, inner: seq<Laid>, more: seq<Laid>)
    requires Bare(name) && (value.Some? ==> value.value == [] || Bare(value.value))
    requires WellLaid(inner) && !OpenEnd(inner) && (value != Some([]) ==> inner == [])
    requires WellLaid(more) && !OpenEnd(more)
    ensures var items := [LayNode(name, value, inner)] + more;
            WellLaid(items) && Tree(items) == [Node(name, value, Tree(inner))] + Tree(more) && !OpenEnd(items)
  {
    hide Bare, WordsOk, WordOk, Spaced, Spelled;
    var item := LayNode(name, value, inner);
    var items := [item] + more;
    assert items[1..] == more && items[0] == item;
    assert more != [] ==> items[|items| - 1] == more[|more| - 1];
    OneWord(name);
    if value.Some? && value.value != [] {
      WordPair(name, value.value);
    }
    assert WellLaid(items);
  }

  lemma WordPair(name: seq<byte>, v: seq<byte>)
    requires Bare(name) && Bare(v)
    ensures var words := [Bareword([], name), Bareword([32], v)]; WordsOk(words) && Spaced(words[1..]) == v
  {
    var words := [Bareword([], name), Bareword([32], v)];
    assert words[1..] == [words[1]] && words[1..][1..] == [];
  }

  lemma OneWord(name: seq<byte>)
    requires Bare(name)
    ensures WordsOk([Bareword([], name)]) && WordOk(Bareword([], name))
  {
  }

  /** Written without quotes, such a forest is denoted by the text. */
  lemma BareTextDenotes(f: seq<Node>)
    requires BareForest(f)
    ensures Denotes(Text(Lay(f))) == Ok(f)
  {
    LayIsWellLaid(f);
    LaidOutDenotes(Lay(f), []);
    assert Text(Lay(f)) + [] == Text(Lay(f));
  }
}
