/**
 * `ImmutableConfig::ParseConfig` (config.h): the one-pass compiler from text to flat bytes, with
 * its unread moves, its string counter and the stack of length positions it patches later.
 * It is proved to write exactly the encoding of the forest that the text denotes.
 */
module ConfigParser {
  import opened Bytes
  import opened Wrappers
  import opened ConfigGrammar
  import opened ConfigEncoding

  datatype ParserState = OUTSIDE | INSIDE | QUOTED_INSIDE

  /** The thrown error: which of the messages, and the line counter at that time. */
  datatype ParseError = ParseError(kind: ErrorKind, line: nat)

  const NO_POSITION: nat := 0xFFFF_FFFF_FFFF_FFFF

  function Newlines(text: seq<byte>): (n: nat)
    ensures n == multiset(text)[10]
  {
    if text == [] then 0
    else
      var front, last := text[..|text| - 1], text[|text| - 1];
      assert text == front + [last];
      Newlines(front) + (if last == NEWLINE then 1 else 0)
  }

  // ---------------------------------------------------------------- one character

  datatype Consumed = Consumed(z: Zip, lex: Lexing, unread: bool)

  /** What one character does to what has been read; `unread` when it is to be read again. */
  function Consume(z: Zip, lex: Lexing, c: byte): Result<Consumed, ErrorKind> {
    match lex
    case Outside =>
      if c == QUOTE then Ok(Consumed(z, Quoted([]), false))
      else if StartsBare(c) then Ok(Consumed(z, Bare([]), true))
      else if Blank(c) || c == COLON then Ok(Consumed(z, Outside, false))
      else (
        match Shift(z, if c == OPEN_BRACE then Open else if c == CLOSE_BRACE then Close else End)
        case Err(e) => Err(e)
        case Ok(z1) => Ok(Consumed(z1, Outside, false)))
    case Bare(acc) =>
      if EndsBare(c) || Blank(c) then Ok(Consumed(z.(strs := z.strs + [acc]), Outside, EndsBare(c)))
      else Ok(Consumed(z, Bare(acc + [c]), false))
    case Quoted(acc) =>
      if c == QUOTE then Ok(Consumed(z.(strs := z.strs + [acc]), Outside, false))
      else Ok(Consumed(z, Quoted(acc + [c]), false))
  }

  /** One character moves the reading of the whole text forward without changing its result. */
  lemma ConsumeKeepsResult(z: Zip, lex: Lexing, text: seq<byte>)
    requires text != []
    ensures Pass(z, Lex(lex, text)) ==
            match Consume(z, lex, text[0])
            case Err(e) => Err(e)
            case Ok(n) => Pass(n.z, Lex(n.lex, if n.unread then text else text[1..]))
  {
    var c, rest := text[0], text[1..];
    match lex
    case Outside =>
      if StartsBare(c) {
        assert [] + [c] == [c];
      }
    case Bare(acc) =>
    case Quoted(acc) =>
  }

  /** The parser's fields hold what has been read: the bytes, the positions of the reserved
      lengths, the number of strings of the current option (two stands for two or more), the state. */
  ghost predicate Represents(z: Zip, lex: Lexing, outData: seq<byte>, posStack: seq<nat>, nstr: int, state: ParserState)
  {
    && outData == Written(z, lex)
    && |posStack| == |z.frames| + 1
    && (forall i: nat :: i < |z.frames| ==> posStack[i] == FramePos(z.frames, i))
    && (z.strs != [] || !lex.Outside? ==> posStack[|z.frames|] == |FrameBytes(z.frames)| + |Encode(z.done)|)
    && state == (match lex case Outside => OUTSIDE case Bare(_) => INSIDE case Quoted(_) => QUOTED_INSIDE)
    && nstr == (if |z.strs| >= 2 then if lex.Outside? then 2 else 1 else |z.strs|)
  }

  lemma PopRepresents(z: Zip, out: seq<byte>, stack: seq<nat>)
    requires Represents(z, Outside, out, stack, 0, OUTSIDE) && z.frames != []
    ensures var n := |z.frames| - 1;
            && stack[n] + 4 <= |out|
            && Represents(Shift(z, Close).value, Outside, Patch(out, stack[n]), stack[..n + 1], 0, OUTSIDE)
  {
    hide Written, Patch, Encode, FrameBytes;
    var n := |z.frames| - 1;
    PatchBlock(z);
    forall i: nat | i < n
      ensures FramePos(z.frames[..n], i) == stack[..n + 1][i]
    {
      FramePosPrefix(z.frames, n, i);
    }
  }

  class ParseConfig {
    const text: seq<byte>
    var outData: seq<byte>
    var posStack: seq<nat>
    var nstr: int
    var lineNum: nat
    var state: ParserState
    var data: nat              // index of the next character of `text`

    constructor (text: seq<byte>)
      ensures this.text == text && data == 0 && lineNum == 0 && Reads(START, Outside)
    {
      this.text := text;
      outData, posStack, nstr, lineNum, state, data := [], [NO_POSITION], 0, 0, OUTSIDE, 0;
    }

    ghost predicate Reads(z: Zip, lex: Lexing)
      reads this
    {
      Represents(z, lex, outData, posStack, nstr, state)
    }

    method ReserveLen() returns (r: nat)
      modifies `outData
      ensures r == |old(outData)| && outData == old(outData) + ZERO4
    {
      r := |outData|;
      outData := outData + ZERO4;
    }

    method UpdateLen(lenPos: nat)
      requires lenPos + 4 <= |outData|
      modifies `outData
      ensures outData == Patch(old(outData), lenPos)
    {
      var len := |outData| - lenPos;
      outData := outData[..lenPos] + Le32(len) + outData[lenPos + 4..];
    }

    /** The only caller-visible failure, more than two strings, is `tooMany`. */
    method EndOpt() returns (tooMany: bool)
      requires posStack != []
      requires nstr == 1 || nstr == 2 ==> posStack[|posStack| - 1] + 4 <= |outData|
      modifies `outData, `nstr
      ensures tooMany <==> !(0 <= old(nstr) <= 2)
      ensures old(nstr) == 1 || old(nstr) == 2
              ==> outData == Patch(old(outData), posStack[|posStack| - 1]) && nstr == 0
      ensures !(old(nstr) == 1 || old(nstr) == 2) ==> unchanged(this)
    {
      tooMany := false;
      if nstr == 0 {
      } else if nstr == 1 || nstr == 2 {
        UpdateLen(posStack[|posStack| - 1]);
        nstr := 0;
      } else {
        tooMany := true;
      }
    }

    /** `end_opt` between options: never fails, and finishes the option that was being read. */
    method EndOption(ghost z: Zip)
      requires Reads(z, Outside)
      modifies `outData, `nstr
      ensures Reads(Flush(z), Outside)
    {
      hide Written, Patch, Encode, FrameBytes, FramePos, Leaf;
      if z.strs != [] {
        PatchLeaf(z);
      }
      var tooMany := EndOpt();
      assert !tooMany;
    }

    /** `start_str` and the change of state that follows each call of it. */
    method StartStr(next: ParserState, ghost z: Zip)
      requires Reads(z, Outside) && next != OUTSIDE
      modifies `outData, `posStack, `nstr, `state
      ensures Reads(z, if next == INSIDE then Bare([]) else Quoted([]))
    {
      if nstr == 0 {
        var pos := ReserveLen();
        posStack := posStack[|posStack| - 1 := pos];
      }
      if nstr == 2 {
        nstr := nstr - 1;
        outData := outData[|outData| - 1 := SPACE];
      }
      state := next;
    }

    method EndStr(ghost z: Zip, ghost lex: Lexing)
      requires Reads(z, lex) && !lex.Outside?
      modifies `outData, `nstr, `state
      ensures Reads(z.(strs := z.strs + [lex.acc]), Outside)
    {
      CloseString(z.strs, lex.acc);
      assert Written(z, lex) + [0] == Written(z.(strs := z.strs + [lex.acc]), Outside);
      outData := outData + [0];
      state := OUTSIDE;
      nstr := nstr + 1;
    }

    method PushChar(c: byte, ghost z: Zip, ghost lex: Lexing)
      requires Reads(z, lex) && !lex.Outside?
      modifies `outData
      ensures Reads(z, lex.(acc := lex.acc + [c]))
    {
      outData := outData + [c];
    }

    method OpenBrace(ghost z: Zip) returns (error: Option<ErrorKind>)
      requires Reads(z, Outside)
      modifies `outData, `nstr, `posStack
      ensures match Shift(z, Open)
              case Err(e) => error == Some(e)
              case Ok(z1) => error == None && Reads(z1, Outside)
    {
      if nstr != 1 {
        return Some(InvalidStringCount);
      }
      OpenBlock(z);
      ghost var frames := Shift(z, Open).value.frames;
      forall i: nat | i < |z.frames|
        ensures FramePos(frames, i) == posStack[i]
      {
        FramePosPrefix(frames, |z.frames|, i);
        assert frames[..|z.frames|] == z.frames;
      }
      outData := outData + [0];
      nstr := 0;
      posStack := posStack + [NO_POSITION];
      error := None;
    }

    /** `pop_back`, and `end_opt` for the option whose block was closed. */
    method PopBlock(ghost z: Zip)
      requires Reads(z, Outside) && z.frames != [] && z.strs == []
      modifies `outData, `nstr, `posStack
      ensures Reads(Shift(z, Close).value, Outside)
    {
      PopRepresents(z, outData, posStack);
      posStack := posStack[..|posStack| - 1];
      nstr := 2;
      var tooMany := EndOpt();
      assert !tooMany;
    }

    method CloseBrace(ghost z: Zip) returns (error: Option<ErrorKind>)
      requires Reads(z, Outside)
      modifies `outData, `nstr, `posStack
      ensures match Shift(z, Close)
              case Err(e) => error == Some(e)
              case Ok(z1) => error == None && Reads(z1, Outside)
    {
      EndOption(z);
      if |posStack| <= 1 {
        return Some(UnmatchingClose);
      }
      PopBlock(Flush(z));
      error := None;
    }

    method OutsideChar(c: byte, ghost z: Zip) returns (error: Option<ErrorKind>)
      requires Reads(z, Outside) && data > 0
      modifies `outData, `nstr, `posStack, `state, `data
      ensures match Consume(z, Outside, c)
              case Err(e) => error == Some(e) && data == old(data)
              case Ok(n) => error == None && Reads(n.z, n.lex) && data == old(data) - (if n.unread then 1 else 0)
    {
      hide Represents, Flush;
      error := None;
      if c == OPEN_BRACE {
        error := OpenBrace(z);
      } else if c == CLOSE_BRACE {
        error := CloseBrace(z);
      } else if c == SEMICOLON || c == NEWLINE {
        EndOption(z);
      } else if c == TAB || c == SPACE || c == COLON {
      } else if c == QUOTE {
        StartStr(QUOTED_INSIDE, z);
      } else {
        StartStr(INSIDE, z);
        data := data - 1;
      }
    }

    method InsideChar(c: byte, ghost z: Zip, ghost lex: Lexing)
      requires Reads(z, lex) && lex.Bare? && data > 0
      modifies `outData, `nstr, `state, `data
      ensures var n := Consume(z, lex, c).value;
              Reads(n.z, n.lex) && data == old(data) - (if n.unread then 1 else 0)
    {
      if EndsBare(c) {
        data := data - 1;
        EndStr(z, lex);
      } else if c == TAB || c == SPACE {
        EndStr(z, lex);
      } else {
        PushChar(c, z, lex);
      }
    }

    method QuotedChar(c: byte, ghost z: Zip, ghost lex: Lexing)
      requires Reads(z, lex) && lex.Quoted?
      modifies `outData, `nstr, `state
      ensures var n := Consume(z, lex, c).value; Reads(n.z, n.lex) && !n.unread
    {
      if c == QUOTE {
        EndStr(z, lex);
      } else {
        PushChar(c, z, lex);
      }
    }

    /** The body of the character loop for the character `c` just taken. */
    method Char(c: byte, ghost z: Zip, ghost lex: Lexing) returns (error: Option<ErrorKind>)
      requires Reads(z, lex) && data > 0
      modifies this
      ensures match Consume(z, lex, c)
              case Err(e) => error == Some(e) && data == old(data)
              case Ok(n) => error == None && Reads(n.z, n.lex) && data == old(data) - (if n.unread then 1 else 0)
      ensures lineNum == old(lineNum) + (if c == NEWLINE && !lex.Bare? then 1 else 0)
    {
      error := None;
      if c == NEWLINE && state != INSIDE {
        lineNum := lineNum + 1;
      }
      match state {
        case OUTSIDE => error := OutsideChar(c, z);
        case INSIDE => InsideChar(c, z, lex);
        case QUOTED_INSIDE => QuotedChar(c, z, lex);
      }
    }

    /** Iterations that can still pass over character `c` without taking it for good. */
    static function Unreads(lex: Lexing, c: byte): nat {
      if (lex.Outside? && StartsBare(c)) || (lex.Bare? && EndsBare(c)) then 1 else 0
    }

    /** One iteration of the loop: takes a character, and may put it back. */
    method Advance(ghost z: Zip, ghost lex: Lexing)
      returns (error: Option<ErrorKind>, ghost z1: Zip, ghost lex1: Lexing)
      requires data < |text| && Reads(z, lex) && lineNum == Newlines(text[..data])
      modifies this
      ensures old(data) <= data <= |text| && lineNum == Newlines(text[..data])
      ensures error.Some? ==> Pass(z, Lex(lex, old(text[data..]))) == Err(error.value)
      ensures error.None? ==> Reads(z1, lex1)
      ensures error.None? ==> Pass(z1, Lex(lex1, text[data..])) == Pass(z, Lex(lex, old(text[data..])))
      ensures error.None? && data == old(data) ==> Unreads(lex, text[data]) == 1 && Unreads(lex1, text[data]) == 0
    {
      hide Pass, Lex, Represents, Shift;
      ConsumeKeepsResult(z, lex, text[data..]);
      assert text[data..][1..] == text[data + 1..] && text[..data + 1][..data] == text[..data];
      var c := text[data];
      data := data + 1;
      error := Char(c, z, lex);
      z1, lex1 := z, lex;
      if error.None? {
        ghost var n := Consume(z, lex, c).value;
        z1, lex1 := n.z, n.lex;
      }
    }

    method Epilogue(ghost z: Zip, ghost lex: Lexing) returns (r: Result<(), ParseError>)
      requires Reads(z, lex)
      modifies `outData, `nstr, `state
      ensures match Pass(z, Lex(lex, []))
              case Err(e) => r == Err(ParseError(e, lineNum))
              case Ok(forest) => r == Ok(()) && outData == Encode(forest)
    {
      hide Encode, Patch, FramePos, Leaf;
      ghost var last := if lex.Outside? then z else z.(strs := z.strs + [lex.acc]);
      assert Pass(z, Lex(lex, [])) == Finish(last) by {
        if !lex.Outside? {
          assert [Str(lex.acc)][1..] == [];
        }
      }
      if state != OUTSIDE {
        EndStr(z, lex);
      }
      EndOption(last);
      if |posStack| > 1 {
        return Err(ParseError(LackingClose, lineNum));
      }
      assert [] + Encode(Flush(last).done) + [] == Encode(Flush(last).done);
      r := Ok(());
    }

    /** Compiling a whole text: it throws exactly when the text denotes no forest, with the line
        on which it stopped, and otherwise writes the encoding of the forest. */
    method Parse() returns (r: Result<(), ParseError>)
      requires data == 0 && lineNum == 0 && Reads(START, Outside)
      modifies this
      ensures match Denotes(text)
              case Err(e) => data <= |text| && r == Err(ParseError(e, Newlines(text[..data])))
              case Ok(forest) => r == Ok(()) && outData == Encode(forest) && data == |text|
    {
      ghost var z, lex := START, Outside;
      PassIsDocument(Lex(Outside, text));
      assert text[0..] == text;
      while data < |text|
        invariant data <= |text| && Reads(z, lex)
        invariant Pass(z, Lex(lex, text[data..])) == Denotes(text)
        invariant lineNum == Newlines(text[..data])
        decreases |text| - data, if data < |text| then Unreads(lex, text[data]) else 0
      {
        var error;
        error, z, lex := Advance(z, lex);
        if error.Some? {
          return Err(ParseError(error.value, lineNum));
        }
      }
      assert text[data..] == [];
      r := Epilogue(z, lex);
    }
  }
}
