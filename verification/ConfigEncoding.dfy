/**
 * The flat byte form of a forest of options (config.h). A record is a 32-bit little-endian
 * length that counts itself, the name and its NUL, the value and its NUL if there is a value,
 * and the records of the children.
 */
module ConfigEncoding {
  import opened Bytes
  import opened Wrappers
  import opened ConfigGrammar

  /** Host byte order of the machines the code runs on; the stored length wraps at 2^32. */
  function Le32(n: nat): (r: seq<byte>)
    ensures |r| == 4
    ensures r[0] == n % 256 && r[1] == n / 256 % 256 && r[2] == n / 65536 % 256 && r[3] == n / 16777216 % 256
  {
    [n % 256, n / 256 % 256, n / 65536 % 256, n / 16777216 % 256]
  }

  function ReadLe32(b: seq<byte>): nat
    requires |b| == 4
  {
    var b0: nat, b1: nat, b2: nat, b3: nat := b[0], b[1], b[2], b[3];
    b0 + 256 * b1 + 65536 * b2 + 16777216 * b3
  }

  lemma Le32RoundTrip(n: nat)
    ensures ReadLe32(Le32(n)) == n % 0x1_0000_0000
    ensures n < 0x1_0000_0000 ==> ReadLe32(Le32(n)) == n
  {
    var q := n / 256;
    var h := q / 256;
    assert n / 65536 == h && n / 16777216 == h / 256 && n / 0x1_0000_0000 == h / 256 / 256;
  }

  /** Every four bytes are the stored form of just one number of 32 bits. */
  lemma StoredFormOf(b: seq<byte>)
    requires |b| == 4
    ensures ReadLe32(b) < 0x1_0000_0000 && Le32(ReadLe32(b)) == b
  {
    var n := ReadLe32(b);
    var b0: nat, b1: nat, b2: nat, b3: nat := b[0], b[1], b[2], b[3];
    assert n / 256 == b1 + 256 * b2 + 65536 * b3 && n / 65536 == b2 + 256 * b3 && n / 16777216 == b3;
  }

  function Body(name: seq<byte>, value: Option<seq<byte>>, children: seq<byte>): seq<byte> {
    name + [0] + (if value.Some? then value.value + [0] else []) + children
  }

  function Record(name: seq<byte>, value: Option<seq<byte>>, children: seq<byte>): seq<byte> {
    var body := Body(name, value, children);
    Le32(4 + |body|) + body
  }

  function Encode(f: seq<Node>): seq<byte> {
    if f == [] then []
    else Record(f[0].name, f[0].value, Encode(f[0].children)) + Encode(f[1..])
  }

  lemma {:induction false} EncodeAppend(f: seq<Node>, g: seq<Node>)
    ensures Encode(f + g) == Encode(f) + Encode(g)
    decreases |f|
  {
    if f == [] {
      assert f + g == g;
    } else {
      assert (f + g)[1..] == f[1..] + g;
      EncodeAppend(f[1..], g);
    }
  }

  lemma EncodeOne(n: Node)
    ensures Encode([n]) == Record(n.name, n.value, Encode(n.children))
  {
    assert [n][1..] == [];
  }

  // ---------------------------------------------------------------- the unfinished output

  const ZERO4: seq<byte> := [0, 0, 0, 0]

  /** Everything written for the open blocks: the finished options before each of them, its
      reserved length, its name, and the NUL of its empty value. */
  function FrameBytes(frames: seq<Frame>): seq<byte> {
    if frames == [] then []
    else
      var n := |frames| - 1;
      FrameBytes(frames[..n]) + Encode(frames[n].done) + ZERO4 + frames[n].name + [0] + [0]
  }

  /** Where the reserved length of the `i`-th open block is. */
  function FramePos(frames: seq<Frame>, i: nat): nat
    requires i < |frames|
  {
    |FrameBytes(frames[..i])| + |Encode(frames[i].done)|
  }

  /** What has been written for the option being read, after its finished strings. */
  function OpenOption(strs: seq<seq<byte>>): seq<byte> {
    if strs == [] then []
    else ZERO4 + strs[0] + [0] + (if |strs| == 1 then [] else Join(strs[1..]) + [0])
  }

  /** The same inside the string `acc`, before its NUL. */
  function OpenString(strs: seq<seq<byte>>, acc: seq<byte>): seq<byte> {
    if strs == [] then ZERO4 + acc
    else if |strs| == 1 then ZERO4 + strs[0] + [0] + acc
    else ZERO4 + strs[0] + [0] + Join(strs[1..]) + [SPACE] + acc
  }

  function Pending(strs: seq<seq<byte>>, lex: Lexing): seq<byte> {
    if lex.Outside? then OpenOption(strs) else OpenString(strs, lex.acc)
  }

  function Written(z: Zip, lex: Lexing): seq<byte> {
    FrameBytes(z.frames) + Encode(z.done) + Pending(z.strs, lex)
  }

  lemma CloseString(strs: seq<seq<byte>>, acc: seq<byte>)
    ensures OpenString(strs, acc) + [0] == OpenOption(strs + [acc])
  {
    var all := strs + [acc];
    if |strs| > 1 {
      assert all[1..][..|strs| - 1] == strs[1..];
      assert Join(all[1..]) == Join(strs[1..]) + [SPACE] + acc;
    } else if |strs| == 1 {
      assert all[1..] == [acc];
    }
  }

  function Patch(out: seq<byte>, pos: nat): seq<byte>
    requires pos + 4 <= |out|
  {
    out[..pos] + Le32(|out| - pos) + out[pos + 4..]
  }

  lemma PatchRecord(front: seq<byte>, body: seq<byte>)
    ensures Patch(front + ZERO4 + body, |front|) == front + (Le32(4 + |body|) + body)
  {
    var out := front + ZERO4 + body;
    assert out[..|front|] == front && out[|front| + 4..] == body;
  }

  /** The front of the output, a finished record after the options `done`, and the same forest. */
  lemma AddRecord(front: seq<byte>, done: seq<Node>, node: Node)
    ensures front + Encode(done) + Record(node.name, node.value, Encode(node.children))
            == front + Encode(done + [node]) + []
  {
    EncodeAppend(done, [node]);
    EncodeOne(node);
  }

  lemma LeafBytes(strs: seq<seq<byte>>)
    requires strs != []
    ensures OpenOption([]) == []
    ensures var leaf := Leaf(strs);
            OpenOption(strs) == ZERO4 + Body(leaf.name, leaf.value, Encode(leaf.children))
  {
  }

  /** Patching the reserved length of an option without a block makes its record. */
  lemma PatchLeaf(z: Zip)
    requires z.strs != []
    ensures var pos := |FrameBytes(z.frames)| + |Encode(z.done)|;
            pos + 4 <= |Written(z, Outside)|
            && Patch(Written(z, Outside), pos) == Written(Flush(z), Outside)
  {
    hide Encode, FrameBytes, Body, Leaf, OpenOption, Patch;
    var fb := FrameBytes(z.frames);
    var leaf := Leaf(z.strs);
    var body := Body(leaf.name, leaf.value, Encode(leaf.children));
    LeafBytes(z.strs);
    assert fb + Encode(z.done) + (ZERO4 + body) == (fb + Encode(z.done)) + ZERO4 + body;
    PatchRecord(fb + Encode(z.done), body);
    AddRecord(fb, z.done, leaf);
  }

  lemma BlockBytes(front: seq<byte>, name: seq<byte>, inner: seq<byte>)
    ensures front + ZERO4 + name + [0] + [0] + inner + [] == front + ZERO4 + Body(name, Some([]), inner)
  {
  }

  /** The output from the innermost open block on. */
  lemma WrittenInBlock(z: Zip)
    requires z.frames != [] && z.strs == []
    ensures var n := |z.frames| - 1; var f := z.frames[n];
            Written(z, Outside) ==
            FrameBytes(z.frames[..n]) + Encode(f.done) + ZERO4 + Body(f.name, Some([]), Encode(z.done))
  {
    hide Encode, Body;
    var n := |z.frames| - 1;
    var f := z.frames[n];
    var front := FrameBytes(z.frames[..n]) + Encode(f.done);
    BlockBytes(front, f.name, Encode(z.done));
    assert FrameBytes(z.frames) == front + ZERO4 + f.name + [0] + [0];
  }

  /** Patching the reserved length of the innermost block makes the record of the whole block. */
  lemma PatchBlock(z: Zip)
    requires z.frames != [] && z.strs == []
    ensures var n := |z.frames| - 1;
            FramePos(z.frames, n) + 4 <= |Written(z, Outside)|
            && Patch(Written(z, Outside), FramePos(z.frames, n)) == Written(Shift(z, Close).value, Outside)
  {
    hide Encode, Body, FrameBytes, Patch;
    var n := |z.frames| - 1;
    var f := z.frames[n];
    var fb := FrameBytes(z.frames[..n]);
    WrittenInBlock(z);
    PatchRecord(fb + Encode(f.done), Body(f.name, Some([]), Encode(z.done)));
    AddRecord(fb, f.done, Node(f.name, Some([]), z.done));
  }

  /** Opening a block writes one NUL and keeps everything before it in place. */
  lemma OpenBlock(z: Zip)
    requires |z.strs| == 1
    ensures Written(z, Outside) + [0] == Written(Shift(z, Open).value, Outside)
    ensures var frames := Shift(z, Open).value.frames;
            FramePos(frames, |frames| - 1) == |FrameBytes(z.frames)| + |Encode(z.done)|
  {
    var frames := Shift(z, Open).value.frames;
    assert frames[..|frames| - 1] == z.frames;
  }

  /** The positions of the outer blocks do not depend on the inner ones. */
  lemma FramePosPrefix(frames: seq<Frame>, n: nat, i: nat)
    requires i < n <= |frames|
    ensures FramePos(frames[..n], i) == FramePos(frames, i)
  {
    assert frames[..n][..i] == frames[..i];
  }
}
