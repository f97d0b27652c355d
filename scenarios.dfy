/** The outcomes stout_test.go expects, derived from the model for the same
    chunks and destinations. Byte strings are written out as their ASCII or
    UTF-8 codes. */
module Scenarios {
  import opened Base
  import opened Errors
  import opened Chunks
  import opened Engine
  import Utf8

  /** A destination with room for `room` bytes that has seen nothing yet. */
  function Fresh(room: nat, fault: Error): Sink {
    Sink([], room, fault, 0)
  }

  /** "Hello", "world" and "Hello, world!!!". */
  const Hello: seq<byte> := [72, 101, 108, 108, 111]
  const World: seq<byte> := [119, 111, 114, 108, 100]
  const HelloWorldText: seq<byte> := [72, 101, 108, 108, 111, 44, 32, 119, 111, 114, 108, 100, 33, 33, 33]

  /** `String("Hello"), Rune(','), Byte(' '), ByteSlice("world"),
      RepeatN(3, Byte('!'))`. */
  const HelloChunks: seq<Chunk> :=
    [String(Hello), Rune(44), Byte(32), ByteSlice(World), RepeatN(3, Byte(33))]

  /** These chunks write "Hello, world!!!" and count 15 bytes. */
  lemma HelloWorld(room: nat, fault: Error)
    requires room >= 15
    ensures var r := RunFrom(HelloChunks, 0, Fresh(room, fault));
      r.sink.data == HelloWorldText && r.n == 15 && r.err.None?
  {
    HelloIdeal();
    IdealAll(HelloChunks);
    RunFromVsIdeal(HelloChunks, 0, Fresh(room, fault));
  }

  lemma HelloIdeal()
    ensures AllOk(HelloChunks) && Outs(HelloChunks) == HelloWorldText
  {
    var cs := HelloChunks;
    BangBangBang();
    assert Utf8.EncodeRune(44) == [44];
    assert AllOk(cs) by {
      forall i | 0 <= i < |cs| ensures Ideal(cs[i]).err.None? {
      }
    }
    var a, b := [cs[0], cs[1]], [cs[2], cs[3]];
    assert cs == a + (b + [cs[4]]);
    OutsAppend(a, b + [cs[4]]);
    OutsAppend(b, [cs[4]]);
    OutsTwo(cs[0], cs[1]);
    OutsTwo(cs[2], cs[3]);
    OutsOne(cs[4]);
    HelloText();
  }

  lemma HelloText()
    ensures Hello + ([44] + ([32] + (World + [33, 33, 33]))) == HelloWorldText
  {
  }

  /** `RepeatN(3, Byte('!'))` writes "!!!". */
  lemma BangBangBang()
    ensures Ideal(RepeatN(3, Byte(33))) == Result([33, 33, 33], 3, None)
  {
    IdealRepeatN(3, Byte(33));
    assert Rep([33], 3) == [33, 33, 33];
  }

  /** "ZZZ", and the step function of the failing repetition: "ZZZ" for the
      ordinals 0 to 4, then the error "test error" with nothing written. */
  const Zzz: seq<byte> := [90, 90, 90]
  const FailingSteps: seq<Chunk> :=
    [Str(Zzz), Str(Zzz), Str(Zzz), Str(Zzz), Str(Zzz), Raise(Nop, Msg("test error"))]

  /** The repetition returns the step's error untagged; `WriteChunks` tags it
      with the repetition's position 0. */
  lemma RepeatError(room: nat, fault: Error)
    requires room >= 15
    ensures var r := RunFrom([Repeat(FailingSteps)], 0, Fresh(room, fault));
      r.err == Some(ChunkErr(0, Msg("test error"))) &&
      Message(r.err.value) == "writing stream chunk 0: test error"
  {
    IdealRepeatFails();
    RunRepeatVsIdeal(FailingSteps, 0, Fresh(room, fault));
    assert Decimal(0) == "0";
  }

  lemma IdealRepeatFails()
    ensures |IdealRepeat(FailingSteps, 0).out| == 15
    ensures IdealRepeat(FailingSteps, 0).err == Some(Msg("test error"))
  {
    var steps := FailingSteps;
    assert IdealRepeat(steps, 5).err == Some(Msg("test error"));
    assert |IdealRepeat(steps, 5).out| == 0;
    assert |IdealRepeat(steps, 4).out| == 3;
    assert |IdealRepeat(steps, 3).out| == 6;
    assert |IdealRepeat(steps, 2).out| == 9;
    assert |IdealRepeat(steps, 1).out| == 12;
  }

  /** A destination that refuses every byte: the first chunk that writes
      anything fails, and the error names chunk 0 with the destination's own
      error text. In stout_test.go that first chunk is the command chunk
      `Command("cat", tmp)`, which is not modelled; a byte chunk with the
      bytes it would write stands in for it. */
  lemma DeadWriter(p: seq<byte>, text: string)
    requires |p| > 0
    ensures var r := RunFrom([Bytes(p)], 0, Fresh(0, Msg(text)));
      r.n == 0 && r.sink.data == [] && r.err == Some(ChunkErr(0, Msg(text))) &&
      Message(r.err.value) == "writing stream chunk 0: " + text
  {
    var st := Fresh(0, Msg(text));
    assert Run(Bytes(p), st) == Outcome(st.(calls := 1), 0, Some(Msg(text)));
    assert Decimal(0) == "0";
  }

  /** The fallback writers of a plain `io.Writer`: `Rune(r), Byte(b),
      String(u), ByteSlice(v)` with non-empty `u` and `v` store the encoding of
      `r`, then `b`, `u` and `v`, in four calls of its `Write`. */
  lemma FallbackWriters(r: int, b: byte, u: seq<byte>, v: seq<byte>, room: nat, fault: Error)
    requires |u| > 0 && |v| > 0 && room >= |Utf8.EncodeRune(r)| + 1 + |u| + |v|
    ensures var cs := [Rune(r), Byte(b), String(u), ByteSlice(v)];
      var res := RunFrom(cs, 0, Fresh(room, fault));
      res.sink.data == Utf8.EncodeRune(r) + [b] + u + v && res.sink.calls == 4 && res.err.None?
  {
    var cs := [Rune(r), Byte(b), String(u), ByteSlice(v)];
    var e := Utf8.EncodeRune(r);
    var s1 := Sink(e, room - |e|, fault, 1);
    var s2 := s1.(data := e + [b], room := s1.room - 1, calls := 2);
    var s3 := s2.(data := e + [b] + u, room := s2.room - |u|, calls := 3);
    var s4 := s3.(data := e + [b] + u + v, room := s3.room - |v|, calls := 4);
    assert Run(cs[0], Fresh(room, fault)).sink == s1;
    OneCall(cs, 1, s1, [b], s2);
    OneCall(cs, 2, s2, u, s3);
    OneCall(cs, 3, s3, v, s4);
  }

  /** With the values of stout_test.go, `Rune('Ы'), Byte('z'), String("__"),
      ByteSlice("xxx")`, that is the UTF-8 text "Ыz__xxx". */
  lemma FallbackText()
    ensures Utf8.EncodeRune(0x42B) + [122] + [95, 95] + [120, 120, 120] ==
      [0xD0, 0xAB, 122, 95, 95, 120, 120, 120]
  {
    Utf8.Encode2(16, 43);
  }

  /** Chunk `i`, which writes the non-empty `p` that fits in one call, leaves
      `st` as `next`, and the remaining chunks continue from there. */
  lemma OneCall(cs: seq<Chunk>, i: nat, st: Sink, p: seq<byte>, next: Sink)
    requires i < |cs| && 0 < |p| <= st.room
    requires cs[i] == Bytes(p) || cs[i] == Str(p) || (|p| == 1 && cs[i] == Byte(p[0]))
    requires next == st.(data := st.data + p, room := st.room - |p|, calls := st.calls + 1)
    ensures Run(cs[i], st).sink == next && Run(cs[i], st).err.None?
    ensures RunFrom(cs, i, st).sink == RunFrom(cs, i + 1, next).sink
    ensures RunFrom(cs, i, st).err == RunFrom(cs, i + 1, next).err
  {
  }
}
