/** The execution engine of stout.go as functions of the sink's state: what a
    chunk does when it is called with a `*Writer` built by `WriterStream` over a
    destination that may refuse bytes.

    The destination is one `io.Writer`. It accepts `room` more bytes; a `Write`
    that does not fit stores the part that fits and fails with `fault`. `calls`
    counts its `Write` calls, so that a skipped call can be seen. */
module Engine {
  import opened Base
  import opened Errors
  import opened Chunks
  import Utf8

  datatype Sink = Sink(data: seq<byte>, room: nat, fault: Error, calls: nat)

  /** A chunk's return values, `(n int64, err error)`, and the sink afterwards. */
  datatype Outcome = Outcome(sink: Sink, n: int, err: Option<Error>)

  /** The destination's own `Write(p)`. It stores exactly the bytes it reports,
      and, as an `io.Writer` must, fails whenever it stores fewer than `len(p)`. */
  function SinkWrite(st: Sink, p: seq<byte>): (o: Outcome)
    ensures 0 <= o.n <= |p| && o.sink.data == st.data + p[..o.n]
    ensures o.err.None? <==> |p| <= st.room
    ensures o.err.None? ==> o.n == |p|
    ensures o.err.Some? ==> o.err == Some(st.fault) && o.sink.room == 0
    ensures o.sink.room == st.room - o.n && o.sink.fault == st.fault
    ensures o.sink.calls == st.calls + 1
  {
    if |p| <= st.room then
      Outcome(st.(data := st.data + p, room := st.room - |p|, calls := st.calls + 1), |p|, None)
    else
      Outcome(st.(data := st.data + p[..st.room], room := 0, calls := st.calls + 1), st.room, Some(st.fault))
  }

  /** `Writer.Write`: an empty slice never reaches the destination. */
  function Write(st: Sink, p: seq<byte>): (o: Outcome)
    ensures |p| == 0 ==> o == Outcome(st, 0, None)
    ensures |p| > 0 ==> o.sink.calls == st.calls + 1 && 0 <= o.n <= |p| && o.sink.data == st.data + p[..o.n]
  {
    if |p| > 0 then SinkWrite(st, p) else Outcome(st, 0, None)
  }

  /** `Writer.WriteString` over the fallback `w.Write([]byte(str))`: an empty
      string never reaches the destination. */
  function WriteString(st: Sink, s: seq<byte>): (o: Outcome)
    ensures |s| == 0 ==> o == Outcome(st, 0, None)
    ensures |s| > 0 ==> o.sink.calls == st.calls + 1 && 0 <= o.n <= |s| && o.sink.data == st.data + s[..o.n]
  {
    if |s| > 0 then SinkWrite(st, s) else Outcome(st, 0, None)
  }

  /** `Writer.WriteByte` over the fallback: the one-element slice `[b]` goes to
      the destination and only the error comes back. */
  function WriteByte(st: Sink, b: byte): (o: (Sink, Option<Error>))
    ensures o.1.None? <==> st.room >= 1
    ensures o.0.data == (if st.room >= 1 then st.data + [b] else st.data)
    ensures o.0.calls == st.calls + 1
  {
    var w := SinkWrite(st, [b]);
    (w.sink, w.err)
  }

  /** `Writer.WriteRune` over the fallback: the UTF-8 encoding of `r` goes to the
      destination in one call. */
  function WriteRune(st: Sink, r: int): (o: Outcome)
    ensures var e := Utf8.EncodeRune(r);
      0 <= o.n <= |e| && o.sink.data == st.data + e[..o.n] && (o.err.None? <==> |e| <= st.room)
    ensures Utf8.ValidRune(r) && r < 0x80 && st.room >= 1 ==> o.n == 1 && o.sink.data == st.data + [r]
    ensures o.sink.calls == st.calls + 1
  {
    SinkWrite(st, Utf8.EncodeRune(r))
  }

  /** A rune whose encoding fits is stored whole and counted in full. */
  lemma WriteRuneFits(st: Sink, r: int)
    ensures var e := Utf8.EncodeRune(r);
      |e| <= st.room ==> WriteRune(st, r) == Outcome(st.(data := st.data + e, room := st.room - |e|, calls := st.calls + 1), |e|, None)
  {
  }

  /** Calling chunk `c` with the writer. Whatever the chunk, the destination
      only grows, by exactly the room it gives up; the count never exceeds the
      bytes stored, and equals them unless the error is neither nil nor io.EOF. */
  function Run(c: Chunk, st: Sink): (r: Outcome)
    ensures st.data <= r.sink.data && r.sink.fault == st.fault
    ensures |r.sink.data| - |st.data| == st.room - r.sink.room
    ensures 0 <= r.n <= |r.sink.data| - |st.data|
    ensures r.err.None? || r.err == Some(EOF) ==> r.n == |r.sink.data| - |st.data|
    decreases c
  {
    match c
    case Nop => Outcome(st, 0, None)
    case Bytes(v) => Write(st, v)
    case Str(v) => WriteString(st, v)
    case Byte(b) =>
      var (s, err) := WriteByte(st, b);
      Outcome(s, if err.None? then 1 else 0, err)
    case Rune(r) => WriteRune(st, r)
    case All(cs) => RunFrom(cs, 0, st)
    case Repeat(steps) => RunRepeat(steps, 0, st)
    case Raise(body, e) =>
      var o := Run(body, st);
      if o.err.Some? then o else Outcome(o.sink, o.n, Some(e))
  }

  /** `WriteChunks(chunks)` from position `i` on. */
  function RunFrom(cs: seq<Chunk>, i: nat, st: Sink): (r: Outcome)
    requires i <= |cs|
    ensures st.data <= r.sink.data && r.sink.fault == st.fault
    ensures |r.sink.data| - |st.data| == st.room - r.sink.room
    ensures 0 <= r.n <= |r.sink.data| - |st.data|
    ensures r.err.None? ==> r.n == |r.sink.data| - |st.data|
    ensures r.err.Some? ==> r.err.value.ChunkErr? && i <= r.err.value.index < |cs|
    decreases cs, |cs| - i
  {
    if i == |cs| then Outcome(st, 0, None)
    else
      var o := Run(cs[i], st);
      if o.err.Some? then Outcome(o.sink, 0, Some(ChunkErr(i, o.err.value)))
      else
        var rest := RunFrom(cs, i + 1, o.sink);
        Outcome(rest.sink, o.n + rest.n, rest.err)
  }

  /** One call `fn(i, w)` of the step function: `steps[i]`, or (0, io.EOF) past
      the end. */
  function StepCall(steps: seq<Chunk>, i: nat, st: Sink): (o: Outcome)
    requires i <= |steps|
    ensures i == |steps| ==> o == Outcome(st, 0, Some(EOF))
    ensures st.data <= o.sink.data && o.sink.fault == st.fault
    ensures |o.sink.data| - |st.data| == st.room - o.sink.room
    ensures 0 <= o.n <= |o.sink.data| - |st.data|
    ensures o.err.None? || o.err == Some(EOF) ==> o.n == |o.sink.data| - |st.data|
    decreases steps, |steps| - i, 1
  {
    if i < |steps| then Run(steps[i], st) else Outcome(st, 0, Some(EOF))
  }

  /** What `Repeat`'s loop does once the call with ordinal `i` returned `o`:
      go on after a nil error, stop without an error after io.EOF keeping its
      count, stop after any other error returning it untagged without its count. */
  function RepeatAfter(steps: seq<Chunk>, i: nat, o: Outcome): (r: Outcome)
    requires i <= |steps|
    requires o.err.None? ==> i < |steps|
    ensures o.sink.data <= r.sink.data && r.sink.fault == o.sink.fault
    ensures |r.sink.data| - |o.sink.data| == o.sink.room - r.sink.room
    ensures o.err.None? ==> 0 <= r.n - o.n <= |r.sink.data| - |o.sink.data|
    ensures o.err.None? && r.err.None? ==> r.n - o.n == |r.sink.data| - |o.sink.data|
    ensures o.err == Some(EOF) ==> r == Outcome(o.sink, o.n, None)
    ensures o.err.Some? && o.err != Some(EOF) ==> r == Outcome(o.sink, 0, o.err)
    ensures r.err != Some(EOF)
    decreases steps, |steps| - i, 0
  {
    if o.err.None? then
      var rest := RunRepeat(steps, i + 1, o.sink);
      Outcome(rest.sink, o.n + rest.n, rest.err)
    else if o.err == Some(EOF) then Outcome(o.sink, o.n, None)
    else Outcome(o.sink, 0, o.err)
  }

  /** The closure `Repeat(fn)` returns, running the loop from ordinal `i` on. */
  function RunRepeat(steps: seq<Chunk>, i: nat, st: Sink): (r: Outcome)
    requires i <= |steps|
    ensures st.data <= r.sink.data && r.sink.fault == st.fault
    ensures |r.sink.data| - |st.data| == st.room - r.sink.room
    ensures 0 <= r.n <= |r.sink.data| - |st.data|
    ensures r.err.None? ==> r.n == |r.sink.data| - |st.data|
    ensures r.err != Some(EOF)
    decreases steps, |steps| - i, 2
  {
    RepeatAfter(steps, i, StepCall(steps, i, st))
  }

  /** The first `k` bytes of `x`, or all of them when there are fewer. */
  function Clip(x: seq<byte>, k: nat): (y: seq<byte>)
    ensures |y| == (if |x| <= k then |x| else k) && y <= x
  {
    if |x| <= k then x else x[..k]
  }

  lemma ClipAppend(a: seq<byte>, b: seq<byte>, k: nat)
    ensures |a| <= k ==> Clip(a + b, k) == a + Clip(b, k - |a|)
    ensures |a| > k ==> Clip(a + b, k) == Clip(a, k)
  {
    if |a| <= k && |a + b| > k {
      assert (a + b)[..k] == a + b[..k - |a|];
    } else if |a| > k {
      assert (a + b)[..k] == a[..k];
    }
  }

  /** An error that is the sink's `fault`, possibly wrapped in chunk tags. */
  predicate Wraps(e: Error, fault: Error) {
    e == fault || (e.ChunkErr? && Wraps(e.cause, fault))
  }

  /** A chunk writes into the sink the prefix of its ideal output that fits.
      When all of that output fits, the chunk reports exactly what it reports
      against a sink that never fails; when it does not fit, it fails with the
      sink's error (unless that error is io.EOF, which `Repeat` swallows). */
  lemma {:induction false} RunVsIdeal(c: Chunk, st: Sink)
    ensures Run(c, st).sink.data == st.data + Clip(Ideal(c).out, st.room)
    ensures |Ideal(c).out| <= st.room ==>
      Run(c, st).n == Ideal(c).n && Run(c, st).err == Ideal(c).err
    ensures |Ideal(c).out| > st.room && st.fault != EOF ==>
      Run(c, st).err.Some? && Wraps(Run(c, st).err.value, st.fault)
    decreases c, 0
  {
    match c
    case Nop =>
    case Bytes(v) =>
    case Str(v) =>
    case Byte(b) =>
    case Rune(r) =>
    case All(cs) => RunFromVsIdeal(cs, 0, st);
    case Repeat(steps) => RunRepeatVsIdeal(steps, 0, st);
    case Raise(body, e) => RunVsIdeal(body, st);
  }

  lemma {:induction false} RunFromVsIdeal(cs: seq<Chunk>, i: nat, st: Sink)
    requires i <= |cs|
    ensures RunFrom(cs, i, st).sink.data == st.data + Clip(IdealFrom(cs, i).out, st.room)
    ensures |IdealFrom(cs, i).out| <= st.room ==>
      RunFrom(cs, i, st).n == IdealFrom(cs, i).n && RunFrom(cs, i, st).err == IdealFrom(cs, i).err
    ensures |IdealFrom(cs, i).out| > st.room && st.fault != EOF ==>
      RunFrom(cs, i, st).err.Some? && Wraps(RunFrom(cs, i, st).err.value, st.fault)
    decreases cs, |cs| - i
  {
    if i < |cs| {
      var o := Run(cs[i], st);
      var io := Ideal(cs[i]);
      RunVsIdeal(cs[i], st);
      if io.err.None? {
        var rest := IdealFrom(cs, i + 1);
        ClipAppend(io.out, rest.out, st.room);
        if o.err.None? {
          RunFromVsIdeal(cs, i + 1, o.sink);
        }
      }
    }
  }

  lemma {:induction false} RunRepeatVsIdeal(steps: seq<Chunk>, i: nat, st: Sink)
    requires i <= |steps|
    ensures RunRepeat(steps, i, st).sink.data == st.data + Clip(IdealRepeat(steps, i).out, st.room)
    ensures |IdealRepeat(steps, i).out| <= st.room ==>
      RunRepeat(steps, i, st).n == IdealRepeat(steps, i).n && RunRepeat(steps, i, st).err == IdealRepeat(steps, i).err
    ensures |IdealRepeat(steps, i).out| > st.room && st.fault != EOF ==>
      RunRepeat(steps, i, st).err.Some? && Wraps(RunRepeat(steps, i, st).err.value, st.fault)
    decreases steps, |steps| - i
  {
    if i < |steps| {
      var o := Run(steps[i], st);
      var io := Ideal(steps[i]);
      RunVsIdeal(steps[i], st);
      RunRepeatStep(steps, i, st);
      if io.err.None? {
        var rest := IdealRepeat(steps, i + 1);
        ClipAppend(io.out, rest.out, st.room);
        if o.err.None? {
          RunRepeatVsIdeal(steps, i + 1, o.sink);
        }
      }
    }
  }

  lemma RunRepeatStep(steps: seq<Chunk>, i: nat, st: Sink)
    requires i < |steps|
    ensures RunRepeat(steps, i, st) == RepeatAfter(steps, i, Run(steps[i], st))
  {
  }

  /** The sink just before chunk `k` of `cs` is called, when the chunks are
      called one after the other from `st`. */
  function Before(cs: seq<Chunk>, st: Sink, k: nat): Sink
    requires k <= |cs|
  {
    if k == 0 then st else Run(cs[k - 1], Before(cs, st, k - 1)).sink
  }

  /** What chunk `k` returns when it is called in that sequence. */
  function Step(cs: seq<Chunk>, st: Sink, k: nat): Outcome
    requires k < |cs|
  {
    Run(cs[k], Before(cs, st, k))
  }

  /** Chunks `0 .. k-1` of the sequence all return a nil error. */
  predicate SucceedBefore(cs: seq<Chunk>, st: Sink, k: nat)
    requires k <= |cs|
  {
    k == 0 || (SucceedBefore(cs, st, k - 1) && Step(cs, st, k - 1).err.None?)
  }

  /** The sum of the counts chunks `0 .. k-1` return. */
  function CountBefore(cs: seq<Chunk>, st: Sink, k: nat): int
    requires k <= |cs|
  {
    if k == 0 then 0 else CountBefore(cs, st, k - 1) + Step(cs, st, k - 1).n
  }

  /** `WriteChunks`: when chunk `k` is the first to fail, the chunks after it
      are never called (the sink is the one chunk `k` left), the count is the
      sum of the counts of chunks `0 .. k-1`, and the error is chunk `k`'s
      error tagged with `k`; when no chunk fails, the count is the sum of all
      counts and the error is nil. */
  lemma WriteChunksOutcome(cs: seq<Chunk>, st: Sink, k: nat)
    requires k <= |cs| && SucceedBefore(cs, st, k)
    requires k < |cs| ==> Step(cs, st, k).err.Some?
    ensures k == |cs| ==>
      RunFrom(cs, 0, st) == Outcome(Before(cs, st, k), CountBefore(cs, st, k), None)
    ensures k < |cs| ==>
      RunFrom(cs, 0, st) ==
        Outcome(Step(cs, st, k).sink, CountBefore(cs, st, k), Some(ChunkErr(k, Step(cs, st, k).err.value)))
  {
    WriteChunksFrom(cs, st, k, 0);
  }

  lemma {:induction false} WriteChunksFrom(cs: seq<Chunk>, st: Sink, k: nat, i: nat)
    requires i <= k <= |cs| && SucceedBefore(cs, st, k)
    requires k < |cs| ==> Step(cs, st, k).err.Some?
    ensures var r := RunFrom(cs, i, Before(cs, st, i));
      r.n == CountBefore(cs, st, k) - CountBefore(cs, st, i) &&
      r.sink == (if k == |cs| then Before(cs, st, k) else Step(cs, st, k).sink) &&
      r.err == (if k == |cs| then None else Some(ChunkErr(k, Step(cs, st, k).err.value)))
    decreases k - i
  {
    if i < k {
      SucceedPrefix(cs, st, k, i + 1);
      WriteChunksFrom(cs, st, k, i + 1);
      ChunksStep(cs, st, i);
      var o := Step(cs, st, i);
      var rest := RunFrom(cs, i + 1, Before(cs, st, i + 1));
      assert o.err.None?;
      assert RunFrom(cs, i, Before(cs, st, i)) == Outcome(rest.sink, o.n + rest.n, rest.err);
    } else {
      ChunksLast(cs, st, k);
    }
  }

  /** Where `WriteChunks` stops: at the first chunk with an error, or at the
      end of the list. */
  lemma ChunksLast(cs: seq<Chunk>, st: Sink, k: nat)
    requires k <= |cs|
    requires k < |cs| ==> Step(cs, st, k).err.Some?
    ensures var r := RunFrom(cs, k, Before(cs, st, k));
      r.n == 0 &&
      r.sink == (if k == |cs| then Before(cs, st, k) else Step(cs, st, k).sink) &&
      r.err == (if k == |cs| then None else Some(ChunkErr(k, Step(cs, st, k).err.value)))
  {
    if k < |cs| {
      ChunksStep(cs, st, k);
    }
  }

  /** `WriteChunks` at position `i` of the sequence: chunk `i` runs from the
      sink `Before` gives, and what follows runs from the sink it leaves. */
  lemma ChunksStep(cs: seq<Chunk>, st: Sink, i: nat)
    requires i < |cs|
    ensures var o := Step(cs, st, i);
      Before(cs, st, i + 1) == o.sink && CountBefore(cs, st, i + 1) == CountBefore(cs, st, i) + o.n &&
      RunFrom(cs, i, Before(cs, st, i)) ==
        if o.err.Some? then Outcome(o.sink, 0, Some(ChunkErr(i, o.err.value)))
        else Outcome(RunFrom(cs, i + 1, o.sink).sink, o.n + RunFrom(cs, i + 1, o.sink).n, RunFrom(cs, i + 1, o.sink).err)
  {
  }

  lemma {:induction false} SucceedPrefix(cs: seq<Chunk>, st: Sink, k: nat, j: nat)
    requires j <= k <= |cs| && SucceedBefore(cs, st, k)
    ensures SucceedBefore(cs, st, j)
    ensures j < k ==> Step(cs, st, j).err.None?
    decreases k - j
  {
    if j < k {
      SucceedPrefix(cs, st, k - 1, j);
    }
  }

  /** `Repeat`: when call `k` is the first to return an error, it is the last
      call; after io.EOF the count includes that call's count and the error is
      nil, after any other error the count leaves it out and the error comes
      back untagged. When every step succeeds, the call past the last step
      returns io.EOF with nothing written and the count is the sum of all. */
  lemma RepeatOutcome(steps: seq<Chunk>, st: Sink, k: nat)
    requires k <= |steps| && SucceedBefore(steps, st, k)
    requires k < |steps| ==> Step(steps, st, k).err.Some?
    ensures k == |steps| ==>
      RunRepeat(steps, 0, st) == Outcome(Before(steps, st, k), CountBefore(steps, st, k), None)
    ensures k < |steps| && Step(steps, st, k).err == Some(EOF) ==>
      RunRepeat(steps, 0, st) ==
        Outcome(Step(steps, st, k).sink, CountBefore(steps, st, k) + Step(steps, st, k).n, None)
    ensures k < |steps| && Step(steps, st, k).err != Some(EOF) ==>
      RunRepeat(steps, 0, st) ==
        Outcome(Step(steps, st, k).sink, CountBefore(steps, st, k), Step(steps, st, k).err)
  {
    RepeatFrom(steps, st, k, 0);
  }

  lemma {:induction false} RepeatFrom(steps: seq<Chunk>, st: Sink, k: nat, i: nat)
    requires i <= k <= |steps| && SucceedBefore(steps, st, k)
    requires k < |steps| ==> Step(steps, st, k).err.Some?
    ensures var r := RunRepeat(steps, i, Before(steps, st, i));
      var last := if k == |steps| then Outcome(Before(steps, st, k), 0, None) else Step(steps, st, k);
      r.sink == last.sink &&
      r.n == CountBefore(steps, st, k) - CountBefore(steps, st, i) +
        (if last.err.None? || last.err == Some(EOF) then last.n else 0) &&
      r.err == (if last.err == Some(EOF) then None else last.err)
    decreases k - i
  {
    if i < k {
      SucceedPrefix(steps, st, k, i + 1);
      RepeatFrom(steps, st, k, i + 1);
      RepeatStep(steps, st, i);
      var o := Step(steps, st, i);
      var rest := RunRepeat(steps, i + 1, Before(steps, st, i + 1));
      assert o.err.None?;
      assert RunRepeat(steps, i, Before(steps, st, i)) == Outcome(rest.sink, o.n + rest.n, rest.err);
    } else {
      RepeatLast(steps, st, k);
    }
  }

  /** The call that ends the loop: the first one with an error, or the call
      past the last step. */
  lemma RepeatLast(steps: seq<Chunk>, st: Sink, k: nat)
    requires k <= |steps|
    requires k < |steps| ==> Step(steps, st, k).err.Some?
    ensures var r := RunRepeat(steps, k, Before(steps, st, k));
      var last := if k == |steps| then Outcome(Before(steps, st, k), 0, None) else Step(steps, st, k);
      r.sink == last.sink &&
      r.n == (if last.err.None? || last.err == Some(EOF) then last.n else 0) &&
      r.err == (if last.err == Some(EOF) then None else last.err)
  {
    if k < |steps| {
      RepeatStep(steps, st, k);
    }
  }

  /** The loop of `Repeat` at ordinal `i`: step `i` runs from the sink `Before`
      gives, and the loop goes on as `RepeatAfter` says. */
  lemma RepeatStep(steps: seq<Chunk>, st: Sink, i: nat)
    requires i < |steps|
    ensures var o := Step(steps, st, i);
      Before(steps, st, i + 1) == o.sink && CountBefore(steps, st, i + 1) == CountBefore(steps, st, i) + o.n &&
      RunRepeat(steps, i, Before(steps, st, i)) == RepeatAfter(steps, i, o)
  {
  }

  /** The literal chunks: an empty slice or string gives the no-op chunk, which
      leaves the sink alone and returns (0, nil); a non-empty one calls the
      destination once and reports what it stored. */
  lemma LiteralChunks(val: seq<byte>, st: Sink)
    ensures |val| == 0 ==> Run(ByteSlice(val), st) == Outcome(st, 0, None)
    ensures |val| == 0 ==> Run(String(val), st) == Outcome(st, 0, None)
    ensures |val| > 0 ==> Run(ByteSlice(val), st) == SinkWrite(st, val)
    ensures |val| > 0 ==> Run(String(val), st) == SinkWrite(st, val)
  {
  }

  /** `Byte(v)` reports one byte when the destination takes it and none when
      it fails. */
  lemma ByteChunk(v: byte, st: Sink)
    ensures var r := Run(Byte(v), st);
      r.n == (if st.room >= 1 then 1 else 0) && (r.err.None? <==> st.room >= 1) &&
      r.sink.data == (if st.room >= 1 then st.data + [v] else st.data)
  {
  }
}
