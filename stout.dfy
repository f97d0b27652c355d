/** The imperative side of stout.go: the `*Writer` that chunks are called with,
    its `WriteChunks` loop, the loop inside a `Repeat` chunk, the list building of
    `Join`, and `Stream.Write` with its flush and close steps.

    Each method is proved against the functions of `Engine` and `Chunks`, whose
    properties are proved there. */
module Stout {
  import opened Base
  import opened Errors
  import opened Chunks
  import opened Engine
  import Utf8

  /** The `*Writer` of `WriterStream(dst)`: its fallback writers all end in the
      destination's `Write`, whose state is held in the fields. */
  class Writer {
    /** Everything the destination has accepted so far. */
    var data: seq<byte>
    /** How many more bytes the destination accepts. */
    var room: nat
    /** How many times the destination's `Write` has been called. */
    var calls: nat
    /** The error the destination returns once it runs out of room. */
    const fault: Error

    function State(): Sink
      reads this
    {
      Sink(data, room, fault, calls)
    }

    constructor (room: nat, fault: Error)
      ensures State() == Sink([], room, fault, 0)
    {
      this.data := [];
      this.room := room;
      this.fault := fault;
      this.calls := 0;
    }

    /** The destination's own `Write(p)`. */
    method SinkWrite(p: seq<byte>) returns (n: int, err: Option<Error>)
      modifies this
      ensures Outcome(State(), n, err) == Engine.SinkWrite(old(State()), p)
    {
      calls := calls + 1;
      if |p| <= room {
        data := data + p;
        room := room - |p|;
        n, err := |p|, None;
      } else {
        data := data + p[..room];
        n, err := room, Some(fault);
        room := 0;
      }
    }

    /** `Writer.Write`: the destination is called only for a non-empty slice. */
    method Write(s: seq<byte>) returns (n: int, err: Option<Error>)
      modifies this
      ensures Outcome(State(), n, err) == Engine.Write(old(State()), s)
    {
      n, err := 0, None;
      if |s| > 0 {
        n, err := SinkWrite(s);
      }
    }

    /** `Writer.WriteString` over the fallback string writer. */
    method WriteString(s: seq<byte>) returns (n: int, err: Option<Error>)
      modifies this
      ensures Outcome(State(), n, err) == Engine.WriteString(old(State()), s)
    {
      n, err := 0, None;
      if |s| > 0 {
        n, err := SinkWrite(s);
      }
    }

    /** `Writer.WriteByte` over the fallback byte writer. */
    method WriteByte(b: byte) returns (err: Option<Error>)
      modifies this
      ensures (State(), err) == Engine.WriteByte(old(State()), b)
    {
      var _, e := SinkWrite([b]);
      err := e;
    }

    /** `Writer.WriteRune` over the fallback rune writer. */
    method WriteRune(r: int) returns (n: int, err: Option<Error>)
      modifies this
      ensures Outcome(State(), n, err) == Engine.WriteRune(old(State()), r)
    {
      n, err := SinkWrite(Utf8.EncodeRune(r));
    }

    /** Calling chunk `c` with this writer. */
    method Invoke(c: Chunk) returns (n: int, err: Option<Error>)
      modifies this
      ensures Outcome(State(), n, err) == Run(c, old(State()))
      decreases c
    {
      match c
      case Nop =>
        n, err := 0, None;
      case Bytes(v) =>
        n, err := Write(v);
      case Str(v) =>
        n, err := WriteString(v);
      case Byte(b) =>
        err := WriteByte(b);
        n := if err.None? then 1 else 0;
      case Rune(r) =>
        n, err := WriteRune(r);
      case All(cs) =>
        n, err := WriteChunks(cs);
      case Repeat(steps) =>
        n, err := RepeatLoop(steps);
      case Raise(body, e) =>
        n, err := Invoke(body);
        if err.None? {
          err := Some(e);
        }
    }

    /** `Writer.WriteChunks`: call the chunks in order, add up their counts,
        and stop at the first error, tagging it with the chunk's position. */
    method WriteChunks(chunks: seq<Chunk>) returns (n: int, err: Option<Error>)
      modifies this
      ensures Outcome(State(), n, err) == RunFrom(chunks, 0, old(State()))
      decreases chunks
    {
      ghost var start := State();
      n, err := 0, None;
      var i := 0;
      while i < |chunks|
        invariant 0 <= i <= |chunks| && err.None?
        invariant var rest := RunFrom(chunks, i, State());
          RunFrom(chunks, 0, start) == Outcome(rest.sink, n + rest.n, rest.err)
        decreases |chunks| - i
      {
        var m, e := Invoke(chunks[i]);
        if e.Some? {
          err := Some(ChunkErr(i, e.value));
          break;
        }
        n := n + m;
        i := i + 1;
      }
    }

    /** The step function of `Repeat(fn)` called with ordinal `i`. */
    method CallStep(steps: seq<Chunk>, i: nat) returns (m: int, err: Option<Error>)
      requires i <= |steps|
      modifies this
      ensures Outcome(State(), m, err) == StepCall(steps, i, old(State()))
      decreases steps, 1
    {
      if i < |steps| {
        m, err := Invoke(steps[i]);
      } else {
        m, err := 0, Some(EOF);
      }
    }

    /** The closure `Repeat(fn)` returns: call `fn` with 0, 1, 2, ... while it
        returns a nil error, adding the counts; io.EOF ends the loop without an
        error and its count is added too. */
    method RepeatLoop(steps: seq<Chunk>) returns (n: int, err: Option<Error>)
      modifies this
      ensures Outcome(State(), n, err) == RunRepeat(steps, 0, old(State()))
      decreases steps, 2
    {
      ghost var start := State();
      n := 0;
      var i := 0;
      var m;
      m, err := CallStep(steps, i);
      while err.None?
        invariant i <= |steps| && (err.None? ==> i < |steps|)
        invariant var r := RepeatAfter(steps, i, Outcome(State(), m, err));
          RunRepeat(steps, 0, start) == Outcome(r.sink, n + r.n, r.err)
        decreases |steps| - i
      {
        n := n + m;
        i := i + 1;
        m, err := CallStep(steps, i);
      }
      if err == Some(EOF) {
        n := n + m;
        err := None;
      }
    }
  }

  /** `Join(sep, chunks...)`: no chunk gives the no-op chunk, one chunk gives
      itself, an empty separator gives `All(chunks...)`, and otherwise the chunks
      are handed to `All` with the separator chunk between each two. */
  method Join(sep: seq<byte>, chunks: seq<Chunk>) returns (c: Chunk)
    ensures c == Joined(sep, chunks)
    ensures |chunks| == 0 ==> c == Nop
    ensures |chunks| == 1 ==> c == chunks[0]
    ensures |chunks| >= 2 && |sep| == 0 ==> c == All(chunks)
    ensures |chunks| >= 2 && |sep| > 0 ==>
      c.All? && |c.chunks| == 2 * |chunks| - 1 &&
      (forall i :: 0 <= i < |chunks| ==> c.chunks[2 * i] == chunks[i]) &&
      (forall i :: 0 <= i < |chunks| - 1 ==> c.chunks[2 * i + 1] == String(sep))
  {
    if |chunks| == 0 {
      return Nop;
    } else if |chunks| == 1 {
      return chunks[0];
    }
    if |sep| == 0 {
      return All(chunks);
    }
    var sc := String(sep);
    var list := [chunks[0]];
    var k := 1;
    while k < |chunks|
      invariant 1 <= k <= |chunks|
      invariant list == Interleave(sc, chunks[..k])
    {
      assert chunks[..k + 1][..k] == chunks[..k];
      list := list + [sc, chunks[k]];
      k := k + 1;
    }
    assert chunks[..k] == chunks;
    return All(list);
  }

  /** What a present flush or close step returns: nothing models what it does
      to the destination. */
  datatype Hook = Absent | Present(result: Option<Error>)

  /** The error `Stream.Write` returns for a `WriteChunks` error `runErr`: the
      flush runs only after success and its error becomes the result; the
      close, run in any case, replaces only a nil result. */
  function Finish(runErr: Option<Error>, flush: Hook, close: Hook): (err: Option<Error>)
    ensures runErr.Some? ==> err == runErr
    ensures err.None? <==>
      runErr.None? && (flush.Absent? || flush.result.None?) && (close.Absent? || close.result.None?)
    ensures runErr.None? && flush.Present? && flush.result.Some? ==> err == flush.result
    ensures runErr.None? && (flush.Absent? || flush.result.None?) && close.Present? ==> err == close.result
  {
    var afterFlush := if runErr.None? && flush.Present? then flush.result else runErr;
    if close.Present? && close.result.Some? && afterFlush.None? then close.result else afterFlush
  }

  /** A `Stream`: a writer with optional flush and close steps, and how many
      times each has run. */
  class Stream {
    const w: Writer
    const flush: Hook
    const close: Hook
    var flushes: nat
    var closes: nat

    constructor (w: Writer, flush: Hook, close: Hook)
      ensures this.w == w && this.flush == flush && this.close == close
      ensures flushes == 0 && closes == 0
    {
      this.w := w;
      this.flush := flush;
      this.close := close;
      this.flushes := 0;
      this.closes := 0;
    }

    /** `Stream.Write(chunks...)`. */
    method Write(chunks: seq<Chunk>) returns (n: int, err: Option<Error>)
      modifies this, w
      ensures var r := RunFrom(chunks, 0, old(w.State()));
        w.State() == r.sink && n == r.n && err == Finish(r.err, flush, close)
      ensures flushes == old(flushes) + (if RunFrom(chunks, 0, old(w.State())).err.None? && flush.Present? then 1 else 0)
      ensures closes == old(closes) + (if close.Present? then 1 else 0)
    {
      n, err := w.WriteChunks(chunks);
      if err.None? && flush.Present? {
        flushes := flushes + 1;
        err := flush.result;
      }
      if close.Present? {
        closes := closes + 1;
        if close.result.Some? && err.None? {
          err := close.result;
        }
      }
    }
  }
}
