/** Chunks: the write fragments of stout.go and what each one writes when the
    sink never refuses a byte.

    In Go a chunk is any `func(*Writer) (int64, error)`. Here it is a value of
    the datatype `Chunk`, one alternative per closure that stout.go builds, plus
    `Raise` for the closures that callers write themselves. */
module Chunks {
  import opened Base
  import opened Errors
  import Utf8

  datatype Chunk =
    /** `nopChunk`: writes nothing, returns (0, nil). */
    | Nop
    /** The closure `ByteSlice(val)` returns for non-empty `val`: `w.Write(val)`. */
    | Bytes(val: seq<byte>)
    /** The closure `String(val)` returns for non-empty `val`: `w.WriteString(val)`. */
    | Str(val: seq<byte>)
    /** `Byte(val)`: `w.WriteByte(val)`, reporting 1 byte on success. */
    | Byte(b: byte)
    /** `Rune(val)`: `w.WriteRune(val)`. */
    | Rune(r: int)
    /** `All(chunks...)`: `w.WriteChunks(chunks)`. */
    | All(chunks: seq<Chunk>)
    /** `Repeat(fn)`: the call `fn(i, w)` behaves as `steps[i]`, and every call
        with an ordinal at or past `|steps|` returns (0, io.EOF). */
    | Repeat(steps: seq<Chunk>)
    /** A caller-written chunk: it runs `body` and, if that succeeds, returns
        `body`'s byte count together with the error `err`. */
    | Raise(body: Chunk, err: Error)

  /** `ByteSlice(val)`: the no-op chunk for an empty slice. */
  function ByteSlice(val: seq<byte>): (c: Chunk)
    ensures Ideal(c) == Result(val, |val|, None)
    ensures |val| == 0 ==> c == Nop
  {
    if |val| == 0 then Nop else Bytes(val)
  }

  /** `String(val)`: the no-op chunk for an empty string. */
  function String(val: seq<byte>): (c: Chunk)
    ensures Ideal(c) == Result(val, |val|, None)
    ensures |val| == 0 ==> c == Nop
  {
    if |val| == 0 then Nop else Str(val)
  }

  /** `RepeatN(num, chunk)`: the no-op chunk when `num <= 0`; otherwise a
      repetition whose step function runs `chunk` for the ordinals below `num`
      and returns (0, io.EOF) from then on. */
  function RepeatN(num: int, chunk: Chunk): (c: Chunk)
    ensures num <= 0 ==> c == Nop
    ensures num > 0 ==> (c.Repeat? && |c.steps| == num &&
      forall i :: 0 <= i < num ==> c.steps[i] == chunk)
  {
    if num <= 0 then Nop else Repeat(seq(num, _ => chunk))
  }

  /** The chunk list `Join` hands to `All` for a non-empty separator: the chunks
      with the separator chunk between each two of them. */
  function Interleave(sep: Chunk, cs: seq<Chunk>): (list: seq<Chunk>)
    requires |cs| >= 1
    ensures |list| == 2 * |cs| - 1
    ensures forall i :: 0 <= i < |cs| ==> list[2 * i] == cs[i]
    ensures forall i :: 0 <= i < |cs| - 1 ==> list[2 * i + 1] == sep
    decreases |cs|
  {
    if |cs| == 1 then [cs[0]]
    else Interleave(sep, cs[..|cs| - 1]) + [sep, cs[|cs| - 1]]
  }

  /** The chunk `Join(sep, chunks...)` returns. */
  function Joined(sep: seq<byte>, cs: seq<Chunk>): (j: Chunk)
    ensures |cs| == 0 ==> j == Nop
    ensures |cs| == 1 ==> j == cs[0]
    ensures |cs| >= 2 && sep == [] ==> j == All(cs)
    ensures |cs| >= 2 && sep != [] ==> (j.All? && |j.chunks| == 2 * |cs| - 1 &&
      (forall i :: 0 <= i < |cs| ==> j.chunks[2 * i] == cs[i]) &&
      (forall i :: 0 <= i < |cs| - 1 ==> j.chunks[2 * i + 1] == String(sep)))
  {
    if |cs| == 0 then Nop
    else if |cs| == 1 then cs[0]
    else if |sep| == 0 then All(cs)
    else All(Interleave(String(sep), cs))
  }

  /** What a chunk does against a sink that accepts every byte: the bytes it
      writes, the count it reports and its error. */
  datatype Result = Result(out: seq<byte>, n: int, err: Option<Error>)

  /** The behaviour of a chunk against a sink that never fails. The count never
      exceeds the bytes written, and equals it when there is no error (or the
      error is io.EOF, which only a step's own return can produce). */
  function Ideal(c: Chunk): (r: Result)
    ensures 0 <= r.n <= |r.out|
    ensures r.err.None? || r.err == Some(EOF) ==> r.n == |r.out|
    decreases c
  {
    match c
    case Nop => Result([], 0, None)
    case Bytes(v) => Result(v, |v|, None)
    case Str(v) => Result(v, |v|, None)
    case Byte(b) => Result([b], 1, None)
    case Rune(r) => var e := Utf8.EncodeRune(r); Result(e, |e|, None)
    case All(cs) => IdealFrom(cs, 0)
    case Repeat(steps) => IdealRepeat(steps, 0)
    case Raise(body, e) =>
      var o := Ideal(body);
      if o.err.Some? then o else Result(o.out, o.n, Some(e))
  }

  /** `WriteChunks` from position `i` on: stop at the first failing chunk, tag its
      error with its position, and count only the chunks before it. */
  function IdealFrom(cs: seq<Chunk>, i: nat): (r: Result)
    requires i <= |cs|
    ensures 0 <= r.n <= |r.out|
    ensures r.err.None? || r.err == Some(EOF) ==> r.n == |r.out|
    decreases cs, |cs| - i
  {
    if i == |cs| then Result([], 0, None)
    else
      var o := Ideal(cs[i]);
      if o.err.Some? then Result(o.out, 0, Some(ChunkErr(i, o.err.value)))
      else
        var rest := IdealFrom(cs, i + 1);
        Result(o.out + rest.out, o.n + rest.n, rest.err)
  }

  /** The loop of `Repeat` from ordinal `i` on: io.EOF ends it without an error
      and keeps the last call's count; any other error ends it untagged and
      drops the last call's count. */
  function IdealRepeat(steps: seq<Chunk>, i: nat): (r: Result)
    requires i <= |steps|
    ensures 0 <= r.n <= |r.out|
    ensures r.err.None? || r.err == Some(EOF) ==> r.n == |r.out|
    decreases steps, |steps| - i
  {
    if i == |steps| then Result([], 0, None)
    else
      var o := Ideal(steps[i]);
      if o.err.None? then
        var rest := IdealRepeat(steps, i + 1);
        Result(o.out + rest.out, o.n + rest.n, rest.err)
      else if o.err == Some(EOF) then Result(o.out, o.n, None)
      else Result(o.out, 0, o.err)
  }

  /** Every chunk of the list succeeds on its own. */
  predicate AllOk(cs: seq<Chunk>) {
    forall i :: 0 <= i < |cs| ==> Ideal(cs[i]).err.None?
  }

  /** The outputs of the chunks, one after the other. */
  function Outs(cs: seq<Chunk>): seq<byte> {
    if cs == [] then [] else Ideal(cs[0]).out + Outs(cs[1..])
  }

  lemma {:induction false} OutsAppend(a: seq<Chunk>, b: seq<Chunk>)
    ensures Outs(a + b) == Outs(a) + Outs(b)
  {
    if a == [] {
      assert a + b == b;
    } else {
      assert (a + b)[1..] == a[1..] + b;
      OutsAppend(a[1..], b);
    }
  }

  /** When no chunk fails, `All` writes the outputs in order and counts them all. */
  lemma {:induction false} IdealAll(cs: seq<Chunk>)
    requires AllOk(cs)
    ensures Ideal(All(cs)) == Result(Outs(cs), |Outs(cs)|, None)
  {
    IdealAllFrom(cs, 0);
  }

  lemma {:induction false} IdealAllFrom(cs: seq<Chunk>, i: nat)
    requires AllOk(cs) && i <= |cs|
    ensures IdealFrom(cs, i) == Result(Outs(cs[i..]), |Outs(cs[i..])|, None)
    decreases |cs| - i
  {
    if i < |cs| {
      assert cs[i..][1..] == cs[i + 1..];
      IdealAllFrom(cs, i + 1);
    }
  }

  /** The bytes of the items with `sep` between each two of them (`strings.Join`). */
  function JoinBytes(sep: seq<byte>, xs: seq<seq<byte>>): seq<byte>
    decreases |xs|
  {
    if |xs| == 0 then []
    else if |xs| == 1 then xs[0]
    else JoinBytes(sep, xs[..|xs| - 1]) + sep + xs[|xs| - 1]
  }

  /** The output of each chunk on its own. */
  function OutputsOf(cs: seq<Chunk>): (xs: seq<seq<byte>>)
    ensures |xs| == |cs| && forall i :: 0 <= i < |cs| ==> xs[i] == Ideal(cs[i]).out
  {
    seq(|cs|, i requires 0 <= i < |cs| => Ideal(cs[i]).out)
  }

  /** `Join(sep, chunks...)` writes the chunks' outputs separated by `sep`, for
      every number of chunks and for the empty separator too. */
  lemma IdealJoin(sep: seq<byte>, cs: seq<Chunk>)
    requires AllOk(cs)
    ensures var out := JoinBytes(sep, OutputsOf(cs));
      Ideal(Joined(sep, cs)) == Result(out, |out|, None)
  {
    if |cs| == 1 {
    } else if |cs| > 1 {
      if |sep| == 0 {
        IdealAll(cs);
        JoinWithoutSep(cs);
      } else {
        var list := Interleave(String(sep), cs);
        assert AllOk(list) by {
          forall i | 0 <= i < |list| ensures Ideal(list[i]).err.None? {
            if i % 2 == 0 {
              assert list[2 * (i / 2)] == cs[i / 2];
            } else {
              assert list[2 * (i / 2) + 1] == String(sep);
            }
          }
        }
        IdealAll(list);
        OutsInterleave(sep, cs);
      }
    }
  }

  lemma {:induction false} JoinWithoutSep(cs: seq<Chunk>)
    ensures JoinBytes([], OutputsOf(cs)) == Outs(cs)
    decreases |cs|
  {
    if |cs| > 1 {
      var init := cs[..|cs| - 1];
      OutputsOfInit(cs);
      JoinWithoutSep(init);
      assert cs == init + [cs[|cs| - 1]];
      OutsAppend(init, [cs[|cs| - 1]]);
      OutsOne(cs[|cs| - 1]);
    } else if |cs| == 1 {
      OutsOne(cs[0]);
    }
  }

  lemma {:induction false} OutsInterleave(sep: seq<byte>, cs: seq<Chunk>)
    requires |cs| >= 1 && |sep| > 0
    ensures Outs(Interleave(String(sep), cs)) == JoinBytes(sep, OutputsOf(cs))
    decreases |cs|
  {
    if |cs| == 1 {
      OutsOne(cs[0]);
    } else {
      var init := cs[..|cs| - 1];
      var last := cs[|cs| - 1];
      var xs := OutputsOf(cs);
      assert JoinBytes(sep, xs) == JoinBytes(sep, xs[..|xs| - 1]) + sep + Ideal(last).out;
      OutputsOfInit(cs);
      OutsInterleave(sep, init);
      var sc := String(sep);
      assert Interleave(sc, cs) == Interleave(sc, init) + [sc, last];
      OutsAppend(Interleave(sc, init), [sc, last]);
      OutsTwo(sc, last);
    }
  }

  lemma OutputsOfInit(cs: seq<Chunk>)
    requires |cs| >= 1
    ensures OutputsOf(cs)[..|cs| - 1] == OutputsOf(cs[..|cs| - 1])
  {
  }

  lemma OutsOne(x: Chunk)
    ensures Outs([x]) == Ideal(x).out
  {
    assert [x][1..] == [];
  }

  lemma OutsTwo(x: Chunk, y: Chunk)
    ensures Outs([x, y]) == Ideal(x).out + Ideal(y).out
  {
    assert [x, y][1..] == [y];
    OutsOne(y);
  }

  /** `x` repeated `k` times; nothing when `k <= 0`. */
  function Rep(x: seq<byte>, k: int): seq<byte>
    decreases k
  {
    if k <= 0 then [] else x + Rep(x, k - 1)
  }

  /** `RepeatN(num, c)`: when `c` succeeds it runs `num` times and writes its
      output `num` times; when `c` ends with io.EOF the repetition stops after
      the first call without an error; any other error stops it at the first
      call and comes back untagged, with nothing counted. */
  lemma IdealRepeatN(num: int, c: Chunk)
    ensures var o := Ideal(c);
      o.err.None? ==> Ideal(RepeatN(num, c)) == Result(Rep(o.out, num), |Rep(o.out, num)|, None)
    ensures var o := Ideal(c);
      num > 0 && o.err == Some(EOF) ==> Ideal(RepeatN(num, c)) == Result(o.out, o.n, None)
    ensures var o := Ideal(c);
      num > 0 && o.err.Some? && o.err != Some(EOF) ==> Ideal(RepeatN(num, c)) == Result(o.out, 0, o.err)
  {
    if num > 0 {
      var steps := seq(num, _ => c);
      if Ideal(c).err.None? {
        RepeatSame(steps, c, 0);
      }
    }
  }

  lemma {:induction false} RepeatSame(steps: seq<Chunk>, c: Chunk, i: nat)
    requires i <= |steps| && Ideal(c).err.None?
    requires forall j :: 0 <= j < |steps| ==> steps[j] == c
    ensures var o := Ideal(c);
      IdealRepeat(steps, i) == Result(Rep(o.out, |steps| - i), |Rep(o.out, |steps| - i)|, None)
    decreases |steps| - i
  {
    if i < |steps| {
      RepeatSame(steps, c, i + 1);
    }
  }
}
