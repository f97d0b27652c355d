/** `limitedWriter` of stout.go: the writer that captures the first `limit`
    bytes of a command's standard error, and turns them into a message. */
module Limited {
  import opened Base
  import opened Errors
  import opened Utf8

  /** `min(a, b)`. */
  function Min(a: int, b: int): (m: int)
    ensures m <= a && m <= b
    ensures m == a || m == b
  {
    if a < b then a else b
  }

  /** The first `limit` bytes of `w` (none when `limit` is negative). */
  function Kept(w: seq<byte>, limit: int): (r: seq<byte>)
    ensures r <= w
    ensures |r| == if limit < 0 then 0 else Min(limit, |w|)
  {
    if |w| <= limit then w else if limit < 0 then [] else w[..limit]
  }

  /** What `Write(s)` does to the buffer `b`: append as much of `s` as still
      fits under `limit`, and nothing when no room is left. */
  function Capture(b: seq<byte>, limit: int, s: seq<byte>): (r: seq<byte>)
    ensures b <= r && r[|b|..] <= s
    ensures |b| <= limit ==> |r| <= limit
    ensures |b| < limit ==> |r| == Min(limit, |b| + |s|)
    ensures |b| >= limit ==> r == b
  {
    var n := Min(limit - |b|, |s|);
    if n > 0 then b + s[..n] else b
  }

  /** Capturing write after write keeps exactly the first `limit` bytes of
      everything written. */
  lemma CaptureKept(w: seq<byte>, limit: int, s: seq<byte>)
    ensures Capture(Kept(w, limit), limit, s) == Kept(w + s, limit)
  {
    var k := Kept(w, limit);
    if 0 <= |w| < limit && limit < |w + s| {
      assert k == w;
      assert (w + s)[..limit] == w + s[..limit - |w|];
    } else if |w| >= limit && limit >= 0 {
      assert (w + s)[..limit] == w[..limit];
    }
  }

  /** The buffer once the loop of `String()` has removed every trailing byte
      sequence that decodes as the replacement character. */
  function StripBroken(s: seq<byte>): (t: seq<byte>)
    ensures t <= s
    decreases |s|
  {
    var (r, n) := DecodeLastRune(s);
    if r == RuneError && n > 0 then StripBroken(s[..|s| - n]) else s
  }

  /** The loop stops with a buffer that is empty or whose last character
      decodes as something other than the replacement character. */
  lemma {:induction false} StripBrokenEnds(s: seq<byte>)
    ensures var t := StripBroken(s); t != [] ==> DecodeLastRune(t).0 != RuneError
    decreases |s|
  {
    var (r, n) := DecodeLastRune(s);
    if r == RuneError && n > 0 {
      StripBrokenEnds(s[..|s| - n]);
    }
  }

  /** The UTF-8 encoding of a sequence of code points. */
  function EncodeAll(rs: seq<int>): (s: seq<byte>)
    ensures rs != [] ==> EncodeAll(rs[..|rs| - 1]) <= s
  {
    if rs == [] then [] else EncodeAll(rs[..|rs| - 1]) + EncodeRune(rs[|rs| - 1])
  }

  /** A whole character other than U+FFFD at the end is kept. */
  lemma StripWhole(x: seq<byte>, r: int)
    requires ValidRune(r) && r != RuneError
    ensures StripBroken(x + EncodeRune(r)) == x + EncodeRune(r)
  {
    LastOfEncoded(x, r);
  }

  /** One turn of the loop: a trailing sequence that decodes as the
      replacement character is removed. */
  lemma StripStep(s: seq<byte>, n: nat)
    requires DecodeLastRune(s) == (RuneError, n) && n > 0
    ensures n <= |s| && StripBroken(s) == StripBroken(s[..|s| - n])
  {
  }

  /** The first `m` bytes of a character's encoding, cut short, are removed
      one at a time, and what is before them is stripped in turn. */
  lemma StripPartial(x: seq<byte>, r: int, m: nat)
    requires ValidRune(r) && m < |EncodeRune(r)|
    ensures StripBroken(x + EncodeRune(r)[..m]) == StripBroken(x)
  {
    EncodingShape(r);
    StripCutShape(x, EncodeRune(r), m);
  }

  /** The same for any `e` shaped like an encoding: a lead byte announcing
      `|e|` bytes, then continuation bytes. */
  lemma {:induction false} StripCutShape(x: seq<byte>, e: seq<byte>, m: nat)
    requires m < |e| && SeqLen(e[0]) == |e|
    requires forall i :: 1 <= i < |e| ==> IsCont(e[i])
    ensures StripBroken(x + e[..m]) == StripBroken(x)
  {
    if m > 0 {
      var s := x + e[..m];
      var t := x + e[..m - 1];
      LastOfCut(x, e, m);
      calc {
        StripBroken(s);
      == { StripStep(s, 1); DropLast(x, e, m); }
        StripBroken(t);
      == { StripCutShape(x, e, m - 1); }
        StripBroken(x);
      }
    } else {
      assert x + e[..0] == x;
    }
  }

  lemma DropLast(x: seq<byte>, e: seq<byte>, m: nat)
    requires 0 < m <= |e|
    ensures (x + e[..m])[..|x| + m - 1] == x + e[..m - 1]
  {
  }

  /** A buffer cut inside character `j` of a text without U+FFFD gives back
      exactly the characters before `j`. */
  lemma StripCut(rs: seq<int>, j: nat, m: nat)
    requires forall i :: 0 <= i < |rs| ==> ValidRune(rs[i]) && rs[i] != RuneError
    requires j < |rs| && m < |EncodeRune(rs[j])|
    ensures StripBroken(EncodeAll(rs[..j]) + EncodeRune(rs[j])[..m]) == EncodeAll(rs[..j])
  {
    StripPartial(EncodeAll(rs[..j]), rs[j], m);
    if j > 0 {
      assert rs[..j][..j - 1] == rs[..j - 1];
      StripWhole(EncodeAll(rs[..j - 1]), rs[j - 1]);
    }
  }

  /** A complete U+FFFD at the end is removed as well: the loop cannot tell it
      from a broken sequence, since both decode as the replacement character. */
  lemma StripReplacement(x: seq<byte>)
    ensures StripBroken(x + [0xEF, 0xBF, 0xBD]) == StripBroken(x)
  {
    LastOfEncoded(x, RuneError);
    var s := x + [0xEF, 0xBF, 0xBD];
    assert EncodeRune(RuneError) == [0xEF, 0xBF, 0xBD];
    StripStep(s, 3);
    assert s[..|s| - 3] == x;
  }

  /** `limitedWriter`: `b` holds the first `limit` bytes of everything written
      to it (`written`, which the model keeps for the proof). */
  class LimitedWriter {
    var b: seq<byte>
    const limit: int
    ghost var written: seq<byte>

    ghost predicate Valid()
      reads this
    {
      b == Kept(written, limit)
    }

    /** `limitedWriter{limit: limit}`. */
    constructor (limit: int)
      ensures Valid() && b == [] && written == [] && this.limit == limit
    {
      this.b := [];
      this.limit := limit;
      this.written := [];
    }

    /** `Write(s)`: always reports the whole of `s` written without an error,
        and keeps at most `limit` bytes. */
    method Write(s: seq<byte>) returns (n: int, err: Option<Error>)
      requires Valid()
      modifies this
      ensures Valid() && written == old(written) + s
      ensures n == |s| && err.None?
      ensures b == Capture(old(b), limit, s)
    {
      var k := Min(limit - |b|, |s|);
      if k > 0 {
        b := b + s[..k];
      }
      CaptureKept(written, limit, s);
      written := written + s;
      n, err := |s|, None;
    }

    /** `String()`: drop trailing broken sequences, then surrounding white
        space. */
    method String() returns (msg: seq<byte>)
      ensures msg == TrimSpace(StripBroken(b))
    {
      var s := b;
      var r, n := DecodeLastRune(s).0, DecodeLastRune(s).1;
      while r == RuneError && n > 0
        invariant StripBroken(s) == StripBroken(b)
        invariant (r, n) == DecodeLastRune(s)
        decreases |s|
      {
        s := s[..|s| - n];
        r, n := DecodeLastRune(s).0, DecodeLastRune(s).1;
      }
      msg := TrimSpace(s);
    }
  }
}
