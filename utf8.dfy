/** UTF-8 as RFC 3629 defines it, and the three pieces of Go's `unicode/utf8` and
    `bytes` packages that stout.go relies on: `utf8.EncodeRune` (the fallback rune
    writer), `utf8.DecodeLastRune` (cleaning up a truncated error message) and
    `bytes.TrimSpace`. They are written from the RFC, not from Go's library code. */
module Utf8 {
  import opened Base

  /** U+FFFD, what Go writes for a value that is not a Unicode scalar value. */
  const RuneError: int := 0xFFFD
  const MaxRune: int := 0x10FFFF
  /** Longest encoding of one character (RFC 3629, section 3). */
  const UTFMax: nat := 4

  /** A Unicode scalar value: a code point that is not a UTF-16 surrogate. */
  predicate ValidRune(r: int) {
    0 <= r <= MaxRune && !(0xD800 <= r <= 0xDFFF)
  }

  /** A continuation byte, 10xxxxxx. */
  predicate IsCont(x: byte) {
    0x80 <= x <= 0xBF
  }

  /** Length of the sequence that a lead byte announces (the first byte of each
      alternative of the grammar in RFC 3629, section 4); 0 for a byte that never
      starts a character: a continuation byte, C0, C1 or F5..FF. */
  function SeqLen(x: byte): (k: nat)
    ensures k <= UTFMax
    ensures k == 1 <==> x < 0x80
    ensures IsCont(x) ==> k == 0
  {
    if x < 0x80 then 1
    else if 0xC2 <= x <= 0xDF then 2
    else if 0xE0 <= x <= 0xEF then 3
    else if 0xF0 <= x <= 0xF4 then 4
    else 0
  }

  /** Number of octets RFC 3629, section 3 assigns to a scalar value. */
  function EncodedLen(r: int): nat {
    if r < 0x80 then 1
    else if r < 0x800 then 2
    else if r < 0x10000 then 3
    else 4
  }

  /** `utf8.EncodeRune`: a value that is not a scalar value is written as U+FFFD. */
  function EncodeRune(r: int): (s: seq<byte>)
    ensures 1 <= |s| <= UTFMax
    ensures ValidRune(r) ==> |s| == EncodedLen(r)
    ensures !ValidRune(r) ==> s == [0xEF, 0xBF, 0xBD]
  {
    if 0 <= r < 0x80 then [r]
    else if 0 <= r < 0x800 then [0xC0 + r / 64, 0x80 + r % 64]
    else if !ValidRune(r) then [0xEF, 0xBF, 0xBD]
    else if r < 0x10000 then [0xE0 + r / 4096, 0x80 + (r / 64) % 64, 0x80 + r % 64]
    else [0xF0 + r / 262144, 0x80 + (r / 4096) % 64, 0x80 + (r / 64) % 64, 0x80 + r % 64]
  }

  /** The scalar value that `t` encodes when `t` is exactly one well-formed
      character (one UTF8-char of RFC 3629, section 4), and None otherwise. The
      second-byte ranges after E0, ED, F0 and F4 exclude overlong forms,
      surrogates and values above U+10FFFF. */
  function DecodeChar(t: seq<byte>): (r: Option<int>)
    ensures r.Some? ==> 1 <= |t| <= UTFMax && SeqLen(t[0]) == |t|
    ensures r.Some? ==> ValidRune(r.value) && EncodedLen(r.value) == |t|
  {
    if |t| == 0 || SeqLen(t[0]) != |t| then None
    else if |t| == 1 then Some(t[0])
    else if |t| == 2 then
      if IsCont(t[1]) then Some((t[0] as int - 0xC0) * 64 + (t[1] as int - 0x80)) else None
    else if |t| == 3 then
      var lo := if t[0] == 0xE0 then 0xA0 else 0x80;
      var hi := if t[0] == 0xED then 0x9F else 0xBF;
      if lo <= t[1] <= hi && IsCont(t[2])
      then Some((t[0] as int - 0xE0) * 4096 + (t[1] as int - 0x80) * 64 + (t[2] as int - 0x80))
      else None
    else
      var lo := if t[0] == 0xF0 then 0x90 else 0x80;
      var hi := if t[0] == 0xF4 then 0x8F else 0xBF;
      if lo <= t[1] <= hi && IsCont(t[2]) && IsCont(t[3])
      then Some((t[0] as int - 0xF0) * 262144 + (t[1] as int - 0x80) * 4096 + (t[2] as int - 0x80) * 64 + (t[3] as int - 0x80))
      else None
  }

  /** Encoding a scalar value yields one well-formed character that decodes back to it. */
  lemma DecodeEncode(r: int)
    requires ValidRune(r)
    ensures DecodeChar(EncodeRune(r)) == Some(r)
  {
    if r < 0x80 {
    } else if r < 0x800 {
      DecodeEncode2(r);
    } else if r < 0x10000 {
      DecodeEncode3(r);
    } else {
      DecodeEncode4(r);
    }
  }

  lemma DecodeEncode2(r: int)
    requires 0x80 <= r < 0x800
    ensures DecodeChar(EncodeRune(r)) == Some(r)
  {
    var c := r % 64;
    var q := r / 64;
    assert r == q * 64 + c;
    assert 2 <= q < 32;
  }

  lemma DecodeEncode3(r: int)
    requires ValidRune(r) && 0x800 <= r < 0x10000
    ensures DecodeChar(EncodeRune(r)) == Some(r)
  {
    var c := r % 64;
    var q := r / 64;
    assert r == q * 64 + c;
    var b := q % 64;
    var a := q / 64;
    assert q == a * 64 + b;
    assert r / 4096 == a;
    assert a == 0 ==> b >= 32;
    assert a == 0xD ==> b < 32;
  }

  lemma DecodeEncode4(r: int)
    requires ValidRune(r) && 0x10000 <= r
    ensures DecodeChar(EncodeRune(r)) == Some(r)
  {
    var c := r % 64;
    var q := r / 64;
    assert r == q * 64 + c;
    var b := q % 64;
    var p := q / 64;
    var a := p % 64;
    var z := p / 64;
    assert q == p * 64 + b;
    assert p == z * 64 + a;
    assert r / 4096 == p;
    assert r / 262144 == z;
    assert 0 <= z <= 4;
    assert z == 0 ==> a >= 16;
    assert z == 4 ==> a < 16;
  }

  /** Every well-formed character is the encoding of the value it decodes to. */
  lemma EncodeDecode(t: seq<byte>)
    requires DecodeChar(t).Some?
    ensures EncodeRune(DecodeChar(t).value) == t
  {
    var r := DecodeChar(t).value;
    if |t| == 2 {
      Encode2(t[0] as int - 0xC0, t[1] as int - 0x80);
    } else if |t| == 3 {
      Encode3(t[0] as int - 0xE0, t[1] as int - 0x80, t[2] as int - 0x80);
    } else if |t| == 4 {
      Encode4(t[0] as int - 0xF0, t[1] as int - 0x80, t[2] as int - 0x80, t[3] as int - 0x80);
    }
  }

  lemma Encode2(d0: int, d1: int)
    requires 2 <= d0 < 32 && 0 <= d1 < 64
    ensures EncodeRune(d0 * 64 + d1) == [0xC0 + d0, 0x80 + d1]
  {
    SplitLow6(d0, d1);
  }

  lemma Encode3(d0: int, d1: int, d2: int)
    requires 0 <= d0 < 16 && 0 <= d1 < 64 && 0 <= d2 < 64
    requires ValidRune(d0 * 4096 + d1 * 64 + d2) && d0 * 4096 + d1 * 64 + d2 >= 0x800
    ensures EncodeRune(d0 * 4096 + d1 * 64 + d2) == [0xE0 + d0, 0x80 + d1, 0x80 + d2]
  {
    SplitLow6(d0 * 64 + d1, d2);
    SplitLow6(d0, d1);
    SplitLow12(d0, d1 * 64 + d2);
  }

  lemma Encode4(d0: int, d1: int, d2: int, d3: int)
    requires 0 <= d0 < 8 && 0 <= d1 < 64 && 0 <= d2 < 64 && 0 <= d3 < 64
    requires ValidRune(d0 * 262144 + d1 * 4096 + d2 * 64 + d3)
    requires d0 * 262144 + d1 * 4096 + d2 * 64 + d3 >= 0x10000
    ensures EncodeRune(d0 * 262144 + d1 * 4096 + d2 * 64 + d3) == [0xF0 + d0, 0x80 + d1, 0x80 + d2, 0x80 + d3]
  {
    SplitLow6((d0 * 64 + d1) * 64 + d2, d3);
    SplitLow6(d0 * 64 + d1, d2);
    SplitLow6(d0, d1);
    SplitLow12(d0 * 64 + d1, d2 * 64 + d3);
    SplitLow18(d0, (d1 * 64 + d2) * 64 + d3);
  }

  /** Splitting off the low six bits of a value built from a high part and a six-bit digit. */
  lemma SplitLow6(h: int, l: int)
    requires 0 <= l < 64
    ensures (h * 64 + l) / 64 == h && (h * 64 + l) % 64 == l
  {
  }

  lemma SplitLow12(h: int, l: int)
    requires 0 <= l < 4096
    ensures (h * 4096 + l) / 4096 == h
  {
  }

  lemma SplitLow18(h: int, l: int)
    requires 0 <= l < 262144
    ensures (h * 262144 + l) / 262144 == h
  {
  }

  /** An encoding begins with the lead byte announcing its length, followed by
      continuation bytes only. */
  lemma EncodingShape(r: int)
    requires ValidRune(r)
    ensures var e := EncodeRune(r);
      SeqLen(e[0]) == |e| && forall i :: 1 <= i < |e| ==> IsCont(e[i])
  {
    DecodeEncode(r);
  }

  /** `utf8.DecodeRune`: the first character of `s` and its width; (RuneError, 1)
      when `s` does not begin with a well-formed character, (RuneError, 0) when
      `s` is empty. */
  function DecodeRune(s: seq<byte>): (res: (int, nat))
    ensures res.1 == 0 <==> s == []
    ensures res.1 <= |s|
  {
    if s == [] then (RuneError, 0)
    else
      var k := SeqLen(s[0]);
      if 1 <= k <= |s| && DecodeChar(s[..k]).Some? then (DecodeChar(s[..k]).value, k)
      else (RuneError, 1)
  }

  /** What `DecodeRune` reports is the well-formed character the text begins
      with, or (RuneError, 1) when there is none. */
  lemma RuneDecodes(s: seq<byte>)
    requires s != []
    ensures var (r, n) := DecodeRune(s);
      DecodeChar(s[..n]) == Some(r) || (r, n) == (RuneError, 1)
  {
  }

  /** A text that begins with a complete encoding begins with that character. */
  lemma DecodeOfEncoded(x: seq<byte>, r: int)
    requires ValidRune(r)
    ensures DecodeRune(EncodeRune(r) + x) == (r, |EncodeRune(r)|)
  {
    var e := EncodeRune(r);
    var s := e + x;
    EncodingShape(r);
    DecodeEncode(r);
    assert s[0] == e[0] && s[..|e|] == e;
  }

  /** `utf8.DecodeLastRune`: the last character of `s` and its width; (RuneError, 1)
      when `s` does not end with a well-formed character, (RuneError, 0) when `s`
      is empty. */
  function DecodeLastRune(s: seq<byte>): (res: (int, nat))
    ensures res.1 == 0 <==> s == []
    ensures res.1 <= |s|
  {
    if s == [] then (RuneError, 0) else LastFrom(s, 1)
  }

  /** Looks for a well-formed character among the suffixes of `s` of length
      `k`, `k` + 1, ..., UTFMax. */
  function LastFrom(s: seq<byte>, k: nat): (res: (int, nat))
    requires 1 <= k && s != []
    ensures 1 <= res.1 <= |s|
    decreases UTFMax + 1 - k
  {
    if k > UTFMax || k > |s| then (RuneError, 1)
    else
      match DecodeChar(s[|s| - k..])
      case Some(r) => (r, k)
      case None => LastFrom(s, k + 1)
  }

  /** What `DecodeLastRune` reports is the well-formed character the text ends
      with, or (RuneError, 1) when there is none. */
  lemma LastRuneDecodes(s: seq<byte>)
    requires s != []
    ensures var (r, n) := DecodeLastRune(s);
      DecodeChar(s[|s| - n..]) == Some(r) || (r, n) == (RuneError, 1)
  {
    LastFromDecodes(s, 1);
  }

  lemma {:induction false} LastFromDecodes(s: seq<byte>, k: nat)
    requires 1 <= k && s != []
    ensures var (r, n) := LastFrom(s, k);
      DecodeChar(s[|s| - n..]) == Some(r) || (r, n) == (RuneError, 1)
    decreases UTFMax + 1 - k
  {
    if k <= UTFMax && k <= |s| && DecodeChar(s[|s| - k..]).None? {
      LastFromDecodes(s, k + 1);
    }
  }

  /** A text that ends with a complete encoding ends with that character. */
  lemma {:induction false} LastOfEncoded(x: seq<byte>, r: int)
    requires ValidRune(r)
    ensures DecodeLastRune(x + EncodeRune(r)) == (r, |EncodeRune(r)|)
  {
    LastFromEncoded(x, r, 1);
  }

  lemma {:induction false} LastFromEncoded(x: seq<byte>, r: int, k: nat)
    requires ValidRune(r) && 1 <= k <= |EncodeRune(r)|
    ensures LastFrom(x + EncodeRune(r), k) == (r, |EncodeRune(r)|)
    decreases |EncodeRune(r)| - k
  {
    var e := EncodeRune(r);
    var s := x + e;
    assert s[|s| - |e|..] == e;
    DecodeEncode(r);
    if k < |e| {
      EncodingShape(r);
      assert s[|s| - k..][0] == e[|e| - k];
      LastFromEncoded(x, r, k + 1);
    }
  }

  /** A text that ends with a non-empty proper prefix of an encoding, as a
      truncated message does, ends with no character: (RuneError, 1). */
  lemma {:induction false} LastOfPartial(x: seq<byte>, r: int, m: nat)
    requires ValidRune(r) && 0 < m < |EncodeRune(r)|
    ensures DecodeLastRune(x + EncodeRune(r)[..m]) == (RuneError, 1)
  {
    EncodingShape(r);
    LastOfCut(x, EncodeRune(r), m);
  }

  /** The same for any `e` shaped like an encoding. */
  lemma LastOfCut(x: seq<byte>, e: seq<byte>, m: nat)
    requires 0 < m < |e| && SeqLen(e[0]) == |e|
    requires forall i :: 1 <= i < |e| ==> IsCont(e[i])
    ensures DecodeLastRune(x + e[..m]) == (RuneError, 1)
  {
    LastFromCut(x, e, m, 1);
  }

  /** The same for any `e` shaped like an encoding: a lead byte announcing
      `|e|` bytes, then continuation bytes. */
  lemma {:induction false} LastFromCut(x: seq<byte>, e: seq<byte>, m: nat, k: nat)
    requires 0 < m < |e| && SeqLen(e[0]) == |e|
    requires forall i :: 1 <= i < |e| ==> IsCont(e[i])
    requires 1 <= k
    ensures LastFrom(x + e[..m], k) == (RuneError, 1)
    decreases UTFMax + 1 - k
  {
    var s := x + e[..m];
    if k <= UTFMax && k <= |s| {
      var t := s[|s| - k..];
      if k < m {
        assert t[0] == e[m - k];
        NoCharAfterCont(t);
      } else if k == m {
        assert t == e[..m];
        NoCharShort(t);
      } else {
        assert t[k - m] == e[0];
        NoCharBroken(t, k - m);
      }
      LastFromCut(x, e, m, k + 1);
    }
  }

  lemma NoCharAfterCont(t: seq<byte>)
    requires t != [] && IsCont(t[0])
    ensures DecodeChar(t).None?
  {
  }

  lemma NoCharShort(t: seq<byte>)
    requires t != [] && SeqLen(t[0]) != |t|
    ensures DecodeChar(t).None?
  {
  }

  /** A well-formed character has no byte after its first that could start one. */
  lemma NoCharBroken(t: seq<byte>, j: nat)
    requires 1 <= j < |t| && !IsCont(t[j])
    ensures DecodeChar(t).None?
  {
  }

  /** `unicode.IsSpace`: the white space characters of Latin-1 and the other
      characters that Unicode gives the White_Space property. */
  predicate IsSpace(r: int) {
    || r == 0x09 || r == 0x0A || r == 0x0B || r == 0x0C || r == 0x0D || r == 0x20
    || r == 0x85 || r == 0xA0 || r == 0x1680 || 0x2000 <= r <= 0x200A
    || r == 0x2028 || r == 0x2029 || r == 0x202F || r == 0x205F || r == 0x3000
  }

  /** The pieces, one after the other. */
  function Concat(ps: seq<seq<byte>>): seq<byte> {
    if ps == [] then [] else ps[0] + Concat(ps[1..])
  }

  lemma {:induction false} ConcatSnoc(ps: seq<seq<byte>>, p: seq<byte>)
    ensures Concat(ps + [p]) == Concat(ps) + p
    decreases |ps|
  {
    if ps == [] {
      assert ([] + [p])[1..] == [];
    } else {
      assert (ps + [p])[1..] == ps[1..] + [p];
      ConcatSnoc(ps[1..], p);
    }
  }

  /** One well-formed white-space character. */
  predicate SpaceChar(p: seq<byte>) {
    DecodeChar(p).Some? && IsSpace(DecodeChar(p).value)
  }

  /** Each piece is one well-formed white-space character. */
  predicate SpaceChars(ps: seq<seq<byte>>) {
    forall i :: 0 <= i < |ps| ==> SpaceChar(ps[i])
  }

  lemma ConsSpaces(p: seq<byte>, rest: seq<seq<byte>>, u: seq<byte>, t: seq<byte>)
    requires SpaceChar(p) && SpaceChars(rest) && u == Concat(rest) + t
    ensures SpaceChars([p] + rest) && p + u == Concat([p] + rest) + t
  {
    assert ([p] + rest)[1..] == rest;
  }

  lemma SnocSpaces(rest: seq<seq<byte>>, p: seq<byte>, u: seq<byte>, t: seq<byte>)
    requires SpaceChar(p) && SpaceChars(rest) && u == t + Concat(rest)
    ensures SpaceChars(rest + [p]) && u + p == t + Concat(rest + [p])
  {
    ConcatSnoc(rest, p);
  }

  /** A text whose first character is white space begins with that character's bytes. */
  lemma FirstSpace(s: seq<byte>)
    requires DecodeRune(s).1 > 0 && IsSpace(DecodeRune(s).0)
    ensures SpaceChar(s[..DecodeRune(s).1])
  {
    RuneDecodes(s);
  }

  /** A text whose last character is white space ends with that character's bytes. */
  lemma LastSpace(s: seq<byte>)
    requires DecodeLastRune(s).1 > 0 && IsSpace(DecodeLastRune(s).0)
    ensures SpaceChar(s[|s| - DecodeLastRune(s).1..])
  {
    LastRuneDecodes(s);
  }

  /** Drops leading white-space characters; the result is a suffix of `s` that is
      empty or begins with a character that is not white space. */
  function TrimLeft(s: seq<byte>): (t: seq<byte>)
    ensures |t| <= |s| && t == s[|s| - |t|..]
    ensures t != [] ==> !IsSpace(DecodeRune(t).0)
    decreases |s|
  {
    var (r, n) := DecodeRune(s);
    if n > 0 && IsSpace(r) then TrimLeft(s[n..]) else s
  }

  /** One step of `TrimLeft`: either it stops at once, or it drops one
      white-space character `head` and carries on with `tail`. */
  lemma TrimLeftStep(s: seq<byte>) returns (head: seq<byte>, tail: seq<byte>)
    ensures head == [] ==> TrimLeft(s) == s
    ensures head != [] ==> SpaceChar(head) && s == head + tail && TrimLeft(s) == TrimLeft(tail)
  {
    var (r, n) := DecodeRune(s);
    if n > 0 && IsSpace(r) {
      FirstSpace(s);
      head, tail := s[..n], s[n..];
      assert s == head + tail;
    } else {
      head, tail := [], s;
    }
  }

  /** What `TrimLeft` drops is a run of whole white-space characters. */
  lemma {:induction false} TrimLeftSpaces(s: seq<byte>) returns (ps: seq<seq<byte>>)
    ensures SpaceChars(ps) && s == Concat(ps) + TrimLeft(s)
    decreases |s|
  {
    var head, tail := TrimLeftStep(s);
    if head != [] {
      var rest := TrimLeftSpaces(tail);
      ConsSpaces(head, rest, tail, TrimLeft(tail));
      ps := [head] + rest;
    } else {
      ps := [];
    }
  }

  /** Drops trailing white-space characters; the result is a prefix of `s` that is
      empty or ends with a character that is not white space. */
  function TrimRight(s: seq<byte>): (t: seq<byte>)
    ensures |t| <= |s| && t == s[..|t|]
    ensures t != [] ==> !IsSpace(DecodeLastRune(t).0)
    decreases |s|
  {
    var (r, n) := DecodeLastRune(s);
    if n > 0 && IsSpace(r) then TrimRight(s[..|s| - n]) else s
  }

  /** One step of `TrimRight`: either it stops at once, or it drops one
      white-space character `last` and carries on with `init`. */
  lemma TrimRightStep(s: seq<byte>) returns (init: seq<byte>, last: seq<byte>)
    ensures last == [] ==> TrimRight(s) == s
    ensures last != [] ==> SpaceChar(last) && s == init + last && TrimRight(s) == TrimRight(init)
  {
    var (r, n) := DecodeLastRune(s);
    if n > 0 && IsSpace(r) {
      LastSpace(s);
      init, last := s[..|s| - n], s[|s| - n..];
      assert s == init + last;
    } else {
      init, last := s, [];
    }
  }

  /** What `TrimRight` drops is a run of whole white-space characters. */
  lemma {:induction false} TrimRightSpaces(s: seq<byte>) returns (ps: seq<seq<byte>>)
    ensures SpaceChars(ps) && s == TrimRight(s) + Concat(ps)
    decreases |s|
  {
    var init, last := TrimRightStep(s);
    if last != [] {
      var rest := TrimRightSpaces(init);
      SnocSpaces(rest, last, init, TrimRight(init));
      ps := rest + [last];
    } else {
      ps := [];
    }
  }

  /** `bytes.TrimSpace`: the part of `s` between its leading and its trailing
      white space, that is, a prefix of what `TrimLeft` leaves. */
  function TrimSpace(s: seq<byte>): (t: seq<byte>)
    ensures |t| <= |TrimLeft(s)| && t == TrimLeft(s)[..|t|]
    ensures t != [] ==> !IsSpace(DecodeLastRune(t).0)
  {
    TrimRight(TrimLeft(s))
  }

  lemma Between(s: seq<byte>, a: seq<byte>, l: seq<byte>, t: seq<byte>, b: seq<byte>)
    requires s == a + l && l == t + b
    ensures s == a + t + b
  {
  }

  /** `TrimSpace` removes white space only: the text is a run of white-space
      characters, then the result, then another run of white-space characters. */
  lemma TrimSpaceParts(s: seq<byte>) returns (lead: seq<seq<byte>>, trail: seq<seq<byte>>)
    ensures SpaceChars(lead) && SpaceChars(trail)
    ensures s == Concat(lead) + TrimSpace(s) + Concat(trail)
  {
    var l := TrimLeft(s);
    lead := TrimLeftSpaces(s);
    trail := TrimRightSpaces(l);
    Between(s, Concat(lead), l, TrimRight(l), Concat(trail));
  }
}
