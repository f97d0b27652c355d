/** The Go `error` values that the chunk engine produces, passes on or compares
    against, and their texts (`err.Error()`). */
module Errors {

  datatype Error =
    /** `io.EOF`: a repetition step's "stop without an error". */
    | EOF
    /** Any other error: one returned by the sink, a user chunk or `errors.New`. */
    | Msg(text: string)
    /** `fmt.Errorf("writing stream chunk %d: %w", index, cause)`, the tag the
        engine puts on the error of the chunk at 0-based position `index`. */
    | ChunkErr(index: nat, cause: Error)

  /** `err.Error()`. A chunk tag's text ends with its cause's text. */
  function Message(e: Error): (m: string)
    ensures e.EOF? ==> m == "EOF"
    ensures e.Msg? ==> m == e.text
    ensures e.ChunkErr? ==> |m| > |Message(e.cause)| && m[|m| - |Message(e.cause)|..] == Message(e.cause)
  {
    match e
    case EOF => "EOF"
    case Msg(t) => t
    case ChunkErr(k, c) => "writing stream chunk " + Decimal(k) + ": " + Message(c)
  }

  predicate IsDigit(c: char) {
    '0' <= c <= '9'
  }

  function DigitChar(d: nat): (c: char)
    requires d < 10
    ensures IsDigit(c) && c as int - '0' as int == d
  {
    ['0', '1', '2', '3', '4', '5', '6', '7', '8', '9'][d]
  }

  /** `%d` of a non-negative integer: decimal digits without leading zeros. */
  function Decimal(n: nat): (s: string)
    ensures |s| >= 1 && (|s| > 1 ==> s[0] != '0')
    ensures forall i :: 0 <= i < |s| ==> IsDigit(s[i])
  {
    if n < 10 then [DigitChar(n)] else Decimal(n / 10) + [DigitChar(n % 10)]
  }

  /** The number a string of decimal digits denotes. */
  function DecimalValue(s: string): nat
    requires forall i :: 0 <= i < |s| ==> IsDigit(s[i])
  {
    if s == [] then 0
    else
      assert IsDigit(s[|s| - 1]);
      10 * DecimalValue(s[..|s| - 1]) + (s[|s| - 1] as int - '0' as int)
  }

  /** The index printed in a chunk error reads back as the index. */
  lemma {:induction false} DecimalRoundTrip(n: nat)
    ensures DecimalValue(Decimal(n)) == n
  {
    if n >= 10 {
      var s := Decimal(n);
      assert s[..|s| - 1] == Decimal(n / 10);
      DecimalRoundTrip(n / 10);
    }
  }

  /** The text of a chunk tag reads back as its parts: the fixed prefix, the
      decimal index up to position `j`, ": ", then the cause's text. */
  lemma ChunkMessageParts(k: nat, c: Error) returns (j: nat)
    ensures var m := Message(ChunkErr(k, c));
      21 < j <= |m| - 2 && m[..21] == "writing stream chunk " &&
      (forall i :: 21 <= i < j ==> IsDigit(m[i])) &&
      DecimalValue(m[21..j]) == k &&
      m[j..j + 2] == ": " && m[j + 2..] == Message(c)
  {
    var d := Decimal(k);
    var m := Message(ChunkErr(k, c));
    j := 21 + |d|;
    assert m == "writing stream chunk " + d + ": " + Message(c);
    assert m[21..j] == d;
    DecimalRoundTrip(k);
  }
}
