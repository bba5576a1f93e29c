/** Shared vocabulary: PHP byte strings, optional values and decimal numerals. */
module Prelude {

  datatype Option<+T> = None | Some(value: T)

  /** One byte of a PHP string. */
  newtype byte = x: int | 0 <= x < 256

  /** A PHP string; `strlen` is the length of this sequence. */
  type Bytes = seq<byte>

  /** The byte a character of a model literal stands for (every literal here is ASCII). */
  function ByteOf(c: char): byte
  {
    if c as int < 256 then c as int as byte else 63
  }

  /** The bytes of a text written in the model as a Dafny string literal. */
  function Ascii(s: string): Bytes
  {
    seq(|s|, i requires 0 <= i < |s| => ByteOf(s[i]))
  }

  const Quote: byte := 34

  /** The white-space bytes of PHP's `ctype_space`: blank, \t, \n, \v, \f, \r. */
  predicate IsSpace(b: byte)
  {
    b == 32 || 9 <= b <= 13
  }

  /** PHP's `ctype_space`: false for "", true for a non-empty run of white space. */
  predicate CtypeSpace(s: Bytes)
  {
    |s| > 0 && forall i :: 0 <= i < |s| ==> IsSpace(s[i])
  }

  /** The emptiness test of `validate`: `$x == NULL || ctype_space($x)` ("" loosely equals NULL). */
  predicate Blank(s: Bytes)
  {
    s == [] || CtypeSpace(s)
  }

  predicate IsDigit(c: char)
  {
    '0' <= c <= '9'
  }

  function DigitChar(d: nat): (c: char)
    requires d < 10
    ensures IsDigit(c)
  {
    (48 + d) as char
  }

  /** How PHP writes a non-negative integer into a double-quoted string ("$n"). */
  function Decimal(n: nat): (s: string)
    ensures |s| > 0
    ensures forall i :: 0 <= i < |s| ==> IsDigit(s[i])
    ensures n < 10 <==> |s| == 1
  {
    if n < 10 then [DigitChar(n)] else Decimal(n / 10) + [DigitChar(n % 10)]
  }

  /** The value of a string of decimal digits. */
  function DigitsValue(s: string): nat
    requires forall i :: 0 <= i < |s| ==> IsDigit(s[i])
  {
    if s == [] then 0
    else
      assert IsDigit(s[|s| - 1]);
      DigitsValue(s[..|s| - 1]) * 10 + (s[|s| - 1] as int - 48)
  }

  /** Reading a rendered number back gives the number: the rendering loses nothing. */
  lemma {:induction false} DecimalRoundTrip(n: nat)
    ensures DigitsValue(Decimal(n)) == n
  {
    if n >= 10 {
      var s := Decimal(n);
      assert s[..|s| - 1] == Decimal(n / 10);
      DecimalRoundTrip(n / 10);
    }
  }

  /** The bytes before the first double quote. */
  function TakeUntilQuote(s: Bytes): Bytes
  {
    if s == [] || s[0] == Quote then [] else [s[0]] + TakeUntilQuote(s[1..])
  }

  /** A quote-free text followed by a quote is recovered by TakeUntilQuote. */
  lemma {:induction false} TakeUntilQuoteOf(a: Bytes, b: Bytes)
    requires Quote !in a
    requires |b| > 0 && b[0] == Quote
    ensures TakeUntilQuote(a + b) == a
  {
    if a != [] {
      assert (a + b)[1..] == a[1..] + b;
      TakeUntilQuoteOf(a[1..], b);
    } else {
      assert a + b == b;
    }
  }

  /** The quoted text after a known opening is read back up to its closing quote. */
  lemma QuotedAfter(open: Bytes, a: Bytes, rest: Bytes)
    requires Quote !in a
    requires |rest| > 0 && rest[0] == Quote
    ensures TakeUntilQuote((open + a + rest)[|open|..]) == a
  {
    assert (open + a + rest)[|open|..] == a + rest;
    TakeUntilQuoteOf(a, rest);
  }

  /** A literal without a double-quote character has no quote byte. */
  lemma AsciiQuoteFree(s: string)
    requires '"' !in s
    ensures Quote !in Ascii(s)
  {
  }

  /** Concatenation regrouped to the right, so that lemmas about a prefix apply. */
  lemma Regroup<T>(s1: seq<T>, s2: seq<T>, s3: seq<T>, s4: seq<T>, s5: seq<T>)
    ensures s1 + s2 + s3 + s4 + s5 == s1 + (s2 + (s3 + (s4 + s5)))
  {
  }

  /** The last three pieces of a concatenation grouped together. */
  lemma RegroupTail<T>(s1: seq<T>, s2: seq<T>, s3: seq<T>, s4: seq<T>, s5: seq<T>)
    ensures s1 + s2 + s3 + s4 + s5 == s1 + s2 + (s3 + s4 + s5)
  {
  }

  /**
   * The positions, from `from` on, of the elements `keep` accepts, in increasing order:
   * what a WHERE clause picks out of a table scanned in order, each row once.
   */
  function Positions<T>(s: seq<T>, keep: T -> bool, from: nat): (r: seq<nat>)
    requires from <= |s|
    ensures forall k :: 0 <= k < |r| ==> from <= r[k] < |s| && keep(s[r[k]])
    ensures forall k, l :: 0 <= k < l < |r| ==> r[k] < r[l]
    ensures forall i :: from <= i < |s| && keep(s[i]) ==> i in r
    decreases |s| - from
  {
    if from == |s| then []
    else (if keep(s[from]) then [from] else []) + Positions(s, keep, from + 1)
  }
}
