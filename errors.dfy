/**
 * The error taxonomy of the request handler: the format strings of the `Errors`
 * class, the `sprintf` that fills them, and the body `set_error` echoes.
 */
module Errors {
  import opened Prelude

  datatype ErrorKind = FieldEmpty | FieldTooLong | FieldTooShort | InvalidField | ActionThrottled

  /** The three arguments of one `set_error` call: the format, the field, and the second argument. */
  datatype Failure = Failure(kind: ErrorKind, field: string, detail: string)

  /** The constants of the `Errors` class, each written as its literal pieces and conversions. */
  function Template(k: ErrorKind): string
  {
    match k
    case FieldEmpty => "The " + "%s" + " is empty. Please specify a valid " + "%s" + "."
    case FieldTooLong => "The " + "%s" + " field is too long. " + "%d" + " character maximum."
    case FieldTooShort => "The " + "%s" + " field is too short. " + "%d" + " character minimum."
    case InvalidField => "Invalid or incomplete " + "%s" + ". Please specify a valid " + "%s" + "."
    case ActionThrottled => "You are attempting to " + "%s" + " too quickly! Please wait " + "%s" + " and try again."
  }

  /** The leading run of decimal digits. */
  function LeadingDigits(s: string): (r: string)
    ensures forall i :: 0 <= i < |r| ==> IsDigit(r[i])
    ensures |r| <= |s| && r == s[..|r|]
    ensures |r| < |s| ==> !IsDigit(s[|r|])
  {
    if s == [] || !IsDigit(s[0]) then [] else [s[0]] + LeadingDigits(s[1..])
  }

  /** PHP's conversion of a numeric-prefixed string to int, as `%d` applies it: "20,000" is 20. */
  function LeadingInt(s: string): nat
  {
    DigitsValue(LeadingDigits(s))
  }

  lemma {:induction false} LeadingDigitsOfDigits(s: string)
    requires forall i :: 0 <= i < |s| ==> IsDigit(s[i])
    ensures LeadingDigits(s) == s
  {
    if s != [] {
      LeadingDigitsOfDigits(s[1..]);
    }
  }

  /** `%d` of a number PHP wrote as a string gives the number back. */
  lemma LeadingIntOfDecimal(n: nat)
    ensures LeadingInt(Decimal(n)) == n
  {
    LeadingDigitsOfDigits(Decimal(n));
    DecimalRoundTrip(n);
  }

  /** The i-th argument; a missing one is empty (no call here passes too few). */
  function Arg(args: seq<string>, i: nat): string
  {
    if i < |args| then args[i] else ""
  }

  /**
   * `sprintf` restricted to the conversions the templates use: `%s` inserts the next
   * argument, `%d` the integer value of its numeric prefix; any other byte is copied.
   */
  function Format(fmt: string, args: seq<string>): string
    decreases |fmt|
  {
    if |fmt| >= 2 && fmt[0] == '%' && fmt[1] == 's' then Arg(args, 0) + Format(fmt[2..], if args == [] then [] else args[1..])
    else if |fmt| >= 2 && fmt[0] == '%' && fmt[1] == 'd' then Decimal(LeadingInt(Arg(args, 0))) + Format(fmt[2..], if args == [] then [] else args[1..])
    else if fmt == [] then []
    else [fmt[0]] + Format(fmt[1..], args)
  }

  /** Text without a `%` is copied unchanged. */
  lemma {:induction false} FormatLiteral(p: string, t: string, args: seq<string>)
    requires '%' !in p
    ensures Format(p + t, args) == p + Format(t, args)
  {
    if p != [] {
      var pt := p + t;
      assert pt[0] == p[0] && pt[0] != '%';
      assert pt[1..] == p[1..] + t;
      FormatLiteral(p[1..], t, args);
      calc {
        Format(pt, args);
        [p[0]] + Format(p[1..] + t, args);
        [p[0]] + (p[1..] + Format(t, args));
        ([p[0]] + p[1..]) + Format(t, args);
        { assert [p[0]] + p[1..] == p; }
        p + Format(t, args);
      }
    } else {
      assert p + t == t;
    }
  }

  lemma FormatString(q: string, a: string, rest: seq<string>)
    ensures Format("%s" + q, [a] + rest) == a + Format(q, rest)
  {
    assert ("%s" + q)[2..] == q;
    assert ([a] + rest)[1..] == rest;
  }

  lemma FormatInteger(q: string, a: string, rest: seq<string>)
    ensures Format("%d" + q, [a] + rest) == Decimal(LeadingInt(a)) + Format(q, rest)
  {
    assert ("%d" + q)[2..] == q;
    assert ([a] + rest)[1..] == rest;
  }

  /** `sprintf($formatString, $field, $field2)`. */
  function Message(f: Failure): string
  {
    Format(Template(f.kind), [f.field, f.detail])
  }

  /** A literal, then `%s`: the literal, then the first argument, then the rest formatted with the others. */
  lemma FormatFirst(p: string, rest: string, a: string, b: string)
    requires '%' !in p
    ensures Format(p + ("%s" + rest), [a, b]) == p + (a + Format(rest, [b]))
  {
    FormatLiteral(p, "%s" + rest, [a, b]);
    assert [a, b] == [a] + [b];
    FormatString(rest, a, [b]);
  }

  /** A template with one `%s` and then one more conversion, filled with two arguments. */
  lemma FormatTwo(p: string, conv: string, q: string, r: string, a: string, b: string)
    requires '%' !in p && '%' !in q && '%' !in r
    requires conv == "%s" || conv == "%d"
    ensures Format(p + "%s" + q + conv + r, [a, b])
         == p + a + q + (if conv == "%s" then b else Decimal(LeadingInt(b))) + r
  {
    var x := if conv == "%s" then b else Decimal(LeadingInt(b));
    Regroup(p, "%s", q, conv, r);
    FormatFirst(p, q + (conv + r), a, b);
    FormatLiteral(q, conv + r, [b]);
    FormatLast(conv, r, b);
    Regroup(p, a, q, x, r);
  }

  lemma FormatLast(conv: string, r: string, b: string)
    requires '%' !in r
    requires conv == "%s" || conv == "%d"
    ensures Format(conv + r, [b]) == (if conv == "%s" then b else Decimal(LeadingInt(b))) + r
  {
    var tail := conv + r;
    assert tail[0] == '%' && tail[1] == conv[1] && tail[2..] == r;
    assert [b][1..] == [];
    FormatLiteral(r, [], []);
    assert r + [] == r;
  }

  /** The length message names the field and the numeric prefix of the second argument. */
  lemma TooLongMessage(field: string, limit: string)
    ensures Message(Failure(FieldTooLong, field, limit))
         == "The " + field + " field is too long. " + Decimal(LeadingInt(limit)) + " character maximum."
  {
    FormatTwo("The ", "%d", " field is too long. ", " character maximum.", field, limit);
  }

  /** A limit written as a plain number is rendered unchanged. */
  lemma TooLongMessageOfNumber(field: string, n: nat)
    ensures Message(Failure(FieldTooLong, field, Decimal(n)))
         == "The " + field + " field is too long. " + Decimal(n) + " character maximum."
  {
    TooLongMessage(field, Decimal(n));
    LeadingIntOfDecimal(n);
  }

  lemma ContentLimitText()
    ensures " field is too long. " + "20" + " character maximum." == " field is too long. 20 character maximum."
  {
  }

  lemma TwentyThousandIsTwenty()
    ensures Decimal(LeadingInt("20,000")) == "20"
  {
    assert LeadingDigits("20,000") == "20";
    assert DigitsValue("20") == 20 by {
      assert "20"[..1] == "2";
    }
  }

  /** The content-length message: `%d` of "20,000" is 20. */
  lemma ContentTooLongMessage(field: string)
    ensures Message(Failure(FieldTooLong, field, "20,000"))
         == "The " + field + " field is too long. 20 character maximum."
  {
    TooLongMessage(field, "20,000");
    TwentyThousandIsTwenty();
    RegroupTail("The ", field, " field is too long. ", "20", " character maximum.");
    ContentLimitText();
  }

  /** The empty-field message names the field twice. */
  lemma EmptyMessage(field: string)
    ensures Message(Failure(FieldEmpty, field, field))
         == "The " + field + " is empty. Please specify a valid " + field + "."
  {
    FormatTwo("The ", "%s", " is empty. Please specify a valid ", ".", field, field);
  }

  /** The invalid-field message names the field and what it should be. */
  lemma InvalidMessage(field: string, what: string)
    ensures Message(Failure(InvalidField, field, what))
         == "Invalid or incomplete " + field + ". Please specify a valid " + what + "."
  {
    FormatTwo("Invalid or incomplete ", "%s", ". Please specify a valid ", ".", field, what);
  }

  /** The throttle message names the action and the wait. */
  lemma ThrottledMessage(action: string, wait: string)
    ensures Message(Failure(ActionThrottled, action, wait))
         == "You are attempting to " + action + " too quickly! Please wait " + wait + " and try again."
  {
    FormatTwo("You are attempting to ", "%s", " too quickly! Please wait ", " and try again.", action, wait);
  }

  const BodyOpen: Bytes := Ascii("{ \"field\": \"")
  const ErrorMid: Bytes := Ascii("\", \"error\": \"")
  const StatusClose: Bytes := Ascii("\", \"status\": \"error\" }")

  /** The body `set_error` echoes: the field and the message spliced in without JSON escaping. */
  function ErrorBody(f: Failure): (b: Bytes)
    ensures |b| >= |BodyOpen| && b[..|BodyOpen|] == BodyOpen
    ensures |b| >= |Ascii(f.field)| + |Ascii(Message(f))| + |BodyOpen|
    ensures |b| >= |StatusClose| && b[|b| - |StatusClose|..] == StatusClose
  {
    BodyOpen + Ascii(f.field) + ErrorMid + Ascii(Message(f)) + StatusClose
  }

  /** The field a body names: the bytes after `{ "field": "` up to the next double quote. */
  function FieldOf(body: Bytes): Bytes
  {
    if |body| < |BodyOpen| then [] else TakeUntilQuote(body[|BodyOpen|..])
  }

  /** The field of an error body can be read back from it, whatever the message says. */
  lemma FieldOfErrorBody(f: Failure)
    requires '"' !in f.field
    ensures FieldOf(ErrorBody(f)) == Ascii(f.field)
  {
    var rest := ErrorMid + Ascii(Message(f)) + StatusClose;
    assert ErrorBody(f) == BodyOpen + Ascii(f.field) + rest;
    AsciiQuoteFree(f.field);
    QuotedAfter(BodyOpen, Ascii(f.field), rest);
  }

  /** The message a body carries: the bytes after the field, its closing quote and `, "error": "`, up to the next double quote. */
  function MessageOf(body: Bytes): Bytes
  {
    var start := |BodyOpen| + |FieldOf(body)| + |ErrorMid|;
    if |body| < start then [] else TakeUntilQuote(body[start..])
  }

  /** With a quote-free field and message, both read back from the body, and it closes with the status. */
  lemma MessageOfErrorBody(f: Failure)
    requires '"' !in f.field && '"' !in Message(f)
    ensures MessageOf(ErrorBody(f)) == Ascii(Message(f))
  {
    FieldOfErrorBody(f);
    var pre := BodyOpen + Ascii(f.field) + ErrorMid;
    assert ErrorBody(f) == pre + Ascii(Message(f)) + StatusClose;
    AsciiQuoteFree(Message(f));
    QuotedAfter(pre, Ascii(Message(f)), StatusClose);
  }
}
