/**
 * `request_handler::validate`: seven field checks, in a fixed order, the first
 * failing one reported. The URL and e-mail validators (`filter_var` with
 * FILTER_VALIDATE_URL / FILTER_VALIDATE_EMAIL) are parameters.
 */
module Validation {
  import opened Prelude
  import opened Store
  import opened Errors

  const AuthorMax := 250
  const WebsiteMax := 200
  const EmailMax := 100
  const ContentMax := 50000

  /** The if / else-if chain of `validate`; None means it returns true. */
  function Validate(s: Submission, isUrl: Bytes -> bool, isEmail: Bytes -> bool): (r: Option<Failure>)
    ensures r.None? <==> forall k :: 0 <= k < RuleCount ==> Passes(k, s, isUrl, isEmail)
  {
    if |s.author| > AuthorMax then
      assert !Passes(0, s, isUrl, isEmail);
      Some(Failure(FieldTooLong, "author", "250"))
    else if !Blank(s.website) && !isUrl(s.website) then
      assert !Passes(1, s, isUrl, isEmail);
      Some(Failure(InvalidField, "website", "hyperlink"))
    else if |s.website| > WebsiteMax then
      assert !Passes(2, s, isUrl, isEmail);
      Some(Failure(FieldTooLong, "website", "200"))
    else if !Blank(s.email) && !isEmail(s.email) then
      assert !Passes(3, s, isUrl, isEmail);
      Some(Failure(InvalidField, "email", "email"))
    else if |s.email| > EmailMax then
      assert !Passes(4, s, isUrl, isEmail);
      Some(Failure(FieldTooLong, "email", "100"))
    else if Blank(s.content) then
      assert !Passes(5, s, isUrl, isEmail);
      Some(Failure(FieldEmpty, "comment", "comment"))
    else if |s.content| > ContentMax then
      assert !Passes(6, s, isUrl, isEmail);
      Some(Failure(FieldTooLong, "content", "20,000"))
    else None
  }

  // The same rules as a table: rule k, whether it holds, and what it reports.

  const RuleCount := 7

  predicate Passes(k: nat, s: Submission, isUrl: Bytes -> bool, isEmail: Bytes -> bool)
    requires k < RuleCount
  {
    match k
    case 0 => |s.author| <= AuthorMax
    case 1 => Blank(s.website) || isUrl(s.website)
    case 2 => |s.website| <= WebsiteMax
    case 3 => Blank(s.email) || isEmail(s.email)
    case 4 => |s.email| <= EmailMax
    case 5 => !Blank(s.content)
    case _ => |s.content| <= ContentMax
  }

  /** What rule k reports; the content-length message names 20,000 although the limit is 50000. */
  function RuleFailure(k: nat): Failure
    requires k < RuleCount
  {
    match k
    case 0 => Failure(FieldTooLong, "author", "250")
    case 1 => Failure(InvalidField, "website", "hyperlink")
    case 2 => Failure(FieldTooLong, "website", "200")
    case 3 => Failure(InvalidField, "email", "email")
    case 4 => Failure(FieldTooLong, "email", "100")
    case 5 => Failure(FieldEmpty, "comment", "comment")
    case _ => Failure(FieldTooLong, "content", "20,000")
  }

  /** Every field a rule names can be spliced between double quotes. */
  lemma RuleFieldsQuoteFree(k: nat)
    requires k < RuleCount
    ensures '"' !in RuleFailure(k).field
  {
  }

  /** Rule k fails and every earlier rule holds. */
  predicate FirstBroken(k: nat, s: Submission, isUrl: Bytes -> bool, isEmail: Bytes -> bool)
    requires k < RuleCount
  {
    !Passes(k, s, isUrl, isEmail) && forall j :: 0 <= j < k ==> Passes(j, s, isUrl, isEmail)
  }

  /** The report is the first broken rule's, never a later one's, whatever else is also broken. */
  lemma FirstBrokenIsReported(k: nat, s: Submission, isUrl: Bytes -> bool, isEmail: Bytes -> bool)
    requires k < RuleCount && FirstBroken(k, s, isUrl, isEmail)
    ensures Validate(s, isUrl, isEmail) == Some(RuleFailure(k))
  {
    // Each earlier rule, named by its number, holds.
    if k > 0 { assert Passes(0, s, isUrl, isEmail); }
    if k > 1 { assert Passes(1, s, isUrl, isEmail); }
    if k > 2 { assert Passes(2, s, isUrl, isEmail); }
    if k > 3 { assert Passes(3, s, isUrl, isEmail); }
    if k > 4 { assert Passes(4, s, isUrl, isEmail); }
    if k > 5 { assert Passes(5, s, isUrl, isEmail); }
  }

  /** The rule a report comes from: every report is the failure of the first broken rule. */
  function ReportedRule(s: Submission, isUrl: Bytes -> bool, isEmail: Bytes -> bool): (k: nat)
    requires Validate(s, isUrl, isEmail).Some?
    ensures k < RuleCount && FirstBroken(k, s, isUrl, isEmail)
    ensures Validate(s, isUrl, isEmail) == Some(RuleFailure(k))
  {
    if !Passes(0, s, isUrl, isEmail) then 0
    else if !Passes(1, s, isUrl, isEmail) then 1
    else if !Passes(2, s, isUrl, isEmail) then 2
    else if !Passes(3, s, isUrl, isEmail) then 3
    else if !Passes(4, s, isUrl, isEmail) then 4
    else if !Passes(5, s, isUrl, isEmail) then 5
    else 6
  }
}
