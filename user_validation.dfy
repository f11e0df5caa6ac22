/** The validations declared on the user record: `name` must be present and
    at most 64 characters long; `email` must be present, at most 128
    characters long, of the email shape, and unique among the other stored
    users ignoring case. Every rule is checked and each failing rule adds one
    error, in the order the rules are declared. */
module UserValidation {
  import opened Ascii
  import opened EmailFormat

  const NameMaximum: nat := 64
  const EmailMaximum: nat := 128

  datatype Attribute = Name | Email

  datatype Error =
    | Blank(attribute: Attribute)
    | TooLong(attribute: Attribute, maximum: nat)
    | Invalid(attribute: Attribute)
    | Taken(attribute: Attribute)

  /** The `presence` rule fails on an empty or whitespace-only string. */
  predicate IsBlank(s: string) { forall k | 0 <= k < |s| :: IsSpace(s[k]) }

  /** The comparison `case_sensitive: false` asks for: equal once both sides
      are lower-cased. */
  predicate SameIgnoringCase(a: string, b: string) { Lower(a) == Lower(b) }

  /** The uniqueness query: some email in `others` equals `email` ignoring case. */
  predicate IsTaken(email: string, others: seq<string>) {
    exists k | 0 <= k < |others| :: SameIgnoringCase(others[k], email)
  }

  /** Presence, length and format of both fields (uniqueness aside). */
  predicate ValidFields(name: string, email: string) {
    !IsBlank(name) && |name| <= NameMaximum &&
    !IsBlank(email) && |email| <= EmailMaximum && IsEmail(email)
  }

  /** One declared rule applied to a value: whether it fails, and the error
      it then adds. */
  datatype Outcome = Outcome(fails: bool, error: Error)

  /** The error list of a save: every rule is applied, in declaration order,
      and each failing rule adds its error. */
  function Collect(outcomes: seq<Outcome>): (errors: seq<Error>)
    ensures |errors| <= |outcomes|
    ensures forall e :: e in errors <==>
      exists k | 0 <= k < |outcomes| :: outcomes[k].fails && outcomes[k].error == e
    ensures errors == [] <==> forall k | 0 <= k < |outcomes| :: !outcomes[k].fails
  {
    if outcomes == [] then []
    else
      var rest := Collect(outcomes[1..]);
      assert forall k | 1 <= k < |outcomes| :: outcomes[k] == outcomes[1..][k - 1];
      if outcomes[0].fails then [outcomes[0].error] + rest else rest
  }

  /** The `name` rules: presence, then length. */
  function NameErrors(name: string): (errors: seq<Error>)
    ensures forall e | e in errors :: e == Blank(Name) || e == TooLong(Name, NameMaximum)
    ensures Blank(Name) in errors <==> IsBlank(name)
    ensures TooLong(Name, NameMaximum) in errors <==> |name| > NameMaximum
    ensures errors == [] <==> !IsBlank(name) && |name| <= NameMaximum
  {
    var outcomes := [Outcome(IsBlank(name), Blank(Name)),
                     Outcome(|name| > NameMaximum, TooLong(Name, NameMaximum))];
    assert outcomes[0].fails == IsBlank(name) && outcomes[1].fails == (|name| > NameMaximum);
    Collect(outcomes)
  }

  /** The `email` rules' error list from the outcomes of presence, length,
      format and uniqueness, in that order. */
  function EmailRuleErrors(blank: bool, tooLong: bool, invalid: bool, taken: bool): (errors: seq<Error>)
    ensures forall e | e in errors ::
      e == Blank(Email) || e == TooLong(Email, EmailMaximum) || e == Invalid(Email) || e == Taken(Email)
    ensures Blank(Email) in errors <==> blank
    ensures TooLong(Email, EmailMaximum) in errors <==> tooLong
    ensures Invalid(Email) in errors <==> invalid
    ensures Taken(Email) in errors <==> taken
    ensures errors == [] <==> !blank && !tooLong && !invalid && !taken
  {
    var outcomes := [Outcome(blank, Blank(Email)),
                     Outcome(tooLong, TooLong(Email, EmailMaximum)),
                     Outcome(invalid, Invalid(Email)),
                     Outcome(taken, Taken(Email))];
    assert outcomes[0].fails == blank && outcomes[1].fails == tooLong;
    assert outcomes[2].fails == invalid && outcomes[3].fails == taken;
    Collect(outcomes)
  }

  /** The `email` rules applied to `email`, uniqueness against `others`. */
  function EmailErrors(email: string, others: seq<string>): (errors: seq<Error>)
    ensures forall e | e in errors ::
      e == Blank(Email) || e == TooLong(Email, EmailMaximum) || e == Invalid(Email) || e == Taken(Email)
    ensures Blank(Email) in errors <==> IsBlank(email)
    ensures TooLong(Email, EmailMaximum) in errors <==> |email| > EmailMaximum
    ensures Invalid(Email) in errors <==> !IsEmail(email)
    ensures Taken(Email) in errors <==> IsTaken(email, others)
    ensures errors == [] <==>
      !IsBlank(email) && |email| <= EmailMaximum && IsEmail(email) && !IsTaken(email, others)
  {
    EmailRuleErrors(IsBlank(email), |email| > EmailMaximum, !IsEmail(email), IsTaken(email, others))
  }

  /** The errors a save reports, given the emails of the other stored users. */
  function Validate(name: string, email: string, others: seq<string>): (errors: seq<Error>)
    ensures errors == [] <==> ValidFields(name, email) && !IsTaken(email, others)
    ensures Blank(Name) in errors <==> IsBlank(name)
    ensures TooLong(Name, NameMaximum) in errors <==> |name| > NameMaximum
    ensures Blank(Email) in errors <==> IsBlank(email)
    ensures TooLong(Email, EmailMaximum) in errors <==> |email| > EmailMaximum
    ensures Invalid(Email) in errors <==> !IsEmail(email)
    ensures Taken(Email) in errors <==> IsTaken(email, others)
    ensures forall e | e in errors ::
      e == Blank(Name) || e == TooLong(Name, NameMaximum) ||
      e == Blank(Email) || e == TooLong(Email, EmailMaximum) || e == Invalid(Email) || e == Taken(Email)
    ensures |errors| <= 6
  {
    NameErrors(name) + EmailErrors(email, others)
  }

  /** An empty sign-up form is rejected: both fields are blank and the email
      is not of the email shape. */
  lemma EmptySubmissionRejected(others: seq<string>)
    ensures var errors := Validate("", "", others);
      Blank(Name) in errors && Blank(Email) in errors && Invalid(Email) in errors
  {
  }

  /** Every accepted email is non-blank: the format rule alone rejects a
      blank email, so a blank email draws both errors. */
  lemma EmailIsNotBlank(email: string)
    requires IsEmail(email)
    ensures !IsBlank(email)
  {
    assert email[IndexOf(email, '@')] == '@';
  }

  /** Lower-casing keeps a string blank or non-blank. */
  lemma LowerKeepsBlank(s: string)
    ensures IsBlank(Lower(s)) <==> IsBlank(s)
  {
    if IsBlank(Lower(s)) {
      forall k | 0 <= k < |s| ensures IsSpace(s[k]) {
        assert IsSpace(Lower(s)[k]);
      }
    }
  }

  /** The record the save writes, with its email lower-cased, still passes
      presence, length and format. */
  lemma LowerKeepsValid(name: string, email: string)
    requires ValidFields(name, email)
    ensures ValidFields(name, Lower(email))
  {
    LowerKeepsBlank(email);
    IsEmailIgnoresCase(email);
  }

  /** Uniqueness ignores case on the submitted side. */
  lemma IsTakenIgnoresCase(email: string, others: seq<string>)
    ensures IsTaken(email, others) <==> IsTaken(Lower(email), others)
  {
    LowerIdempotent(email);
  }
}
