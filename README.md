# User record validation and normalisation

This project models the rule set that decides whether a user record of the
sample application may be stored in the users table, and in what form
(`app/models/user.rb`):

- the name must be present (not empty, not whitespace only) and at most 64
  characters long;
- the email must be present, at most 128 characters long, match the anchored,
  case-insensitive pattern `\A[\w+\-.]+@[a-z\d\-.]+\.[a-z]+\z`, and be unique
  among the stored users ignoring case;
- just before the row is written, the email is lower-cased.

The model has four modules:

- `Ascii` (`ascii.dfy`): the character classes the rules use (`\w`, `\d`,
  `[a-z]` under `/i`, whitespace) and `String#downcase`, on ASCII.
- `EmailFormat` (`email_format.dfy`): the pattern twice over. `MatchesPattern`
  is its meaning: some cut of the string into local part, `@`, domain, final
  `.` and letters exists. `IsEmail` is the recogniser: it makes the one cut
  that can work, at the first `@` and the last `.`. The two are proved equal,
  and the shape facts and the case-insensitivity are proved about them.
- `UserValidation` (`user_validation.dfy`): every rule is applied, in the
  order it is declared. Each failing rule adds one error to the list a save
  reports (`Blank`, `TooLong`, `Invalid`, `Taken`, each tagged with its
  attribute). The record is accepted exactly when the list is empty.
- `UserTable` (`user_table.dfy`): the users table as a class `Users`. It
  holds a sequence of rows and the next id. `Create` inserts a new record and
  `Update` overwrites a stored one. Both reject with the error list and leave
  the table untouched, or write the row with its email lower-cased. The
  object invariant says every stored row passes presence, length and format,
  stores a lower-case email, and that ids and emails are pairwise distinct.

Points where the model makes a choice the source leaves implicit:

- Uniqueness compares lower-cased emails. On an update it looks only at the
  other rows, since a record never collides with itself.
- Format and uniqueness are also checked on a blank email. So a blank email
  draws `Blank`, then `Invalid` (and `Taken` if some other row matched).
- Ids are handed out from 1 upwards. A rejected save uses up no id.

## Model

| member | source | states |
|---|---|---|
| `Ascii.LowerChar` | app/models/user.rb:8 | lower-casing leaves no upper-case letter, keeps letters letters, changes nothing but upper-case letters, and maps each of those to the same letter in lower case |
| `Ascii.Lower` | app/models/user.rb:8 | `email.downcase`: the result has the input's length and no upper-case letter; it is `LowerChar` applied to each character (specified further by `LowerIsLowercase` and `LowerIdempotent`) |
| `Ascii.LowerIsLowercase` | app/models/user.rb:8 | a lower-cased string has no upper-case letter, and lower-casing leaves a string unchanged exactly when it has none |
| `Ascii.LowerIdempotent` | app/models/user.rb:8 | lower-casing twice gives the same as once, so re-saving an already lower-cased email leaves it as it is |
| `EmailFormat.MatchesPattern` | app/models/user.rb:2 | the meaning of the anchored pattern: some `@` at index `at` and `.` at index `dot` cut the string into a non-empty `[\w+\-.]` run, `@`, a non-empty `[a-z\d\-.]` run, `.`, and a non-empty run of letters (a definition) |
| `EmailFormat.IsEmail` | app/models/user.rb:2-5 | the format check run by `format: {with: VALID_EMAIL_REGEX}`: the cut at the first `@` and the last `.` matches; it accepts exactly the strings `MatchesPattern` accepts (`IsEmailIffPattern`) |
| `EmailFormat.SplitIsUnique` | app/models/user.rb:2 | the pattern can match one way only: its `@` is the first `@` of the string and its final `.` the last `.` |
| `EmailFormat.IsEmailIffPattern` | app/models/user.rb:2 | the recogniser accepts a string if and only if the anchored pattern matches it |
| `EmailFormat.AcceptedHasOneAt` | app/models/user.rb:2 | every accepted string contains exactly one `@`, preceded by a non-empty run of letters, digits, `_`, `+`, `-`, `.` |
| `EmailFormat.AcceptedEndsInLetters` | app/models/user.rb:2 | in every accepted string the text after the last `.` is a non-empty run of letters, and at least one domain character lies between `@` and that `.` |
| `EmailFormat.AcceptsParts` | app/models/user.rb:2 | any local part, `@`, domain, `.` and letters form an accepted string, whatever dots the domain holds |
| `EmailFormat.RepeatedDotsAccepted` | app/models/user.rb:2 | consecutive dots in the domain are not rejected: `a@b..com` is accepted |
| `EmailFormat.SampleAddressAccepted` | spec/requests/user_pages_spec.rb:80 | the address the profile-edit scenario saves, `new@email.com`, is accepted |
| `EmailFormat.PartsIgnoreCase` | app/models/user.rb:2 | under the `/i` flag each character class of the pattern accepts a string exactly when it accepts its lower-cased form |
| `EmailFormat.SplitsAtLower` | app/models/user.rb:2 | a cut of the string matches the pattern exactly when the same cut of the lower-cased string does |
| `EmailFormat.IsEmailIgnoresCase` | app/models/user.rb:2 | a string is accepted if and only if its lower-cased form is accepted |
| `UserValidation.IsBlank` | app/models/user.rb:4-5 | the failure of `presence: true`: the string is empty or holds only whitespace (a definition; `LowerKeepsBlank` and `EmailIsNotBlank` state its properties) |
| `UserValidation.IsTaken` | app/models/user.rb:6 | the uniqueness query of `case_sensitive: false`: some email of the other stored rows equals the given one once both are lower-cased (a definition; `IsTakenIgnoresCase` and `DuplicateRejected` state its properties) |
| `UserValidation.ValidFields` | app/models/user.rb:4-5 | presence, length and format of both fields hold, uniqueness aside (a definition; `Validate` is empty exactly when it holds and the email is not taken) |
| `UserValidation.Collect` | app/models/user.rb:4-6 | the error list holds exactly the errors of the failing rules, is no longer than the rule list, and is empty exactly when no rule fails |
| `UserValidation.NameErrors` | app/models/user.rb:4 | the name draws `Blank` exactly when it is empty or whitespace only, `TooLong` exactly when it is over 64 characters, no other error, and no error at all exactly when neither holds |
| `UserValidation.EmailRuleErrors` | app/models/user.rb:5-6 | the email's error list holds each of `Blank`, `TooLong`, `Invalid`, `Taken` exactly when that rule failed, holds no other error, and is empty exactly when none failed |
| `UserValidation.EmailErrors` | app/models/user.rb:5-6 | the email draws `Blank` iff blank, `TooLong` iff over 128 characters, `Invalid` iff the pattern rejects it, `Taken` iff another stored email equals it ignoring case; no other error; no error at all iff it passes all four |
| `UserValidation.Validate` | app/models/user.rb:4-6 | a record is accepted if and only if its name is non-blank and at most 64 characters, its email non-blank, at most 128 characters and of the email shape, and no other stored email equals it ignoring case; each rule's error is reported exactly when that rule fails, no other error appears, and there are at most six |
| `UserValidation.EmptySubmissionRejected` | spec/requests/user_pages_spec.rb:28-31 | an empty sign-up form is rejected with `Blank` on both fields and `Invalid` on the email |
| `UserValidation.EmailIsNotBlank` | app/models/user.rb:2-5 | every email of the accepted shape is non-blank |
| `UserValidation.LowerKeepsBlank` | app/models/user.rb:5-8 | lower-casing keeps a string blank or non-blank |
| `UserValidation.LowerKeepsValid` | app/models/user.rb:4-8 | the record as written, email lower-cased, still passes presence, length and format |
| `UserValidation.IsTakenIgnoresCase` | app/models/user.rb:6 | an email is taken if and only if its lower-cased form is taken |
| `UserTable.TableInvariant` | app/models/user.rb:4-8 | what holds between saves: every row passes presence, length and format and stores a lower-case email, ids are below the next id and pairwise distinct, and emails are pairwise distinct (a definition; kept by `InsertKeepsInvariant` and `ReplaceKeepsInvariant`) |
| `UserTable.StoredEmailsDistinctIgnoringCase` | app/models/user.rb:6-8 | in a table satisfying the invariant no two stored emails are equal even ignoring case |
| `UserTable.StoredEmailDiffers` | app/models/user.rb:6-8 | a lower-case stored email that differs from a new email ignoring case differs from the email as it would be written |
| `UserTable.SavedIsStored` | app/models/user.rb:4-8 | the row a successful save writes passes presence, length and format and holds a lower-case email |
| `UserTable.InsertKeepsEmailsDistinct` | app/models/user.rb:6-8 | inserting an email not taken ignoring case keeps the stored emails pairwise distinct |
| `UserTable.ReplaceKeepsEmailsDistinct` | app/models/user.rb:6-8 | overwriting a row with an email no other row holds ignoring case keeps the stored emails pairwise distinct |
| `UserTable.InsertKeepsInvariant` | app/models/user.rb:4-8 | inserting an accepted record, email lower-cased, under the next id keeps the table invariant |
| `UserTable.ReplaceKeepsInvariant` | app/models/user.rb:4-8 | overwriting a row with a record accepted against the other rows keeps the table invariant |
| `UserTable.DuplicateRejected` | app/models/user.rb:5-6 | a record whose email equals a stored email ignoring case is reported as `Taken` |
| `UserTable.ResaveAccepted` | app/models/user.rb:4-8 | saving a stored row again unchanged passes every rule and writes the same row |
| `UserTable.Users.Valid` | app/models/user.rb:4-8 | the object invariant of the users table: its rows and next id satisfy `TableInvariant` |
| `UserTable.Users.Count` | spec/requests/user_pages_spec.rb:29-47 | `User.count`: the number of stored rows, which `Create` raises by one on success and leaves alone on rejection |
| `UserTable.Users.constructor` | app/models/user.rb:1 | an empty table satisfies the invariant |
| `UserTable.Users.Create` | app/models/user.rb:4-8 | keeps the invariant; a rejected record leaves the rows and the count unchanged and returns the error list; an accepted one is appended with the next id and its email lower-cased, raising the count by one; an email already stored, ignoring case, is always rejected as `Taken` |
| `UserTable.Users.Update` | app/models/user.rb:4-8 | keeps the invariant and the count; a rejected record leaves the rows unchanged and returns the error list; an accepted one overwrites the row with that id, email lower-cased; re-saving the stored values succeeds and changes nothing |

The tests of `spec/requests/user_pages_spec.rb` lines 29-31 and 46-48 (an
invalid sign-up leaves the user count unchanged, a valid one raises it by one)
are the `Count()` postcondition of `UserTable.Users.Create`.

## Left out

- Password, password confirmation, the remember token, and the confirmation
  and reset hashes: the model file declares no rule for them
  (`has_secure_password` and the token code are not part of this model).
- The controllers, the mailer and the queued mail worker: request handling,
  email delivery and background jobs, with no rule of the user record in them.
  This covers confirmation, password reset, following and account deletion.
  The migrations only declare columns.
- Unicode: character classes, the blank test and lower-casing are modelled on
  ASCII only. Ruby's `[[:space:]]` also counts Unicode spaces as blank. Its
  `/i` flag and `downcase` also fold non-ASCII letters. The model treats every
  non-ASCII character as outside all classes and leaves it unchanged.
- `nil` field values: a field is modelled as a string. A missing value behaves
  as the empty string, which is blank too.
- Concurrency: two saves racing past the uniqueness query at once are not
  modelled. The table is changed by one save at a time.
- The in-memory record after a failed `update_attributes`: it keeps the
  rejected values in the object, while the table is unchanged. Only the table
  is modelled.
- Lookup of the record to update: `UserTable.Users.Update` requires that the
  id be stored, since an update starts from a record loaded from the table.
- Error message texts: an error is modelled by its kind, its attribute and,
  for `TooLong`, its maximum.
