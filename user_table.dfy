/** The users table and the two saves the user record goes through: a new
    record is inserted, an existing one is updated. A save first runs the
    validations (uniqueness of the email is asked of the other stored rows),
    and only when they all pass does it lower-case the email and write the
    row. */
module UserTable {
  import opened Ascii
  import opened UserValidation

  /** A stored row of the users table. */
  datatype User = User(id: nat, name: string, email: string)

  /** What a save gives back: the row it wrote, or the validation errors. */
  datatype SaveResult = Saved(user: User) | Rejected(errors: seq<Error>)

  function Emails(rows: seq<User>): seq<string> {
    seq(|rows|, k requires 0 <= k < |rows| => rows[k].email)
  }

  /** Every row except row `k`: the rows the uniqueness query looks at when
      row `k` is saved again. */
  function Others(rows: seq<User>, k: int): seq<User>
    requires 0 <= k < |rows|
  {
    rows[..k] + rows[k + 1..]
  }

  /** A row as a save leaves it: its fields pass presence, length and format,
      and its email is lower-case. */
  predicate IsStored(u: User) { ValidFields(u.name, u.email) && IsLowercase(u.email) }

  predicate IdsDistinct(rows: seq<User>) {
    forall i, j | 0 <= i < j < |rows| :: rows[i].id != rows[j].id
  }

  predicate EmailsDistinct(rows: seq<User>) {
    forall i, j | 0 <= i < j < |rows| :: rows[i].email != rows[j].email
  }

  predicate AllStored(rows: seq<User>) {
    forall k | 0 <= k < |rows| :: IsStored(rows[k])
  }

  predicate IdsBelow(rows: seq<User>, bound: nat) {
    forall k | 0 <= k < |rows| :: rows[k].id < bound
  }

  /** What holds of the table between saves; `nextId` is the id the next
      insert receives. */
  predicate TableInvariant(rows: seq<User>, nextId: nat) {
    AllStored(rows) && IdsBelow(rows, nextId) && IdsDistinct(rows) && EmailsDistinct(rows)
  }

  /** Position of the row with id `id`, or -1 when there is none. */
  function IndexOfId(rows: seq<User>, id: nat): (k: int)
    ensures -1 <= k < |rows|
    ensures 0 <= k ==> rows[k].id == id
    ensures k < 0 <==> forall j | 0 <= j < |rows| :: rows[j].id != id
  {
    if rows == [] then -1
    else if rows[|rows| - 1].id == id then |rows| - 1
    else IndexOfId(rows[..|rows| - 1], id)
  }

  /** A stored row's email differs from a new email exactly when it differs
      ignoring case, the stored one being lower-case already. */
  lemma StoredEmailDiffers(stored: string, email: string)
    requires IsLowercase(stored) && !SameIgnoringCase(stored, email)
    ensures stored != Lower(email)
  {
    LowerIsLowercase(stored);
  }

  /** The row a save writes is a stored row. */
  lemma SavedIsStored(id: nat, name: string, email: string)
    requires ValidFields(name, email)
    ensures IsStored(User(id, name, Lower(email)))
  {
    LowerKeepsValid(name, email);
    LowerIsLowercase(email);
  }

  lemma AppendKeepsStored(rows: seq<User>, u: User)
    requires AllStored(rows) && IsStored(u)
    ensures AllStored(rows + [u])
  {
    forall k | 0 <= k < |rows| + 1 ensures IsStored((rows + [u])[k]) {
      if k < |rows| { assert (rows + [u])[k] == rows[k]; }
    }
  }

  lemma ReplaceKeepsStored(rows: seq<User>, k: int, u: User)
    requires AllStored(rows) && IsStored(u) && 0 <= k < |rows|
    ensures AllStored(rows[k := u])
  {
    var rows' := rows[k := u];
    forall i | 0 <= i < |rows'| ensures IsStored(rows'[i]) {
      if i != k { assert rows'[i] == rows[i]; }
    }
  }

  /** A row with a fresh id keeps the ids distinct and below the next id. */
  lemma AppendKeepsIds(rows: seq<User>, nextId: nat, u: User)
    requires IdsBelow(rows, nextId) && IdsDistinct(rows) && u.id == nextId
    ensures IdsBelow(rows + [u], nextId + 1) && IdsDistinct(rows + [u])
  {
  }

  /** A row written over row `k` with row `k`'s id keeps the ids as they were. */
  lemma ReplaceKeepsIds(rows: seq<User>, nextId: nat, k: int, u: User)
    requires IdsBelow(rows, nextId) && IdsDistinct(rows) && 0 <= k < |rows| && u.id == rows[k].id
    ensures IdsBelow(rows[k := u], nextId) && IdsDistinct(rows[k := u])
  {
  }

  /** An email no stored row holds, ignoring case, is distinct from every
      stored email once lower-cased. */
  lemma InsertKeepsEmailsDistinct(rows: seq<User>, u: User, email: string)
    requires AllStored(rows) && EmailsDistinct(rows)
    requires !IsTaken(email, Emails(rows)) && u.email == Lower(email)
    ensures EmailsDistinct(rows + [u])
  {
    forall i | 0 <= i < |rows| ensures rows[i].email != u.email {
      assert Emails(rows)[i] == rows[i].email;
      assert IsStored(rows[i]);
      StoredEmailDiffers(rows[i].email, email);
    }
  }

  /** The same, for an email written over row `k` and checked against the
      other rows. */
  lemma ReplaceKeepsEmailsDistinct(rows: seq<User>, k: int, u: User, email: string)
    requires AllStored(rows) && EmailsDistinct(rows) && 0 <= k < |rows|
    requires !IsTaken(email, Emails(Others(rows, k))) && u.email == Lower(email)
    ensures EmailsDistinct(rows[k := u])
  {
    var others := Others(rows, k);
    forall i | 0 <= i < |rows| && i != k ensures rows[i].email != u.email {
      var j := if i < k then i else i - 1;
      assert others[j] == rows[i];
      assert Emails(others)[j] == rows[i].email;
      assert IsStored(rows[i]);
      StoredEmailDiffers(rows[i].email, email);
    }
  }

  /** Inserting a record that passed validation keeps the table invariant. */
  lemma InsertKeepsInvariant(rows: seq<User>, nextId: nat, name: string, email: string)
    requires TableInvariant(rows, nextId)
    requires ValidFields(name, email) && !IsTaken(email, Emails(rows))
    ensures TableInvariant(rows + [User(nextId, name, Lower(email))], nextId + 1)
  {
    var u := User(nextId, name, Lower(email));
    SavedIsStored(nextId, name, email);
    AppendKeepsStored(rows, u);
    AppendKeepsIds(rows, nextId, u);
    InsertKeepsEmailsDistinct(rows, u, email);
  }

  /** Overwriting row `k` with a record that passed validation against the
      other rows keeps the table invariant. */
  lemma ReplaceKeepsInvariant(rows: seq<User>, nextId: nat, k: int, name: string, email: string)
    requires TableInvariant(rows, nextId) && 0 <= k < |rows|
    requires ValidFields(name, email) && !IsTaken(email, Emails(Others(rows, k)))
    ensures TableInvariant(rows[k := User(rows[k].id, name, Lower(email))], nextId)
  {
    var u := User(rows[k].id, name, Lower(email));
    SavedIsStored(rows[k].id, name, email);
    ReplaceKeepsStored(rows, k, u);
    ReplaceKeepsIds(rows, nextId, k, u);
    ReplaceKeepsEmailsDistinct(rows, k, u, email);
  }

  /** Stored emails are pairwise distinct even ignoring case, which is what
      the uniqueness rule promises of the table. */
  lemma StoredEmailsDistinctIgnoringCase(rows: seq<User>, nextId: nat)
    requires TableInvariant(rows, nextId)
    ensures forall i, j | 0 <= i < j < |rows| :: !SameIgnoringCase(rows[i].email, rows[j].email)
  {
    forall i, j | 0 <= i < j < |rows| ensures !SameIgnoringCase(rows[i].email, rows[j].email) {
      assert IsStored(rows[i]) && IsStored(rows[j]);
      LowerIsLowercase(rows[i].email);
      LowerIsLowercase(rows[j].email);
    }
  }

  /** A record whose email equals a stored one ignoring case is rejected as
      taken. */
  lemma DuplicateRejected(rows: seq<User>, k: int, name: string, email: string)
    requires 0 <= k < |rows| && SameIgnoringCase(rows[k].email, email)
    ensures Taken(Email) in Validate(name, email, Emails(rows))
  {
    assert Emails(rows)[k] == rows[k].email;
  }

  /** Saving a stored row again, unchanged, passes validation and writes the
      same row. */
  lemma ResaveAccepted(rows: seq<User>, nextId: nat, k: int)
    requires TableInvariant(rows, nextId) && 0 <= k < |rows|
    ensures Validate(rows[k].name, rows[k].email, Emails(Others(rows, k))) == []
    ensures rows[k := User(rows[k].id, rows[k].name, Lower(rows[k].email))] == rows
  {
    var u := rows[k];
    var others := Others(rows, k);
    LowerIsLowercase(u.email);
    forall j | 0 <= j < |others| ensures !SameIgnoringCase(Emails(others)[j], u.email) {
      var i := if j < k then j else j + 1;
      assert others[j] == rows[i];
      LowerIsLowercase(rows[i].email);
    }
  }

  /** The users table. */
  class Users {
    var rows: seq<User>
    var nextId: nat

    ghost predicate Valid()
      reads this
    {
      TableInvariant(rows, nextId)
    }

    /** `User.count` */
    function Count(): nat
      reads this
    {
      |rows|
    }

    constructor ()
      ensures Valid() && rows == [] && nextId == 1
    {
      rows := [];
      nextId := 1;
    }

    /** Saves a new record: rejected with the validation errors, leaving the
        table as it was, or inserted with the next id and its email
        lower-cased. */
    method Create(name: string, email: string) returns (r: SaveResult)
      requires Valid()
      modifies this
      ensures Valid()
      ensures var errors := Validate(name, email, Emails(old(rows)));
        if errors == [] then
          r == Saved(User(old(nextId), name, Lower(email))) &&
          rows == old(rows) + [r.user] && nextId == old(nextId) + 1
        else
          r == Rejected(errors) && rows == old(rows) && nextId == old(nextId)
      ensures Count() == old(Count()) + (if r.Saved? then 1 else 0)
      ensures (exists k | 0 <= k < |old(rows)| :: SameIgnoringCase(old(rows)[k].email, email)) ==>
        r.Rejected? && Taken(Email) in r.errors
    {
      var errors := Validate(name, email, Emails(rows));
      if (exists k | 0 <= k < |rows| :: SameIgnoringCase(rows[k].email, email)) {
        var k :| 0 <= k < |rows| && SameIgnoringCase(rows[k].email, email);
        DuplicateRejected(rows, k, name, email);
      }
      if errors != [] {
        return Rejected(errors);
      }
      InsertKeepsInvariant(rows, nextId, name, email);
      var user := User(nextId, name, Lower(email));
      rows := rows + [user];
      nextId := nextId + 1;
      r := Saved(user);
    }

    /** Saves new field values for the stored row with id `id`: rejected with
        the validation errors, leaving the table as it was, or written over
        that row with its email lower-cased. Uniqueness is asked of the other
        rows only. */
    method Update(id: nat, name: string, email: string) returns (r: SaveResult)
      requires Valid() && IndexOfId(rows, id) >= 0
      modifies this
      ensures Valid() && nextId == old(nextId) && Count() == old(Count())
      ensures var k := IndexOfId(old(rows), id);
        var errors := Validate(name, email, Emails(Others(old(rows), k)));
        if errors == [] then
          r == Saved(User(id, name, Lower(email))) && rows == old(rows)[k := r.user]
        else
          r == Rejected(errors) && rows == old(rows)
      ensures var u := old(rows)[IndexOfId(old(rows), id)];
        name == u.name && email == u.email ==> r == Saved(u) && rows == old(rows)
    {
      var k := IndexOfId(rows, id);
      var errors := Validate(name, email, Emails(Others(rows, k)));
      ResaveAccepted(rows, nextId, k);
      if errors != [] {
        return Rejected(errors);
      }
      ReplaceKeepsInvariant(rows, nextId, k, name, email);
      var user := User(id, name, Lower(email));
      rows := rows[k := user];
      r := Saved(user);
    }
  }
}
