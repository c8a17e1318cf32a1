/** internal/data/users.go: the user record, the password value with its
    hash, the lookups and the insert over the `users` table (given as a
    sequence of rows), and the email and password checks. bcrypt is a
    collaborator: its hashing outcome and its comparison are parameters. */
module Users {
  import opened Errors
  import Strings
  import Validation

  type Hash = seq<bv8>

  /** One row of `users`; times are seconds since an epoch. */
  datatype User = User(
    id: int,
    createdAt: int,
    name: string,
    email: string,
    passwordHash: Hash,
    avatarUrl: Option<string>,
    role: string,
    activated: bool,
    version: int)

  /** What bcrypt.CompareHashAndPassword reports. */
  datatype Comparison = Equal | ErrMismatchedHashAndPassword | CompareFailed(cause: Error)

  /** The password of a user being signed up or logged in. */
  class Password {
    var plaintext: Option<string>
    var hash: Hash

    constructor ()
      ensures plaintext == None && hash == []
    {
      plaintext := None;
      hash := [];
    }

    /** Set: `generated` is what hashing the plaintext at cost 12 gave. On
        failure nothing changes and the error is returned; on success both
        the plaintext and the new hash are stored. */
    method Set(plaintextPassword: string, generated: Result<Hash>) returns (err: Option<Error>)
      modifies this
      ensures generated.Err? ==> err == Some(generated.error) && plaintext == old(plaintext) && hash == old(hash)
      ensures generated.Ok? ==> err == None && plaintext == Some(plaintextPassword) && hash == generated.value
    {
      if generated.Err? {
        return Some(generated.error);
      }
      plaintext := Some(plaintextPassword);
      hash := generated.value;
      return None;
    }

    /** Matches: compares the stored hash with `candidate`. A match only
        when the comparison succeeds; a hash mismatch is a plain "no"; any
        other comparison failure is reported as an error. */
    method Matches(candidate: string, compare: (Hash, string) -> Comparison) returns (matched: bool, err: Option<Error>)
      ensures matched <==> compare(hash, candidate) == Equal
      ensures matched ==> err.None?
      ensures err.Some? <==> compare(hash, candidate).CompareFailed?
      ensures err.Some? ==> err.value == compare(hash, candidate).cause
    {
      var outcome := compare(hash, candidate);
      if outcome != Equal {
        if outcome == ErrMismatchedHashAndPassword {
          return false, None;
        }
        return false, Some(outcome.cause);
      }
      return true, None;
    }
  }

  /** The text of the store's error for a second row with the same email. */
  const UsersEmailKeyViolation := "pq: duplicate key value violates unique constraint \"users_email_key\""

  /** Insert: `execErr` is what executing the INSERT gave. The
      `users_email_key` violation becomes ErrDuplicateEmail; every other
      error is returned as it is; success returns nil. */
  function Insert(execErr: Option<Error>): (r: Option<Error>)
    ensures r.None? <==> execErr.None?
    ensures execErr == Some(Other(UsersEmailKeyViolation)) ==> r == Some(ErrDuplicateEmail)
    ensures execErr.Some? && execErr != Some(Other(UsersEmailKeyViolation)) ==> r == execErr
  {
    match execErr
    case None => None
    case Some(e) =>
      if e.Other? && e.message == UsersEmailKeyViolation then Some(ErrDuplicateEmail) else Some(e)
  }

  /** The first row satisfying the lookup. */
  function FindUser(users: seq<User>, byId: bool, id: int, email: string): (r: Option<User>)
    ensures r.Some? ==> r.value in users && (if byId then r.value.id == id else r.value.email == email)
    ensures r.None? ==> forall u :: u in users ==> (if byId then u.id != id else u.email != email)
  {
    if users == [] then None
    else if (if byId then users[0].id == id else users[0].email == email) then Some(users[0])
    else
      assert forall u :: u in users ==> u == users[0] || u in users[1..];
      FindUser(users[1..], byId, id, email)
  }

  /** GetByEmail: the row with that email, without the columns the
      statement does not select (activated, version). "No rows" becomes
      ErrRecordNotFound; any other error is returned as it is. */
  function GetByEmail(users: seq<User>, email: string, fault: Option<Error>): (r: Result<User>)
    ensures fault.None? ==> (r.Ok? <==> exists u :: u in users && u.email == email)
    ensures fault.None? && r.Err? ==> r.error == ErrRecordNotFound
    ensures r.Ok? ==> exists u :: u in users && u.email == email && r.value == u.(activated := false, version := 0)
    ensures fault.Some? && fault.value == ErrNoRows ==> r == Err(ErrRecordNotFound)
    ensures fault.Some? && fault.value != ErrNoRows ==> r == Err(fault.value)
  {
    var found := FindUser(users, false, 0, email);
    if fault.Some? then Err(NotFoundIfNoRows(fault.value))
    else if found.None? then Err(NotFoundIfNoRows(ErrNoRows))
    else Ok(found.value.(activated := false, version := 0))
  }

  /** Get: an id below 1 is ErrRecordNotFound whatever the store holds or
      reports. Otherwise the row with that id without the columns the
      statement does not select (avatar_url, activated, version); "no rows"
      becomes ErrRecordNotFound and any other error is returned as it is. */
  function Get(users: seq<User>, id: int, fault: Option<Error>): (r: Result<User>)
    ensures id < 1 ==> r == Err(ErrRecordNotFound)
    ensures id >= 1 && fault.None? ==> (r.Ok? <==> exists u :: u in users && u.id == id)
    ensures fault.None? && r.Err? ==> r.error == ErrRecordNotFound
    ensures r.Ok? ==> exists u :: u in users && u.id == id && r.value == u.(avatarUrl := None, activated := false, version := 0)
    ensures id >= 1 && fault.Some? && fault.value == ErrNoRows ==> r == Err(ErrRecordNotFound)
    ensures id >= 1 && fault.Some? && fault.value != ErrNoRows ==> r == Err(fault.value)
  {
    if id < 1 then Err(ErrRecordNotFound)
    else
      var found := FindUser(users, true, id, "");
      if fault.Some? then Err(NotFoundIfNoRows(fault.value))
      else if found.None? then Err(NotFoundIfNoRows(ErrNoRows))
      else Ok(found.value.(avatarUrl := None, activated := false, version := 0))
  }

  /** The message shown for an email address: an empty address is "not
      provided" before it is "not valid"; None when the address is
      accepted. */
  function EmailMessage(email: string, matchesPattern: bool): (r: Option<string>)
    ensures r.None? <==> email != "" && matchesPattern
    ensures email == "" ==> r == Some("must be provided")
    ensures email != "" && !matchesPattern ==> r == Some("must be a valid email address")
  {
    if email == "" then Some("must be provided")
    else if !matchesPattern then Some("must be a valid email address")
    else None
  }

  /** ValidateEmail: marks "email" when the address is empty or does not
      match the email pattern (`matchesPattern`, the regular expression
      being a collaborator), with the message of the first check that
      fails. */
  method ValidateEmail(v: Validation.Validator, email: string, matchesPattern: bool)
    modifies v
    ensures v.errors.Keys == old(v.errors.Keys) + (if email == "" || !matchesPattern then {"email"} else {})
    ensures forall k :: k in old(v.errors) ==> v.errors[k] == old(v.errors[k])
    ensures v.errors == Validation.Record(old(v.errors), "email", EmailMessage(email, matchesPattern))
  {
    v.Check(email != "", "email", "must be provided");
    v.Check(matchesPattern, "email", "must be a valid email address");
  }

  /** The message shown for a password: an empty one is "not provided"
      before it is too short; None when its UTF-8 length is within 8..72
      bytes. */
  function PasswordMessage(password: string): (r: Option<string>)
    ensures r.None? <==> 8 <= Strings.ByteLen(password) <= 72
    ensures password == "" ==> r == Some("must be provided")
    ensures password != "" && Strings.ByteLen(password) < 8 ==> r == Some("must be at least 8 bytes long")
    ensures Strings.ByteLen(password) > 72 ==> r == Some("must not be more than 72 bytes long")
  {
    if password == "" then Some("must be provided")
    else if Strings.ByteLen(password) < 8 then Some("must be at least 8 bytes long")
    else if Strings.ByteLen(password) > 72 then Some("must not be more than 72 bytes long")
    else None
  }

  /** ValidatePasswordPlaintext: marks "password" exactly when the UTF-8
      length is outside 8..72 bytes (the empty password is one of those),
      with the message of the first check that fails. */
  method ValidatePasswordPlaintext(v: Validation.Validator, password: string)
    modifies v
    ensures v.errors.Keys == old(v.errors.Keys) + (if 8 <= Strings.ByteLen(password) <= 72 then {} else {"password"})
    ensures forall k :: k in old(v.errors) ==> v.errors[k] == old(v.errors[k])
    ensures v.errors == Validation.Record(old(v.errors), "password", PasswordMessage(password))
  {
    v.Check(password != "", "password", "must be provided");
    v.Check(Strings.ByteLen(password) >= 8, "password", "must be at least 8 bytes long");
    v.Check(Strings.ByteLen(password) <= 72, "password", "must not be more than 72 bytes long");
  }
}
