/**
  The create-user script (create_user.py): the stripped username, the password and its
  confirmation go through three checks in a fixed order, and only then is the hashed
  password inserted, which the table refuses for a name it already holds.
*/
module UserCreation {

  import opened Text
  import opened Users

  /** What the script reports. */
  datatype CreateOutcome = EmptyUsername | PasswordMismatch | PasswordTooShort | DuplicateUser | Created

  /** The shortest password the script accepts. */
  const MinPasswordLength := 4

  /**
    The outcome for the typed username, password and confirmation against the current rows:
    the first check that fails decides it.
  */
  function CreateCheck(rawUsername: string, password: string, confirm: string, rows: seq<Credential>): (o: CreateOutcome)
    ensures o == EmptyUsername <==> Strip(rawUsername) == []
    ensures o == PasswordMismatch <==> Strip(rawUsername) != [] && password != confirm
    ensures o == PasswordTooShort <==>
      Strip(rawUsername) != [] && password == confirm && |password| < MinPasswordLength
    ensures o == DuplicateUser <==>
      && Strip(rawUsername) != [] && password == confirm && |password| >= MinPasswordLength
      && HasUser(rows, Strip(rawUsername))
    ensures o == Created <==>
      && Strip(rawUsername) != [] && password == confirm && |password| >= MinPasswordLength
      && !HasUser(rows, Strip(rawUsername))
  {
    var username := Strip(rawUsername);
    if username == [] then EmptyUsername
    else if password != confirm then PasswordMismatch
    else if |password| < MinPasswordLength then PasswordTooShort
    else if HasUser(rows, username) then DuplicateUser
    else Created
  }

  /**
    `create_user`, with `hash` standing for `generate_password_hash`: the table gains exactly
    the row (stripped username, hash of the password) when the outcome is `Created`, and is
    untouched otherwise.
  */
  method CreateUser(table: UserTable, rawUsername: string, password: string, confirm: string,
                    hash: string -> string) returns (outcome: CreateOutcome)
    requires table.Valid()
    modifies table
    ensures outcome == CreateCheck(rawUsername, password, confirm, old(table.rows))
    ensures outcome == Created ==>
      table.rows == old(table.rows) + [Credential(Strip(rawUsername), hash(password))]
    ensures outcome != Created ==> table.rows == old(table.rows)
    ensures table.Valid()
  {
    var username := Strip(rawUsername);
    if username == [] {
      return EmptyUsername;
    }
    if password != confirm {
      return PasswordMismatch;
    }
    if |password| < MinPasswordLength {
      return PasswordTooShort;
    }
    var inserted := table.Insert(Credential(username, hash(password)));
    outcome := if inserted then Created else DuplicateUser;
  }

  /** After a successful creation, creating the same name again, however padded, is refused as a duplicate. */
  lemma CreateTwiceIsDuplicate(rows: seq<Credential>, rawUsername: string, password: string,
                               againUsername: string, againPassword: string, hash: string -> string)
    requires CreateCheck(rawUsername, password, password, rows) == Created
    requires Strip(againUsername) == Strip(rawUsername) && |againPassword| >= MinPasswordLength
    ensures var after := rows + [Credential(Strip(rawUsername), hash(password))];
      CreateCheck(againUsername, againPassword, againPassword, after) == DuplicateUser
  {
    var after := rows + [Credential(Strip(rawUsername), hash(password))];
    assert after[|rows|].username == Strip(againUsername);
  }
}
