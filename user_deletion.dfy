/**
  The delete-user script (delete_user.py): the stripped username must be non-empty and the
  answer to the confirmation prompt must read `yes` once lower-cased; only then is the table
  searched for the name and, if it is there, every row under it deleted.
*/
module UserDeletion {

  import opened Text
  import opened Users
  import UserCreation

  /** What the script reports. */
  datatype DeleteOutcome = EmptyUsername | Cancelled | NotFound | Deleted

  /** `confirm.lower() == 'yes'`: lower-cased, not stripped. */
  predicate Confirmed(answer: string): (yes: bool)
    ensures yes ==> |answer| == 3
    ensures answer == "yes" ==> yes
  {
    Lower(answer) == "yes"
  }

  /** The accepted answers are exactly the three letters y, e, s, each in either case, and nothing around them. */
  lemma ConfirmedExactly(answer: string)
    ensures Confirmed(answer) <==>
      |answer| == 3
      && (answer[0] == 'y' || answer[0] == 'Y')
      && (answer[1] == 'e' || answer[1] == 'E')
      && (answer[2] == 's' || answer[2] == 'S')
  {
    if |answer| == 3 {
      var l := Lower(answer);
      assert l == "yes" <==> l[0] == 'y' && l[1] == 'e' && l[2] == 's';
    }
  }

  /** Capitals are accepted; a leading space is not, because the answer is not stripped. */
  lemma ConfirmationExamples()
    ensures Confirmed("YES") && Confirmed("Yes") && Confirmed("yes")
    ensures !Confirmed(" yes") && !Confirmed("yes ") && !Confirmed("y") && !Confirmed("no")
  {
    ConfirmedExactly("YES");
    ConfirmedExactly("Yes");
    ConfirmedExactly("yes");
    ConfirmedExactly(" yes");
    ConfirmedExactly("yes ");
    ConfirmedExactly("y");
    ConfirmedExactly("no");
  }

  /** The outcome for the typed username and answer against the current rows: the first failing check decides it. */
  function DeleteCheck(rawUsername: string, answer: string, rows: seq<Credential>): (o: DeleteOutcome)
    ensures o == EmptyUsername <==> Strip(rawUsername) == []
    ensures o == Cancelled <==> Strip(rawUsername) != [] && !Confirmed(answer)
    ensures o == NotFound <==>
      Strip(rawUsername) != [] && Confirmed(answer) && !HasUser(rows, Strip(rawUsername))
    ensures o == Deleted <==>
      Strip(rawUsername) != [] && Confirmed(answer) && HasUser(rows, Strip(rawUsername))
  {
    var username := Strip(rawUsername);
    if username == [] then EmptyUsername
    else if !Confirmed(answer) then Cancelled
    else if !HasUser(rows, username) then NotFound
    else Deleted
  }

  /**
    `delete_user`: the table loses exactly the rows under the stripped name when the outcome
    is `Deleted`, and is untouched otherwise.
  */
  method DeleteUser(table: UserTable, rawUsername: string, answer: string) returns (outcome: DeleteOutcome)
    requires table.Valid()
    modifies table
    ensures outcome == DeleteCheck(rawUsername, answer, old(table.rows))
    ensures outcome == Deleted ==> table.rows == WithoutUser(old(table.rows), Strip(rawUsername))
    ensures outcome != Deleted ==> table.rows == old(table.rows)
    ensures table.Valid()
  {
    var username := Strip(rawUsername);
    if username == [] {
      return EmptyUsername;
    }
    if !Confirmed(answer) {
      return Cancelled;
    }
    var found := table.FindUser(username);
    if !found {
      return NotFound;
    }
    table.DeleteNamed(username);
    outcome := Deleted;
  }

  /** Deleting twice is safe: the second attempt finds nothing and changes nothing. */
  lemma DeleteTwiceIsNotFound(rows: seq<Credential>, rawUsername: string, answer: string)
    requires DeleteCheck(rawUsername, answer, rows) == Deleted
    ensures DeleteCheck(rawUsername, answer, WithoutUser(rows, Strip(rawUsername))) == NotFound
  {
  }

  /** A deleted name is free again: a well-formed creation under it succeeds. */
  lemma DeleteThenCreate(rows: seq<Credential>, rawUsername: string, answer: string, password: string)
    requires DeleteCheck(rawUsername, answer, rows) == Deleted
    requires |password| >= UserCreation.MinPasswordLength
    ensures UserCreation.CreateCheck(rawUsername, password, password, WithoutUser(rows, Strip(rawUsername)))
            == UserCreation.Created
  {
  }

  /** `alice` with `hunter2`: created once, refused the second time, deleted, then created again. */
  method AliceScenario(hash: string -> string)
    returns (first: UserCreation.CreateOutcome, second: UserCreation.CreateOutcome,
             removal: DeleteOutcome, third: UserCreation.CreateOutcome)
    ensures first == UserCreation.Created && second == UserCreation.DuplicateUser
    ensures removal == Deleted && third == UserCreation.Created
  {
    StripFixpoint("alice");
    var table := new UserTable();
    first := UserCreation.CreateUser(table, "alice", "hunter2", "hunter2", hash);
    assert table.rows[0].username == "alice";
    second := UserCreation.CreateUser(table, "alice", "hunter2", "hunter2", hash);
    ConfirmationExamples();
    removal := DeleteUser(table, "alice", "yes");
    third := UserCreation.CreateUser(table, "alice", "hunter2", "hunter2", hash);
  }
}
