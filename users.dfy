/**
  The `users` table the two admin scripts (create_user.py, delete_user.py) write: one
  credential per row, the username unique, as the scripts' handling of the duplicate-key
  error presumes.
*/
module Users {

  import opened Sequences

  /** One row: the login name and the stored hash of the password (never the password itself). */
  datatype Credential = Credential(username: string, passwordHash: string)

  /** Some row carries the name. */
  predicate HasUser(rows: seq<Credential>, name: string): (found: bool)
    ensures found <==> exists c :: c in rows && c.username == name
  {
    exists i :: 0 <= i < |rows| && rows[i].username == name
  }

  /** The UNIQUE constraint on `users.username`. */
  ghost predicate UniqueUsernames(rows: seq<Credential>)
  {
    forall i, j :: 0 <= i < j < |rows| ==> rows[i].username != rows[j].username
  }

  /** Appending a row under a name not yet present keeps the names unique. */
  lemma AppendKeepsUnique(rows: seq<Credential>, c: Credential)
    requires UniqueUsernames(rows) && !HasUser(rows, c.username)
    ensures UniqueUsernames(rows + [c])
  {
    var r := rows + [c];
    forall i, j | 0 <= i < j < |r| ensures r[i].username != r[j].username {
      assert r[i] == rows[i];
    }
  }

  /** `DELETE FROM users WHERE username = ?`: every row with that name goes, the others stay in order. */
  function WithoutUser(rows: seq<Credential>, name: string): (r: seq<Credential>)
    ensures forall c :: c in r <==> c in rows && c.username != name
    ensures forall c {:trigger multiset(r)[c]} :: multiset(r)[c] == if c.username != name then multiset(rows)[c] else 0
    ensures IsSubsequence(r, rows)
    ensures !HasUser(r, name)
    ensures !HasUser(rows, name) ==> r == rows
  {
    if rows == [] then []
    else
      var rest := WithoutUser(rows[1..], name);
      assert rows == [rows[0]] + rows[1..];
      assert multiset(rows) == multiset{rows[0]} + multiset(rows[1..]);
      var r := if rows[0].username == name then rest else [rows[0]] + rest;
      assert multiset(r) == (if rows[0].username == name then multiset{} else multiset{rows[0]}) + multiset(rest);
      assert IsSubsequence(r, rows) by {
        if rows[0].username != name {
          assert r[1..] == rest;
        }
      }
      r
  }

  /** Deleting rows keeps the names unique. */
  lemma WithoutUserKeepsUnique(rows: seq<Credential>, name: string)
    requires UniqueUsernames(rows)
    ensures UniqueUsernames(WithoutUser(rows, name))
  {
    var r := WithoutUser(rows, name);
    var username := (c: Credential) => c.username;
    assert UniqueKeys(rows, username);
    SubsequenceKeepsUniqueKeys(r, rows, username);
  }

  /** Deleting one name leaves every other name exactly as present or absent as before. */
  lemma WithoutUserKeepsOthers(rows: seq<Credential>, name: string, other: string)
    requires other != name
    ensures HasUser(WithoutUser(rows, name), other) <==> HasUser(rows, other)
  {
    var r := WithoutUser(rows, name);
    if HasUser(rows, other) {
      var i :| 0 <= i < |rows| && rows[i].username == other;
      assert rows[i] in r;
      var k :| 0 <= k < |r| && r[k] == rows[i];
    }
    if HasUser(r, other) {
      var k :| 0 <= k < |r| && r[k].username == other;
      assert r[k] in rows;
    }
  }

  /** Deleting the same name twice is deleting it once. */
  lemma WithoutUserIdempotent(rows: seq<Credential>, name: string)
    ensures WithoutUser(WithoutUser(rows, name), name) == WithoutUser(rows, name)
  {
  }

  /** The `users` table, in row order. */
  class UserTable {
    var rows: seq<Credential>

    ghost predicate Valid()
      reads this
    {
      UniqueUsernames(rows)
    }

    constructor ()
      ensures Valid() && rows == []
    {
      rows := [];
    }

    /** `SELECT * FROM users WHERE username = ?` followed by `fetchone()`: is there such a row? */
    method FindUser(name: string) returns (found: bool)
      ensures found <==> HasUser(rows, name)
    {
      found := false;
      var i := 0;
      while i < |rows| && !found
        invariant 0 <= i <= |rows|
        invariant found <==> exists m :: 0 <= m < i && rows[m].username == name
      {
        found := rows[i].username == name;
        i := i + 1;
      }
    }

    /** `INSERT INTO users ...`: refused by the UNIQUE constraint when the name is taken, appended otherwise. */
    method Insert(c: Credential) returns (inserted: bool)
      requires Valid()
      modifies this
      ensures inserted <==> !HasUser(old(rows), c.username)
      ensures inserted ==> rows == old(rows) + [c]
      ensures !inserted ==> rows == old(rows)
      ensures Valid()
    {
      var taken := FindUser(c.username);
      if taken {
        return false;
      }
      AppendKeepsUnique(rows, c);
      rows := rows + [c];
      return true;
    }

    /** `DELETE FROM users WHERE username = ?`. */
    method DeleteNamed(name: string)
      requires Valid()
      modifies this
      ensures rows == WithoutUser(old(rows), name)
      ensures Valid()
    {
      WithoutUserKeepsUnique(rows, name);
      rows := WithoutUser(rows, name);
    }
  }
}
