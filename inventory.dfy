/**
  The `items` table and the request handlers of the web application (app.py) that
  read and write it: dashboard search and suggestions, add, edit, view, delete and
  the file name of the QR download. The table is the sequence of its rows in rowid
  order; SQL statements become functions of that sequence or methods that reassign it.
*/
module Inventory {

  import opened Wrappers
  import opened Text
  import opened Sequences

  /**
    The twelve free-text columns of an item, in the order the INSERT statement lists
    them. `warrantyPeriod` is the column named `warranty__period`.
  */
  datatype Columns<T> = Columns(
    inventoryName: T, serialNo: T, make: T, model: T, hardwareType: T, spec: T,
    purchaseDate: T, warrantyPeriod: T, vendor: T, billDetails: T, location: T, status: T)

  /** Stored values: any column may be NULL. */
  type Fields = Columns<Option<string>>

  /** A submitted add or edit form: every field is present, as text. */
  type Form = Columns<string>

  datatype Item = Item(id: int, fields: Fields)

  /** The values the INSERT and UPDATE statements bind for a submitted form: every column, as submitted. */
  function Stored(form: Form): (f: Fields)
    ensures f.inventoryName.Some? && f.serialNo.Some? && f.make.Some? && f.model.Some?
      && f.hardwareType.Some? && f.spec.Some? && f.purchaseDate.Some? && f.warrantyPeriod.Some?
      && f.vendor.Some? && f.billDetails.Some? && f.location.Some? && f.status.Some?
    ensures Columns(f.inventoryName.value, f.serialNo.value, f.make.value, f.model.value,
      f.hardwareType.value, f.spec.value, f.purchaseDate.value, f.warrantyPeriod.value,
      f.vendor.value, f.billDetails.value, f.location.value, f.status.value) == form
  {
    Columns(Some(form.inventoryName), Some(form.serialNo), Some(form.make), Some(form.model),
            Some(form.hardwareType), Some(form.spec), Some(form.purchaseDate),
            Some(form.warrantyPeriod), Some(form.vendor), Some(form.billDetails),
            Some(form.location), Some(form.status))
  }

  /** No two rows share an id. The table declares no key; the writers keep this. */
  ghost predicate UniqueIds(rows: seq<Item>)
  {
    forall i, j :: 0 <= i < j < |rows| ==> rows[i].id != rows[j].id
  }

  // ---------------------------------------------------------------------------
  // Dashboard search and suggestions

  /** The query holds none of LIKE's wildcards, so `'%' + q + '%'` means "contains q". */
  predicate NoWildcards(q: string)
  {
    '%' !in q && '_' !in q
  }

  /** `value LIKE '%q%'`: NULL never matches; otherwise an ASCII case-insensitive substring test. */
  function Like(value: Option<string>, q: string): (m: bool)
    ensures m ==> value.Some?
    ensures value.Some? && q == [] ==> m
  {
    value.Some? && IsSubstring(Lower(q), Lower(value.value))
  }

  /** Some of the seven searched columns holds a value. */
  predicate AnySearchedValue(it: Item)
  {
    var f := it.fields;
    f.inventoryName.Some? || f.serialNo.Some? || f.make.Some? || f.model.Some?
    || f.location.Some? || f.vendor.Some? || f.status.Some?
  }

  /** The WHERE clause of the search: seven of the twelve columns are consulted. */
  predicate Matches(it: Item, q: string): (m: bool)
    ensures m ==> AnySearchedValue(it)
    ensures q == [] ==> (m <==> AnySearchedValue(it))
  {
    var f := it.fields;
    || Like(f.inventoryName, q) || Like(f.serialNo, q) || Like(f.make, q) || Like(f.model, q)
    || Like(f.location, q) || Like(f.vendor, q) || Like(f.status, q)
  }

  /** The rows that satisfy the WHERE clause, in table order. */
  function Filter(rows: seq<Item>, q: string): (r: seq<Item>)
    ensures forall it :: it in r <==> it in rows && Matches(it, q)
    ensures forall it {:trigger multiset(r)[it]} :: multiset(r)[it] == if Matches(it, q) then multiset(rows)[it] else 0
    ensures IsSubsequence(r, rows)
  {
    if rows == [] then []
    else
      assert rows == [rows[0]] + rows[1..];
      if Matches(rows[0], q) then [rows[0]] + Filter(rows[1..], q)
      else Filter(rows[1..], q)
  }

  /** The items the dashboard lists for the query parameter `q` (absent or empty: every row). */
  function Search(rows: seq<Item>, q: Option<string>): (r: seq<Item>)
    requires q.Some? ==> NoWildcards(q.value)
    ensures (q.None? || q.value == []) ==> r == rows
    ensures q.Some? && q.value != [] ==>
      && (forall it :: it in r <==> it in rows && Matches(it, q.value))
      && (forall it {:trigger multiset(r)[it]} :: multiset(r)[it] == if Matches(it, q.value) then multiset(rows)[it] else 0)
      && IsSubsequence(r, rows)
  {
    if q.Some? && q.value != [] then Filter(rows, q.value) else rows
  }

  /** The five columns that are not searched never influence whether a row matches. */
  lemma SearchIgnoresUnsearchedColumns(a: Item, b: Item, q: string)
    requires a.fields.inventoryName == b.fields.inventoryName && a.fields.serialNo == b.fields.serialNo
    requires a.fields.make == b.fields.make && a.fields.model == b.fields.model
    requires a.fields.location == b.fields.location && a.fields.vendor == b.fields.vendor
    requires a.fields.status == b.fields.status
    ensures Matches(a, q) <==> Matches(b, q)
  {
  }

  /** A row whose seven searched columns are all NULL matches no query. */
  lemma NullColumnsNeverMatch(it: Item, q: string)
    requires it.fields.inventoryName.None? && it.fields.serialNo.None? && it.fields.make.None?
    requires it.fields.model.None? && it.fields.location.None? && it.fields.vendor.None?
    requires it.fields.status.None?
    ensures !Matches(it, q)
  {
  }

  /** Matching ignores ASCII case of the query, uniformly over the searched columns. */
  lemma SearchIgnoresQueryCase(it: Item, q: string)
    ensures Matches(it, q) <==> Matches(it, Lower(q))
  {
    LowerIdempotent(q);
  }

  /** A query no row matches gives an empty result. */
  lemma NoMatchGivesNothing(rows: seq<Item>, q: string)
    requires q != [] && NoWildcards(q)
    requires forall it :: it in rows ==> !Matches(it, q)
    ensures Search(rows, Some(q)) == []
  {
    var r := Search(rows, Some(q));
    assert forall i :: 0 <= i < |r| ==> r[i] in r;
  }

  /** `SELECT DISTINCT inventory_name`: each name (NULL included) once, in order of first occurrence. */
  function DistinctNames(rows: seq<Item>): (r: seq<Option<string>>)
    ensures forall n :: n in r <==> exists it :: it in rows && it.fields.inventoryName == n
    ensures NoDuplicates(r)
  {
    if rows == [] then []
    else
      var init := rows[..|rows| - 1];
      var last := rows[|rows| - 1];
      assert rows == init + [last];
      var names := DistinctNames(init);
      if last.fields.inventoryName in names then names else names + [last.fields.inventoryName]
  }

  // ---------------------------------------------------------------------------
  // Lookup by id: view, the edit form and the QR download

  /** `SELECT ... WHERE id = ?` then `fetchone()`: the first row with that id, or none. */
  function Find(rows: seq<Item>, id: int): (r: Option<Item>)
    ensures r.None? <==> forall it :: it in rows ==> it.id != id
    ensures r.Some? ==> r.value in rows && r.value.id == id
  {
    if rows == [] then None
    else if rows[0].id == id then Some(rows[0])
    else Find(rows[1..], id)
  }

  /** With distinct ids the lookup returns the one row that carries the id. */
  lemma {:induction false} FindUnique(rows: seq<Item>, it: Item)
    requires UniqueIds(rows) && it in rows
    ensures Find(rows, it.id) == Some(it)
  {
    if rows[0] != it {
      assert it in rows[1..];
      FindUnique(rows[1..], it);
    } else {
      assert rows[0].id == it.id;
    }
  }

  // ---------------------------------------------------------------------------
  // Add

  /** `SELECT MAX(id) FROM items`: NULL on an empty table. */
  function MaxId(rows: seq<Item>): (m: Option<int>)
    ensures m.None? <==> rows == []
    ensures m.Some? ==> (exists it :: it in rows && it.id == m.value) && forall it :: it in rows ==> it.id <= m.value
  {
    if rows == [] then None
    else
      var init := rows[..|rows| - 1];
      var last := rows[|rows| - 1];
      assert rows == init + [last];
      match MaxId(init)
      case None => Some(last.id)
      case Some(k) => Some(if last.id > k then last.id else k)
  }

  /** `(max_id or 0) + 1`: the id the add handler gives a new row. */
  function NextId(rows: seq<Item>): (k: int)
    ensures forall it :: it in rows ==> it.id < k
    ensures rows == [] ==> k == 1
    ensures rows != [] ==> exists it :: it in rows && it.id == k - 1
  {
    (match MaxId(rows) case None => 0 case Some(m) => m) + 1
  }

  /** Appending a row leaves every earlier lookup as it was and finds the new row under its id otherwise. */
  lemma {:induction false} FindAppend(rows: seq<Item>, x: Item, id: int)
    ensures Find(rows + [x], id) == if Find(rows, id).Some? then Find(rows, id) else if x.id == id then Some(x) else None
  {
    if rows != [] {
      assert (rows + [x])[1..] == rows[1..] + [x];
      FindAppend(rows[1..], x, id);
    }
  }

  /** After an add, the new id shows exactly the submitted values, and every other id shows what it showed before. */
  lemma ViewAfterAdd(rows: seq<Item>, form: Form, id: int)
    ensures var added := rows + [Item(NextId(rows), Stored(form))];
      && Find(added, NextId(rows)) == Some(Item(NextId(rows), Stored(form)))
      && (id != NextId(rows) ==> Find(added, id) == Find(rows, id))
  {
    FindAppend(rows, Item(NextId(rows), Stored(form)), NextId(rows));
    FindAppend(rows, Item(NextId(rows), Stored(form)), id);
  }

  // ---------------------------------------------------------------------------
  // Edit

  /** `UPDATE items SET <all twelve columns> WHERE id = ?`: ids are never written. */
  function Overwrite(rows: seq<Item>, id: int, f: Fields): (r: seq<Item>)
    ensures |r| == |rows|
    ensures forall i :: 0 <= i < |r| ==> r[i].id == rows[i].id
  {
    if rows == [] then []
    else [if rows[0].id == id then Item(id, f) else rows[0]] + Overwrite(rows[1..], id, f)
  }

  /** After an edit, the edited id shows exactly the submitted values (no merge with the old ones); a missing id stays missing. */
  lemma {:induction false} ViewAfterEdit(rows: seq<Item>, id: int, f: Fields)
    ensures Find(Overwrite(rows, id, f), id) == if Find(rows, id).Some? then Some(Item(id, f)) else None
  {
    if rows != [] && rows[0].id != id {
      ViewAfterEdit(rows[1..], id, f);
    }
  }

  /** An edit leaves the rows of every other id as they were. */
  lemma {:induction false} EditLeavesOtherIds(rows: seq<Item>, id: int, f: Fields, other: int)
    requires other != id
    ensures Find(Overwrite(rows, id, f), other) == Find(rows, other)
  {
    if rows != [] && rows[0].id != other {
      EditLeavesOtherIds(rows[1..], id, f, other);
    }
  }

  /** Editing an id that is not in the table changes nothing. */
  lemma {:induction false} EditOfMissingIdIsNoOp(rows: seq<Item>, id: int, f: Fields)
    requires Find(rows, id).None?
    ensures Overwrite(rows, id, f) == rows
  {
    if rows != [] {
      assert rows[0] in rows;
      EditOfMissingIdIsNoOp(rows[1..], id, f);
    }
  }

  // ---------------------------------------------------------------------------
  // Delete

  /** `DELETE FROM items WHERE id = ?`: the other rows in their order. */
  function Without(rows: seq<Item>, id: int): (r: seq<Item>)
    ensures forall it :: it in r <==> it in rows && it.id != id
    ensures forall it {:trigger multiset(r)[it]} :: multiset(r)[it] == if it.id != id then multiset(rows)[it] else 0
    ensures IsSubsequence(r, rows)
    ensures (forall it :: it in rows ==> it.id != id) ==> r == rows
    ensures UniqueIds(rows) ==> UniqueIds(r)
    ensures Find(r, id).None?
  {
    if rows == [] then []
    else
      var rest := Without(rows[1..], id);
      assert rows == [rows[0]] + rows[1..];
      assert multiset(rows) == multiset{rows[0]} + multiset(rows[1..]);
      var r := if rows[0].id == id then rest else [rows[0]] + rest;
      assert multiset(r) == (if rows[0].id == id then multiset{} else multiset{rows[0]}) + multiset(rest);
      assert IsSubsequence(r, rows) by {
        if rows[0].id != id {
          assert r[1..] == rest;
        }
      }
      assert UniqueIds(rows) ==> UniqueIds(r) by {
        if UniqueIds(rows) {
          var id := (it: Item) => it.id;
          assert UniqueKeys(rows, id);
          SubsequenceKeepsUniqueKeys(r, rows, id);
        }
      }
      r
  }

  /** After a delete every other id shows what it showed before. */
  lemma {:induction false} ViewAfterDelete(rows: seq<Item>, id: int, other: int)
    requires other != id
    ensures Find(Without(rows, id), other) == Find(rows, other)
  {
    if rows != [] {
      ViewAfterDelete(rows[1..], id, other);
    }
  }

  /** Deleting twice is the same as deleting once. */
  lemma DeleteIsIdempotent(rows: seq<Item>, id: int)
    ensures Without(Without(rows, id), id) == Without(rows, id)
  {
  }

  /**
    Ids are assigned as max + 1, so after the rows with the largest id `m` are deleted
    the next add gets `m` or a smaller id, and exactly `m` again when some row carries
    `m - 1`.
  */
  lemma NextIdAfterDeletingLargest(rows: seq<Item>, m: int)
    requires MaxId(rows) == Some(m) && m >= 1
    ensures NextId(Without(rows, m)) <= m
    ensures (exists it :: it in rows && it.id == m - 1) ==> NextId(Without(rows, m)) == m
  {
    var rest := Without(rows, m);
    var k := NextId(rest);
    if rest != [] {
      var it :| it in rest && it.id == k - 1;
      assert it in rows;
    }
    if exists it :: it in rows && it.id == m - 1 {
      var it :| it in rows && it.id == m - 1;
      assert it in rest;
    }
  }

  // ---------------------------------------------------------------------------
  // QR download file name

  /** A character the download file name keeps: alphanumeric (as `isAlnum` decides), a space or a hyphen. */
  function FileNameChar(c: char, isAlnum: char -> bool): (kept: bool)
    ensures c == ' ' || c == '-' ==> kept
    ensures kept && IsSpace(c) ==> c == ' ' || isAlnum(c)
  {
    isAlnum(c) || c == ' ' || c == '-'
  }

  /** The list comprehension of the file name: the kept characters, in order, each as often as in `name`. */
  function KeepFileNameChars(name: string, isAlnum: char -> bool): (r: string)
    ensures IsSubsequence(r, name)
    ensures forall c :: c in r ==> FileNameChar(c, isAlnum)
    ensures forall c :: FileNameChar(c, isAlnum) ==> multiset(r)[c] == multiset(name)[c]
  {
    if name == [] then []
    else
      assert name == [name[0]] + name[1..];
      var rest := KeepFileNameChars(name[1..], isAlnum);
      if FileNameChar(name[0], isAlnum) then
        assert ([name[0]] + rest)[1..] == rest;
        [name[0]] + rest
      else rest
  }

  /** The base of the download file name: kept characters, stripped; a subsequence of the item name. */
  function SafeName(name: string, isAlnum: char -> bool): (r: string)
    ensures IsSubsequence(r, name)
    ensures forall c :: c in r ==> FileNameChar(c, isAlnum)
    ensures r == [] || (!IsSpace(r[0]) && !IsSpace(r[|r| - 1]))
  {
    var kept := KeepFileNameChars(name, isAlnum);
    StripIsSubsequence(kept);
    SubsequenceTransitive(Strip(kept), kept, name);
    SubsequenceElements(Strip(kept), kept);
    Strip(kept)
  }

  /** Outcome of `GET /qr/<id>`. A NULL name reaches `for c in None`, which raises. */
  datatype QrDownload = ItemNotFound | NameIsNull | Png(fileName: string)

  function DownloadQr(rows: seq<Item>, id: int, isAlnum: char -> bool): (r: QrDownload)
    ensures r.ItemNotFound? <==> forall it :: it in rows ==> it.id != id
    ensures r.NameIsNull? ==> exists it :: it in rows && it.id == id && it.fields.inventoryName.None?
    ensures r.Png? ==> exists it :: it in rows && it.id == id && it.fields.inventoryName.Some?
                         && r.fileName == SafeName(it.fields.inventoryName.value, isAlnum) + ".png"
  {
    match Find(rows, id)
    case None => ItemNotFound
    case Some(it) =>
      match it.fields.inventoryName
      case None => NameIsNull
      case Some(name) => Png(SafeName(name, isAlnum) + ".png")
  }

  // ---------------------------------------------------------------------------
  // The table

  class ItemTable {
    var rows: seq<Item>

    ghost predicate Valid()
      reads this
    {
      UniqueIds(rows)
    }

    constructor ()
      ensures Valid() && rows == []
    {
      rows := [];
    }

    /** `SELECT MAX(id) FROM items`, one scan over the rows. */
    method QueryMaxId() returns (m: Option<int>)
      ensures m == MaxId(rows)
    {
      m := None;
      for i := 0 to |rows|
        invariant m == MaxId(rows[..i])
      {
        assert rows[..i + 1][..i] == rows[..i];
        var id := rows[i].id;
        m := match m case None => Some(id) case Some(k) => Some(if id > k then id else k);
      }
      assert rows[..|rows|] == rows;
    }

    /** `POST /add`: one row with a fresh id and the submitted values; every earlier row unchanged. */
    method Add(form: Form) returns (newId: int)
      requires Valid()
      modifies this
      ensures Valid()
      ensures newId == NextId(old(rows))
      ensures forall it :: it in old(rows) ==> it.id < newId
      ensures rows == old(rows) + [Item(newId, Stored(form))]
    {
      var maxId := QueryMaxId();
      newId := (match maxId case None => 0 case Some(m) => m) + 1;
      assert forall i :: 0 <= i < |rows| ==> rows[i] in rows;
      rows := rows + [Item(newId, Stored(form))];
    }

    /** `POST /edit/<id>`: all twelve columns of that id overwritten; ids and other rows unchanged. */
    method Edit(id: int, form: Form)
      requires Valid()
      modifies this
      ensures Valid()
      ensures rows == Overwrite(old(rows), id, Stored(form))
    {
      rows := Overwrite(rows, id, Stored(form));
    }

    /** `POST /delete/<id>`: the rows of that id removed, the rest kept in order. */
    method Delete(id: int)
      requires Valid()
      modifies this
      ensures Valid()
      ensures rows == Without(old(rows), id)
    {
      rows := Without(rows, id);
    }
  }
}
