/**
  The seeding script (setup_db.py): a spreadsheet export, already parsed into a data
  frame, is normalised step by step and then replaces the `items` table. The frame is
  column-major, as pandas keeps it.
*/
module Seeding {

  import opened Wrappers
  import opened Text
  import opened Sequences
  import Inventory

  /** A cell: missing, text (the file is read with `dtype=str`), or an integer of the generated id column. */
  datatype Cell = Null | Str(s: string) | Int(n: int)

  /** A column: its label and one cell per row. */
  datatype Column = Column(name: string, cells: seq<Cell>)

  /** A data frame; `height` is `len(df)`. */
  datatype Frame = Frame(height: nat, columns: seq<Column>)

  predicate WellFormed(f: Frame)
  {
    forall c :: c in f.columns ==> |c.cells| == f.height
  }

  /** What `read_csv(..., dtype=str)` delivers: text or missing values only. */
  predicate TextOnly(f: Frame)
  {
    forall c, k :: c in f.columns && 0 <= k < |c.cells| ==> !c.cells[k].Int?
  }

  /** No two columns carry the same label. */
  predicate UniqueColumnNames(cols: seq<Column>)
  {
    forall i, j :: 0 <= i < j < |cols| ==> cols[i].name != cols[j].name
  }

  predicate HasColumn(cols: seq<Column>, name: string)
  {
    exists c :: c in cols && c.name == name
  }

  /** The columns the application reads and writes, in the order the script lists them. */
  const Required: seq<string> := [
    "inventory_name", "serial_no", "make", "model", "hardware_type",
    "spec", "location", "status", "purchase_date",
    "warranty__period", "vendor", "bill_details"]

  // ---------------------------------------------------------------------------
  // Step 1: column names

  /** strip, lower-case, then spaces and newlines to underscores. */
  function Normalize(name: string): (r: string)
    ensures ' ' !in r && '\n' !in r
    ensures forall c :: c in r ==> !IsUpper(c)
    ensures r == [] || (!IsSpace(r[0]) && !IsSpace(r[|r| - 1]))
    ensures |r| == |Strip(name)|
  {
    ReplaceChar(ReplaceChar(Lower(Strip(name)), ' ', '_'), '\n', '_')
  }

  /** A normalised name normalises to itself. */
  lemma NormalizeIdempotent(name: string)
    ensures Normalize(Normalize(name)) == Normalize(name)
  {
    var n := Normalize(name);
    StripFixpoint(n);
    assert Lower(n) == n;
    assert ReplaceChar(n, ' ', '_') == n;
    assert ReplaceChar(n, '\n', '_') == n;
  }

  function Renamed(f: Frame): (r: Frame)
    ensures r.height == f.height && |r.columns| == |f.columns|
    ensures forall i :: 0 <= i < |f.columns| ==> r.columns[i] == Column(Normalize(f.columns[i].name), f.columns[i].cells)
  {
    Frame(f.height, seq(|f.columns|, i requires 0 <= i < |f.columns| =>
      Column(Normalize(f.columns[i].name), f.columns[i].cells)))
  }

  // ---------------------------------------------------------------------------
  // Step 2: drop leftovers of the export (an index column, the old serial number)

  /** A leftover of the export: the name contains `unnamed` or `slno`. */
  function IsArtifact(name: string): (leftover: bool)
    ensures leftover ==> 'n' in name
  {
    IsSubstring("unnamed", name) || IsSubstring("slno", name)
  }

  /** `df.drop(columns=[c for c in df.columns if 'unnamed' in c or 'slno' in c])`. */
  function Dropped(cols: seq<Column>): (r: seq<Column>)
    ensures forall c :: c in r <==> c in cols && !IsArtifact(c.name)
    ensures forall c {:trigger multiset(r)[c]} :: multiset(r)[c] == if IsArtifact(c.name) then 0 else multiset(cols)[c]
    ensures IsSubsequence(r, cols)
  {
    if cols == [] then []
    else
      var rest := Dropped(cols[1..]);
      assert cols == [cols[0]] + cols[1..];
      if IsArtifact(cols[0].name) then rest
      else
        assert ([cols[0]] + rest)[1..] == rest;
        [cols[0]] + rest
  }

  // ---------------------------------------------------------------------------
  // Step 3: a fresh id column in front

  /** `range(1, 1 + n)`. */
  function IdCells(n: nat): (r: seq<Cell>)
    ensures |r| == n && forall k :: 0 <= k < n ==> r[k] == Int(k + 1)
  {
    seq(n, k requires 0 <= k < n => Int(k + 1))
  }

  // ---------------------------------------------------------------------------
  // Step 4: backfill

  function Nulls(n: nat): (r: seq<Cell>)
    ensures |r| == n && forall k :: 0 <= k < n ==> r[k] == Null
  {
    seq(n, k requires 0 <= k < n => Null)
  }

  /** A column present in a frame is still present once columns are appended. */
  lemma HasColumnPrefix(cols: seq<Column>, longer: seq<Column>, name: string)
    requires cols <= longer && HasColumn(cols, name)
    ensures HasColumn(longer, name)
  {
    var c :| c in cols && c.name == name;
    var i :| 0 <= i < |cols| && cols[i] == c;
    assert longer[i] == c;
  }

  /** `for col in names: if col not in df.columns: df[col] = None`. */
  function Backfill(f: Frame, names: seq<string>): (r: Frame)
    ensures r.height == f.height
    ensures f.columns <= r.columns
    ensures forall name :: name in names ==> HasColumn(r.columns, name)
    ensures forall i :: |f.columns| <= i < |r.columns| ==>
      && r.columns[i].name in names
      && !HasColumn(f.columns, r.columns[i].name)
      && r.columns[i].cells == Nulls(f.height)
    decreases |names|
  {
    if names == [] then f
    else
      var next := BackfillStep(f, names[0]);
      var r := Backfill(next, names[1..]);
      assert names == [names[0]] + names[1..];
      forall name | HasColumn(f.columns, name) ensures HasColumn(next.columns, name) {
        HasColumnPrefix(f.columns, next.columns, name);
      }
      HasColumnPrefix(next.columns, r.columns, names[0]);
      r
  }

  /** One turn of the backfill loop. */
  function BackfillStep(f: Frame, name: string): (r: Frame)
    ensures r.height == f.height && f.columns <= r.columns
    ensures HasColumn(r.columns, name)
    ensures HasColumn(f.columns, name) ==> r == f
    ensures !HasColumn(f.columns, name) ==> r.columns == f.columns + [Column(name, Nulls(f.height))]
  {
    if HasColumn(f.columns, name) then f
    else
      var r := Frame(f.height, f.columns + [Column(name, Nulls(f.height))]);
      assert r.columns[|f.columns|] in r.columns;
      r
  }

  /** Backfilling distinct names keeps the column labels distinct. */
  lemma {:induction false} BackfillKeepsNamesUnique(f: Frame, names: seq<string>)
    requires UniqueColumnNames(f.columns) && NoDuplicates(names)
    ensures UniqueColumnNames(Backfill(f, names).columns)
    decreases |names|
  {
    if names != [] {
      var next := BackfillStep(f, names[0]);
      if next != f {
        forall i | 0 <= i < |f.columns| ensures f.columns[i].name != names[0] {
          assert f.columns[i] in f.columns;
        }
      }
      assert names == [names[0]] + names[1..];
      BackfillKeepsNamesUnique(next, names[1..]);
    }
  }

  // ---------------------------------------------------------------------------
  // The whole transformation

  /** The frame the script writes: renamed, dropped, numbered, then backfilled with `names`. */
  function Seeded(csv: Frame, names: seq<string>): (df: Frame)
    ensures df.height == csv.height
    ensures df.columns != [] && df.columns[0] == Column("id", IdCells(csv.height))
  {
    var kept := Dropped(Renamed(csv).columns);
    Backfill(Frame(csv.height, [Column("id", IdCells(csv.height))] + kept), names)
  }

  /**
    What the script needs of its input to get to the end: a rectangular text frame in
    which no kept column normalises to `id` (`df.insert` refuses a second `id`) and no
    two kept columns normalise to the same name (the table cannot have both).
  */
  predicate Seedable(csv: Frame)
  {
    var kept := Dropped(Renamed(csv).columns);
    && WellFormed(csv)
    && TextOnly(csv)
    && (forall c :: c in kept ==> c.name != "id")
    && UniqueColumnNames(kept)
  }

  /** One step of the drop loop: the first remaining column is kept or not. */
  lemma DroppedStep(cols: seq<Column>, i: nat)
    requires i < |cols|
    ensures Dropped(cols[i..]) == (if IsArtifact(cols[i].name) then [] else [cols[i]]) + Dropped(cols[i + 1..])
  {
    assert cols[i..][1..] == cols[i + 1..];
  }

  /** The list comprehension and the drop, as one scan over the columns. */
  method DropArtifacts(cols: seq<Column>) returns (kept: seq<Column>)
    ensures kept == Dropped(cols)
  {
    kept := [];
    for i := 0 to |cols|
      invariant kept + Dropped(cols[i..]) == Dropped(cols)
    {
      var keep := if IsArtifact(cols[i].name) then [] else [cols[i]];
      var rest := Dropped(cols[i + 1..]);
      DroppedStep(cols, i);
      assert kept + (keep + rest) == (kept + keep) + rest;
      kept := kept + keep;
    }
    assert cols[|cols|..] == [];
  }

  /** The backfill loop: each listed column that is missing is appended, all NULL. */
  method BackfillColumns(f: Frame, names: seq<string>) returns (df: Frame)
    ensures df == Backfill(f, names)
  {
    df := f;
    for j := 0 to |names|
      invariant Backfill(df, names[j..]) == Backfill(f, names)
    {
      assert names[j..][1..] == names[j + 1..];
      if !HasColumn(df.columns, names[j]) {
        df := Frame(df.height, df.columns + [Column(names[j], Nulls(df.height))]);
      }
    }
  }

  /** The script from reading the file to the frame it writes. */
  method Prepare(csv: Frame) returns (df: Frame)
    requires Seedable(csv)
    ensures df == Seeded(csv, Required)
  {
    var kept := DropArtifacts(Renamed(csv).columns);
    df := Frame(csv.height, [Column("id", IdCells(csv.height))] + kept);
    df := BackfillColumns(df, Required);
  }

  // ---------------------------------------------------------------------------
  // Properties of the seeded frame

  /** A column name as normalisation and the drop leave it: no space, no newline, no capital, no leftover marker. */
  predicate NormalName(n: string)
  {
    ' ' !in n && '\n' !in n && (forall c :: c in n ==> !IsUpper(c)) && !IsArtifact(n)
  }

  /** A normal name other than `id`. */
  predicate CleanName(n: string)
  {
    NormalName(n) && n != "id"
  }

  /** A list of distinct clean names, as the required columns are. */
  predicate CleanNames(names: seq<string>)
  {
    NoDuplicates(names) && forall n :: n in names ==> CleanName(n)
  }

  /** `t` cannot occur in `s` if one of its characters does not. */
  lemma MissingCharRulesOut(t: string, s: string, c: char)
    requires c in t && c !in s
    ensures !IsSubstring(t, s)
  {
  }

  /** `t` cannot occur in `s` if its first two characters are never adjacent in `s`. */
  lemma MissingPairRulesOut(t: string, s: string)
    requires |t| >= 2
    requires forall i :: 0 <= i < |s| - 1 ==> s[i] != t[0] || s[i + 1] != t[1]
    ensures !IsSubstring(t, s)
  {
    forall i | 0 <= i <= |s| ensures !(t <= s[i..]) {
      if i + 1 < |s| {
        assert s[i..][0] != t[0] || s[i..][1] != t[1];
      }
    }
  }

  /**
    For each required name, in order, a letter of `unnamed` and a letter of `slno` it
    lacks; `serial_no` holds every letter of `slno` and is handled by letter pairs.
  */
  const UnnamedGaps: seq<char> := ['u', 'u', 'u', 'u', 'u', 'u', 'u', 'n', 'n', 'u', 'u', 'u']
  const SlnoGaps: seq<char> := ['s', 's', 's', 's', 's', 'l', 's', 'l', 'l', 's', 's', 'n']

  /** Each required name lacks a letter of `unnamed` and (but for `serial_no`) a letter of `slno`. */
  lemma RequiredNameUnmarked(i: nat)
    requires i < |Required|
    ensures !IsArtifact(Required[i])
  {
    MissingCharRulesOut("unnamed", Required[i], UnnamedGaps[i]);
    if i == 1 {
      MissingPairRulesOut("slno", Required[1]);
    } else {
      MissingCharRulesOut("slno", Required[i], SlnoGaps[i]);
    }
  }

  /** Each required name is spelt with lower-case ASCII letters and underscores only, and is longer than `id`. */
  lemma RequiredNameSpelling(i: nat)
    requires i < |Required|
    ensures |Required[i]| > 2
    ensures forall k :: 0 <= k < |Required[i]| ==> 'a' <= Required[i][k] <= 'z' || Required[i][k] == '_'
  {
  }

  /** Each required name is clean. */
  lemma RequiredNameClean(i: nat)
    requires i < |Required|
    ensures CleanName(Required[i])
  {
    RequiredNameUnmarked(i);
    RequiredNameSpelling(i);
  }

  /** No required name is listed twice. */
  lemma RequiredNamesDistinct()
    ensures NoDuplicates(Required)
  {
  }

  /** The twelve required names are distinct and clean. */
  lemma RequiredNamesAreClean()
    ensures CleanNames(Required)
  {
    RequiredNamesDistinct();
    forall n | n in Required ensures CleanName(n) {
      var i :| 0 <= i < |Required| && Required[i] == n;
      RequiredNameClean(i);
    }
  }

  /** Every kept column is an input column under its normalised name, with the same cells. */
  lemma KeptOrigin(csv: Frame, c: Column) returns (j: nat)
    requires c in Dropped(Renamed(csv).columns)
    ensures j < |csv.columns| && c == Column(Normalize(csv.columns[j].name), csv.columns[j].cells)
    ensures !IsArtifact(c.name)
  {
    var cols := Renamed(csv).columns;
    assert c in cols;
    j :| 0 <= j < |cols| && cols[j] == c;
  }

  /** Putting a column in front of columns with distinct names that differ from its own keeps names distinct. */
  lemma IdFirstUnique(id: Column, kept: seq<Column>)
    requires UniqueColumnNames(kept) && forall c :: c in kept ==> c.name != id.name
    ensures UniqueColumnNames([id] + kept)
  {
    var cols := [id] + kept;
    forall i, j | 0 <= i < j < |cols| ensures cols[i].name != cols[j].name {
      assert cols[j] == kept[j - 1];
      if i == 0 {
        assert kept[j - 1] in kept;
      } else {
        assert cols[i] == kept[i - 1];
      }
    }
  }

  /**
    The shape of the written frame: `id` first with 1..n, as many rows as the input,
    rectangular, all names distinct, and every required column present.
  */
  lemma SeededShape(csv: Frame, names: seq<string>)
    requires Seedable(csv) && CleanNames(names)
    ensures var df := Seeded(csv, names);
      && df.height == csv.height
      && |df.columns| > 0
      && df.columns[0] == Column("id", IdCells(csv.height))
      && WellFormed(df)
      && UniqueColumnNames(df.columns)
      && (forall name :: name in names ==> HasColumn(df.columns, name))
  {
    var kept := Dropped(Renamed(csv).columns);
    var id := Column("id", IdCells(csv.height));
    var base := Frame(csv.height, [id] + kept);
    KeptWellFormed(csv);
    assert WellFormed(base);
    BackfillKeepsWellFormed(base, names);
    IdFirstUnique(id, kept);
    BackfillKeepsNamesUnique(base, names);
  }

  /** Kept columns have one cell per row. */
  lemma KeptWellFormed(csv: Frame)
    requires WellFormed(csv)
    ensures forall c :: c in Dropped(Renamed(csv).columns) ==> |c.cells| == csv.height
  {
    forall c | c in Dropped(Renamed(csv).columns) ensures |c.cells| == csv.height {
      var j := KeptOrigin(csv, c);
      assert csv.columns[j] in csv.columns;
    }
  }

  /** The columns a backfill adds have one cell per row. */
  lemma BackfillKeepsWellFormed(f: Frame, names: seq<string>)
    requires WellFormed(f)
    ensures WellFormed(Backfill(f, names))
  {
    var r := Backfill(f, names);
    forall c | c in r.columns ensures |c.cells| == f.height {
      var i :| 0 <= i < |r.columns| && r.columns[i] == c;
      if i < |f.columns| {
        assert f.columns[i] in f.columns;
      }
    }
  }

  /**
    Every column after `id` is either a kept input column, under its normalised name and
    with its cells, or a required column the input lacked, NULL in every row.
  */
  lemma SeededColumnOrigins(csv: Frame, names: seq<string>, i: nat) returns (fromInput: bool, j: nat)
    requires 1 <= i < |Seeded(csv, names).columns|
    ensures var c := Seeded(csv, names).columns[i];
      fromInput ==>
        && j < |csv.columns| && !IsArtifact(c.name)
        && c == Column(Normalize(csv.columns[j].name), csv.columns[j].cells)
    ensures var c := Seeded(csv, names).columns[i];
      !fromInput ==>
        && c.name in names
        && !HasColumn(Dropped(Renamed(csv).columns), c.name)
        && c.cells == Nulls(csv.height)
  {
    var kept := Dropped(Renamed(csv).columns);
    var id := Column("id", IdCells(csv.height));
    var base := Frame(csv.height, [id] + kept);
    var r := Backfill(base, names);
    assert Seeded(csv, names) == r;
    var c := r.columns[i];
    fromInput := i < |base.columns|;
    if fromInput {
      assert c == base.columns[i] == kept[i - 1];
      j := KeptOrigin(csv, c);
    } else {
      j := 0;
      AbsentFromTail(id, kept, c.name);
    }
  }

  /** A name absent from a list of columns is absent from its tail. */
  lemma AbsentFromTail(first: Column, rest: seq<Column>, name: string)
    requires !HasColumn([first] + rest, name)
    ensures !HasColumn(rest, name)
  {
    forall k | k in rest ensures k.name != name {
      assert k in [first] + rest;
    }
  }

  /** The name of the generated column is normal. */
  lemma IdNameNormal()
    ensures NormalName("id")
  {
    assert 'n' !in "id";
  }

  /** A backfill only adds columns with listed names. */
  lemma BackfillColumnsFrom(f: Frame, names: seq<string>)
    ensures forall c :: c in Backfill(f, names).columns ==> c in f.columns || c.name in names
  {
    var r := Backfill(f, names);
    forall c | c in r.columns ensures c in f.columns || c.name in names {
      var i :| 0 <= i < |r.columns| && r.columns[i] == c;
      if i < |f.columns| {
        assert f.columns[i] in f.columns;
      }
    }
  }

  /** Every kept column carries a normal name. */
  lemma KeptNamesNormal(csv: Frame)
    ensures forall c :: c in Dropped(Renamed(csv).columns) ==> NormalName(c.name)
  {
    forall c | c in Dropped(Renamed(csv).columns) ensures NormalName(c.name) {
      var j := KeptOrigin(csv, c);
    }
  }

  /** Every column name of the written frame is normalised and no leftover column survives. */
  lemma SeededColumnNames(csv: Frame, names: seq<string>)
    requires CleanNames(names)
    ensures forall c :: c in Seeded(csv, names).columns ==> NormalName(c.name)
  {
    var kept := Dropped(Renamed(csv).columns);
    var base := Frame(csv.height, [Column("id", IdCells(csv.height))] + kept);
    BackfillColumnsFrom(base, names);
    KeptNamesNormal(csv);
    IdNameNormal();
  }

  /** Every input column that is not a leftover reaches the written frame, renamed, with its cells unchanged. */
  lemma SeededKeepsInput(csv: Frame, names: seq<string>, j: nat)
    requires j < |csv.columns| && !IsArtifact(Normalize(csv.columns[j].name))
    ensures Column(Normalize(csv.columns[j].name), csv.columns[j].cells) in Seeded(csv, names).columns
  {
    var cols := Renamed(csv).columns;
    var kept := Dropped(cols);
    var base := Frame(csv.height, [Column("id", IdCells(csv.height))] + kept);
    var c := cols[j];
    assert c in cols && c in kept;
    assert c in base.columns;
    assert base.columns <= Seeded(csv, names).columns;
  }

  // ---------------------------------------------------------------------------
  // The frame as the `items` table

  /** A frame whose first column holds an integer id in every row. */
  predicate HasIdColumn(df: Frame)
  {
    && |df.columns| > 0
    && |df.columns[0].cells| == df.height
    && forall k :: 0 <= k < df.height ==> df.columns[0].cells[k].Int?
  }

  /** A cell as a stored text value (integer cells occur only in the id column). */
  function CellText(c: Cell): (v: Option<string>)
    ensures v.None? <==> !c.Str?
    ensures c.Str? ==> v == Some(c.s)
  {
    match c
    case Str(s) => Some(s)
    case _ => None
  }

  /** The leftmost column with the given label. */
  function ColumnNamed(cols: seq<Column>, name: string): (r: Option<Column>)
    ensures r.None? <==> !HasColumn(cols, name)
    ensures r.Some? ==> r.value in cols && r.value.name == name
  {
    if cols == [] then None
    else if cols[0].name == name then Some(cols[0])
    else
      assert forall c :: c in cols[1..] ==> c in cols;
      assert cols[0].name != name && HasColumn(cols, name) ==> HasColumn(cols[1..], name) by {
        if cols[0].name != name && HasColumn(cols, name) {
          var c :| c in cols && c.name == name;
          assert c in cols[1..];
        }
      }
      ColumnNamed(cols[1..], name)
  }

  /** With distinct labels, a column is found under its own label. */
  lemma {:induction false} ColumnNamedUnique(cols: seq<Column>, c: Column)
    requires UniqueColumnNames(cols) && c in cols
    ensures ColumnNamed(cols, c.name) == Some(c)
  {
    if cols[0] != c {
      assert c in cols[1..];
      var i :| 1 <= i < |cols| && cols[i] == c;
      assert cols[0].name != cols[i].name;
      ColumnNamedUnique(cols[1..], c);
    }
  }

  /** Row `k` of the column labelled `name`, as the application reads it; NULL if there is no such column. */
  function FieldAt(df: Frame, name: string, k: nat): Option<string>
  {
    match ColumnNamed(df.columns, name)
    case None => None
    case Some(c) => if k < |c.cells| then CellText(c.cells[k]) else None
  }

  /** An item's twelve fields, listed in the order of `Required`. */
  function FieldList(f: Inventory.Fields): (r: seq<Option<string>>)
    ensures |r| == |Required|
  {
    [f.inventoryName, f.serialNo, f.make, f.model, f.hardwareType, f.spec,
     f.location, f.status, f.purchaseDate, f.warrantyPeriod, f.vendor, f.billDetails]
  }

  /** Row `k` of the frame as an item: its id, and each required field read from the column of that name. */
  function RowItem(df: Frame, k: nat): (it: Inventory.Item)
    requires HasIdColumn(df) && k < df.height
    ensures it.id == df.columns[0].cells[k].n
    ensures forall i :: 0 <= i < |Required| ==> FieldList(it.fields)[i] == FieldAt(df, Required[i], k)
  {
    var v := seq(|Required|, i requires 0 <= i < |Required| => FieldAt(df, Required[i], k));
    Inventory.Item(df.columns[0].cells[k].n,
      Inventory.Columns(v[0], v[1], v[2], v[3], v[4], v[5], v[8], v[9], v[10], v[11], v[6], v[7]))
  }

  /** The `items` table after `to_sql(..., if_exists='replace')`, one item per frame row, in row order. */
  function ToItems(df: Frame): (items: seq<Inventory.Item>)
    requires HasIdColumn(df)
    ensures |items| == df.height
    ensures forall k :: 0 <= k < df.height ==> items[k] == RowItem(df, k)
  {
    seq(df.height, k requires 0 <= k < df.height => RowItem(df, k))
  }

  /** The seeded table holds one item per input row, numbered 1..n, so the ids are distinct. */
  lemma SeededItemsNumbered(csv: Frame, names: seq<string>)
    requires Seedable(csv) && CleanNames(names)
    ensures HasIdColumn(Seeded(csv, names))
    ensures var items := ToItems(Seeded(csv, names));
      && |items| == csv.height
      && (forall k :: 0 <= k < |items| ==> items[k].id == k + 1)
      && Inventory.UniqueIds(items)
  {
    SeededShape(csv, names);
  }

  /** A listed column the input supplies holds, in every row, the input's value, NULL where the cell was empty. */
  lemma SeededFieldFromInput(csv: Frame, names: seq<string>, j: nat, k: nat)
    requires Seedable(csv) && CleanNames(names)
    requires j < |csv.columns| && !IsArtifact(Normalize(csv.columns[j].name))
    requires k < csv.height
    ensures FieldAt(Seeded(csv, names), Normalize(csv.columns[j].name), k) == CellText(csv.columns[j].cells[k])
  {
    SeededShape(csv, names);
    SeededKeepsInput(csv, names, j);
    var c := Column(Normalize(csv.columns[j].name), csv.columns[j].cells);
    ColumnNamedUnique(Seeded(csv, names).columns, c);
  }

  /** The column a backfill adds for a name the frame lacked is found under that name and is NULL throughout. */
  lemma BackfilledColumnIsNull(f: Frame, names: seq<string>, name: string)
    requires name in names && !HasColumn(f.columns, name)
    ensures ColumnNamed(Backfill(f, names).columns, name).Some?
    ensures ColumnNamed(Backfill(f, names).columns, name).value.cells == Nulls(f.height)
  {
    var r := Backfill(f, names);
    var c := ColumnNamed(r.columns, name).value;
    var i :| 0 <= i < |r.columns| && r.columns[i] == c;
    forall m | 0 <= m < |f.columns| ensures r.columns[m].name != name {
      assert r.columns[m] == f.columns[m] && f.columns[m] in f.columns;
    }
  }

  /** A listed column the input lacks is NULL in every row. */
  lemma SeededFieldBackfilled(csv: Frame, names: seq<string>, name: string, k: nat)
    requires Seedable(csv) && CleanNames(names) && name in names
    requires forall j :: 0 <= j < |csv.columns| && !IsArtifact(Normalize(csv.columns[j].name)) ==>
               Normalize(csv.columns[j].name) != name
    ensures FieldAt(Seeded(csv, names), name, k) == None
  {
    assert CleanName(name);
    var kept := Dropped(Renamed(csv).columns);
    var base := Frame(csv.height, [Column("id", IdCells(csv.height))] + kept);
    forall c | c in base.columns ensures c.name != name {
      if c in kept {
        var j := KeptOrigin(csv, c);
      }
    }
    BackfilledColumnIsNull(base, names, name);
  }

  /** A required column the input supplies: every item carries the input's value, NULL where the cell was empty. */
  lemma SeededItemsCarryInput(csv: Frame, j: nat, i: nat, k: nat)
    requires Seedable(csv)
    requires j < |csv.columns| && !IsArtifact(Normalize(csv.columns[j].name))
    requires i < |Required| && Normalize(csv.columns[j].name) == Required[i]
    requires k < csv.height
    ensures HasIdColumn(Seeded(csv, Required))
    ensures FieldList(ToItems(Seeded(csv, Required))[k].fields)[i] == CellText(csv.columns[j].cells[k])
  {
    RequiredNamesAreClean();
    SeededItemsNumbered(csv, Required);
    SeededFieldFromInput(csv, Required, j, k);
    var df := Seeded(csv, Required);
    assert ToItems(df)[k] == RowItem(df, k);
  }

  /** A required column the input lacks: every item has NULL there. */
  lemma SeededItemsBackfillNull(csv: Frame, i: nat, k: nat)
    requires Seedable(csv)
    requires i < |Required|
    requires forall j :: 0 <= j < |csv.columns| && !IsArtifact(Normalize(csv.columns[j].name)) ==>
               Normalize(csv.columns[j].name) != Required[i]
    requires k < csv.height
    ensures HasIdColumn(Seeded(csv, Required))
    ensures FieldList(ToItems(Seeded(csv, Required))[k].fields)[i] == None
  {
    RequiredNamesAreClean();
    SeededItemsNumbered(csv, Required);
    SeededFieldBackfilled(csv, Required, Required[i], k);
    var df := Seeded(csv, Required);
    assert ToItems(df)[k] == RowItem(df, k);
  }

  // ---------------------------------------------------------------------------
  // The script

  /**
    `init_db`: without a source file (`None`) it returns before touching the database;
    otherwise the prepared frame replaces the `items` table, no old row surviving.
  */
  method InitDb(csv: Option<Frame>, table: Inventory.ItemTable)
    requires csv.Some? ==> Seedable(csv.value)
    modifies table
    ensures csv.None? ==> table.rows == old(table.rows)
    ensures csv.Some? ==> HasIdColumn(Seeded(csv.value, Required))
    ensures csv.Some? ==> table.rows == ToItems(Seeded(csv.value, Required)) && table.Valid()
  {
    if csv.None? {
      return;
    }
    var df := Prepare(csv.value);
    RequiredNamesAreClean();
    SeededItemsNumbered(csv.value, Required);
    table.rows := ToItems(df);
  }
}
