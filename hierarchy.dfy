/** The Woreda/Kebele hierarchy as the application changes it: spreadsheet
    import (find-or-create the Woreda, always append the Kebele), manual add,
    bulk Kebele add, cascade delete, rename and re-parenting. Each operation
    is a function from the old database to the new one (or to an error that
    leaves it unchanged); the store's methods are proved equal to these. */
module Hierarchy {
  import opened Common
  import opened Models
  import opened Text

  const WoredaColumn := "Woreda"
  const KebeleColumn := "Kebele"

  /** One spreadsheet row: the cells that hold a value. A cell read as
      missing (NaN) is absent from the map. */
  type Row = map<string, string>

  /** An uploaded sheet: its header and its data rows in order. */
  datatype Sheet = Sheet(columns: seq<string>, rows: seq<Row>)

  /** The (Woreda, Kebele) pair of a row whose two cells are both filled. */
  datatype Entry = Entry(woreda: string, kebele: string)

  // ---------------------------------------------------------------- lookups

  /** Some Woreda is called `name`. */
  predicate HasName(ws: seq<Woreda>, name: string) {
    exists w :: w in ws && w.name == name
  }

  /** The set of Woreda names in the table. */
  function NameSet(ws: seq<Woreda>): set<string> {
    set w | w in ws :: w.name
  }

  /** `query(Woreda).filter(Woreda.name == name).first()`. */
  function FindWoreda(ws: seq<Woreda>, name: string): (r: Option<Woreda>)
    ensures r.Some? ==> r.value in ws && r.value.name == name
    ensures r.None? <==> !HasName(ws, name)
  {
    if ws == [] then None
    else if ws[0].name == name then Some(ws[0])
    else FindWoreda(ws[1..], name)
  }

  /** Position of the Woreda whose primary key is `id`. */
  function WoredaIndex(ws: seq<Woreda>, id: nat): (r: Option<nat>)
    ensures r.Some? ==> r.value < |ws| && ws[r.value].id == id
    ensures r.None? <==> !HasWoreda(ws, id)
  {
    if ws == [] then None
    else if ws[0].id == id then Some(0)
    else match WoredaIndex(ws[1..], id)
      case None => None
      case Some(i) => Some(i + 1)
  }

  /** Position of the Kebele whose primary key is `id`. */
  function KebeleIndex(ks: seq<Kebele>, id: nat): (r: Option<nat>)
    ensures r.Some? ==> r.value < |ks| && ks[r.value].id == id
    ensures r.None? <==> (forall k :: k in ks ==> k.id != id)
  {
    if ks == [] then None
    else if ks[0].id == id then Some(0)
    else match KebeleIndex(ks[1..], id)
      case None => None
      case Some(i) => Some(i + 1)
  }

  /** In a table with unique names, the lookup by name finds THE Woreda of that name. */
  lemma FindWoredaUnique(ws: seq<Woreda>, w: Woreda)
    requires DistinctBy(ws, WoredaName) && w in ws
    ensures FindWoreda(ws, w.name) == Some(w)
  {
    var found := FindWoreda(ws, w.name);
    DistinctKeyIdentifies(ws, WoredaName, found.value, w);
  }

  // ---------------------------------------------------------- spreadsheet import

  /** The upload has both required columns. */
  predicate HasRequiredColumns(sheet: Sheet) {
    WoredaColumn in sheet.columns && KebeleColumn in sheet.columns
  }

  /** The row's pair, or None when either cell is missing. */
  function RowEntry(row: Row): (r: Option<Entry>)
    ensures r.Some? <==> WoredaColumn in row && KebeleColumn in row
    ensures r.Some? ==> r.value == Entry(row[WoredaColumn], row[KebeleColumn])
  {
    if WoredaColumn in row && KebeleColumn in row
    then Some(Entry(row[WoredaColumn], row[KebeleColumn]))
    else None
  }

  predicate IsComplete(row: Row) {
    RowEntry(row).Some?
  }

  /** The pairs of the complete rows, in row order. */
  function Entries(rows: seq<Row>): (es: seq<Entry>)
    ensures |es| <= |rows|
    decreases |rows|
  {
    if rows == [] then []
    else match RowEntry(rows[|rows| - 1])
      case None => Entries(rows[..|rows| - 1])
      case Some(e) => Entries(rows[..|rows| - 1]) + [e]
  }

  /** One complete row: find the Woreda by exact name or create it, then
      append a Kebele under it. */
  function AddEntry(db: Db, e: Entry): (r: Db)
    ensures r.users == db.users && r.farmers == db.farmers
    ensures r.nextUserId == db.nextUserId && r.nextFarmerId == db.nextFarmerId
    ensures |r.woredas| == |db.woredas| + (if HasName(db.woredas, e.woreda) then 0 else 1)
    ensures r.woredas[..|db.woredas|] == db.woredas
    ensures forall w :: w in r.woredas ==> w in db.woredas || w == Woreda(db.nextWoredaId, e.woreda)
    ensures r.nextWoredaId >= db.nextWoredaId
    ensures |r.kebeles| == |db.kebeles| + 1 && r.kebeles[..|db.kebeles|] == db.kebeles
    ensures r.nextKebeleId == db.nextKebeleId + 1
    ensures var k := r.kebeles[|db.kebeles|];
            k.id == db.nextKebeleId && k.name == e.kebele && Woreda(k.woredaId, e.woreda) in r.woredas
  {
    var (d, wid) :=
      match FindWoreda(db.woredas, e.woreda)
      case Some(w) => (db, w.id)
      case None =>
        (db.(woredas := db.woredas + [Woreda(db.nextWoredaId, e.woreda)],
             nextWoredaId := db.nextWoredaId + 1),
         db.nextWoredaId);
    assert d.woredas[..|db.woredas|] == db.woredas;
    d.(kebeles := d.kebeles + [Kebele(d.nextKebeleId, e.kebele, wid)],
       nextKebeleId := d.nextKebeleId + 1)
  }

  /** The import loop over the rows, in order; incomplete rows change nothing. */
  function ImportRows(db: Db, rows: seq<Row>): (r: Db)
    ensures r.users == db.users && r.farmers == db.farmers
    ensures r.nextUserId == db.nextUserId && r.nextFarmerId == db.nextFarmerId
    ensures |r.woredas| >= |db.woredas| && r.woredas[..|db.woredas|] == db.woredas
    ensures r.nextWoredaId >= db.nextWoredaId
    ensures |r.kebeles| == |db.kebeles| + |Entries(rows)| && r.kebeles[..|db.kebeles|] == db.kebeles
    ensures r.nextKebeleId == db.nextKebeleId + |Entries(rows)|
    decreases |rows|
  {
    if rows == [] then db
    else
      var d := ImportRows(db, rows[..|rows| - 1]);
      match RowEntry(rows[|rows| - 1])
      case None => d
      case Some(e) =>
        var r := AddEntry(d, e);
        assert r.woredas[..|db.woredas|] == d.woredas[..|d.woredas|][..|db.woredas|];
        assert r.kebeles[..|db.kebeles|] == d.kebeles[..|d.kebeles|][..|db.kebeles|];
        r
  }

  /** One more row of the loop: the state after `i + 1` rows is the state
      after `i` rows with row `i` added when it is complete. */
  lemma ImportRowsStep(db: Db, rows: seq<Row>, i: nat)
    requires i < |rows|
    ensures ImportRows(db, rows[..i + 1]) ==
              match RowEntry(rows[i])
              case None => ImportRows(db, rows[..i])
              case Some(e) => AddEntry(ImportRows(db, rows[..i]), e)
  {
    assert rows[..i + 1][..i] == rows[..i];
  }

  /** The whole upload: rejected before any write when a required column is
      missing, otherwise every row imported. */
  function ImportSheet(db: Db, sheet: Sheet): (r: Result<Db, Error>)
    ensures r.Err? <==> !HasRequiredColumns(sheet)
    ensures r.Err? ==> r.error == MissingColumns
  {
    if !HasRequiredColumns(sheet) then Err(MissingColumns)
    else Ok(ImportRows(db, sheet.rows))
  }

  /** Adding one complete row keeps every schema constraint: the Woreda is
      created only under a name not yet taken, with a fresh id. */
  lemma AddEntryKeepsValid(db: Db, e: Entry)
    requires Valid(db)
    ensures Valid(AddEntry(db, e))
  {
    var r := AddEntry(db, e);
    var k := r.kebeles[|db.kebeles|];
    if !HasName(db.woredas, e.woreda) {
      var nw := Woreda(db.nextWoredaId, e.woreda);
      assert r.woredas == db.woredas + [nw];
      AppendKeepsDistinct(db.woredas, nw, WoredaName);
      AppendKeepsDistinct(db.woredas, nw, WoredaId);
    } else {
      assert r.woredas == db.woredas;
    }
    assert r.kebeles == db.kebeles + [k];
    AppendKeepsDistinct(db.kebeles, k, KebeleId);
    forall k' | k' in r.kebeles ensures k'.id < r.nextKebeleId && HasWoreda(r.woredas, k'.woredaId) {
      if k' in db.kebeles {
        var w :| w in db.woredas && w.id == k'.woredaId;
        assert w in r.woredas;
      } else {
        assert k' == k;
        assert Woreda(k.woredaId, e.woreda) in r.woredas;
      }
    }
  }

  /** Importing any rows into a valid database leaves it valid; in particular
      Woreda names stay unique however often a name repeats in the sheet. */
  lemma {:induction false} ImportRowsKeepsValid(db: Db, rows: seq<Row>)
    requires Valid(db)
    ensures Valid(ImportRows(db, rows))
    decreases |rows|
  {
    if rows != [] {
      var d := ImportRows(db, rows[..|rows| - 1]);
      ImportRowsKeepsValid(db, rows[..|rows| - 1]);
      match RowEntry(rows[|rows| - 1])
      case None =>
      case Some(e) => AddEntryKeepsValid(d, e);
    }
  }

  /** Position `i` of the Kebele table holds the Kebele written for entry
      `es[i - base]`: id `next + (i - base)`, the entry's Kebele name, and the
      id of a Woreda carrying the entry's Woreda name. */
  predicate ImportedKebele(r: Db, base: int, next: int, es: seq<Entry>, i: int) {
    && 0 <= base <= i < |r.kebeles|
    && i - base < |es|
    && r.kebeles[i].id == next + (i - base)
    && r.kebeles[i].name == es[i - base].kebele
    && Woreda(r.kebeles[i].woredaId, es[i - base].woreda) in r.woredas
  }

  /** Every position from `base` on holds the Kebele written for its entry. */
  predicate AllImported(r: Db, base: int, next: int, es: seq<Entry>) {
    forall i :: base <= i < |r.kebeles| ==> ImportedKebele(r, base, next, es, i)
  }

  /** Each complete row, repeats included, appends exactly one Kebele, in row
      order, with the row's Kebele name and the id of the Woreda carrying the
      row's Woreda name; the earlier Kebeles are untouched (see ImportRows). */
  lemma {:induction false} ImportRowsAppendsOneKebelePerEntry(db: Db, rows: seq<Row>)
    ensures AllImported(ImportRows(db, rows), |db.kebeles|, db.nextKebeleId, Entries(rows))
    decreases |rows|
  {
    if rows != [] {
      var init := rows[..|rows| - 1];
      var d := ImportRows(db, init);
      var es0 := Entries(init);
      ImportRowsAppendsOneKebelePerEntry(db, init);
      assert AllImported(d, |db.kebeles|, db.nextKebeleId, es0);
      match RowEntry(rows[|rows| - 1])
      case None =>
        assert Entries(rows) == es0;
        assert ImportRows(db, rows) == d;
      case Some(e) =>
        var r := AddEntry(d, e);
        var es := Entries(rows);
        assert es == es0 + [e];
        assert ImportRows(db, rows) == r;
        forall i | |db.kebeles| <= i < |r.kebeles|
          ensures ImportedKebele(r, |db.kebeles|, db.nextKebeleId, es, i)
        {
          if i < |d.kebeles| {
            assert ImportedKebele(d, |db.kebeles|, db.nextKebeleId, es0, i);
            assert r.kebeles[i] == r.kebeles[..|d.kebeles|][i] == d.kebeles[i];
            assert es[i - |db.kebeles|] == es0[i - |db.kebeles|];
            assert d.woredas == r.woredas[..|d.woredas|];
          } else {
            assert es[i - |db.kebeles|] == e;
          }
        }
    }
  }

  /** After the import, the Woreda names are the old names plus the Woreda
      names of the complete rows: a missing Woreda is created, an existing one reused. */
  lemma {:induction false} ImportRowsWoredaNames(db: Db, rows: seq<Row>)
    ensures NameSet(ImportRows(db, rows).woredas) == NameSet(db.woredas) + (set e | e in Entries(rows) :: e.woreda)
    decreases |rows|
  {
    if rows != [] {
      var init := rows[..|rows| - 1];
      var d := ImportRows(db, init);
      ImportRowsWoredaNames(db, init);
      match RowEntry(rows[|rows| - 1]) {
        case None =>
        case Some(e) =>
          assert Entries(rows) == Entries(init) + [e];
          AddEntryNames(d, e);
      }
    }
  }

  /** Adding an entry adds exactly its Woreda name to the name set. */
  lemma AddEntryNames(db: Db, e: Entry)
    ensures NameSet(AddEntry(db, e).woredas) == NameSet(db.woredas) + {e.woreda}
  {
    var r := AddEntry(db, e);
    forall n | n in NameSet(r.woredas) ensures n in NameSet(db.woredas) + {e.woreda} {
      var w :| w in r.woredas && w.name == n;
    }
    forall n | n in NameSet(db.woredas) ensures n in NameSet(r.woredas) {
      var w :| w in db.woredas && w.name == n;
      var i :| 0 <= i < |db.woredas| && db.woredas[i] == w;
      assert r.woredas[i] == w;
    }
    assert Woreda(r.kebeles[|db.kebeles|].woredaId, e.woreda) in r.woredas;
  }

  /** With unique names there are as many names as rows. */
  lemma {:induction false} DistinctNamesCount(ws: seq<Woreda>)
    requires DistinctBy(ws, WoredaName)
    ensures |NameSet(ws)| == |ws|
    decreases |ws|
  {
    if ws != [] {
      var init := ws[..|ws| - 1];
      var last := ws[|ws| - 1];
      LastNameIsNew(ws);
      DistinctNamesCount(init);
      NewNameCount(init, last);
      assert ws == init + [last];
    }
  }

  /** The prefix keeps unique names, and the last name is not among them. */
  lemma LastNameIsNew(ws: seq<Woreda>)
    requires ws != [] && DistinctBy(ws, WoredaName)
    ensures DistinctBy(ws[..|ws| - 1], WoredaName)
    ensures ws[|ws| - 1].name !in NameSet(ws[..|ws| - 1])
  {
    var init := ws[..|ws| - 1];
    forall i, j | 0 <= i < j < |init| ensures WoredaName(init[i]) != WoredaName(init[j]) {
      assert init[i] == ws[i] && init[j] == ws[j];
    }
    forall w | w in init ensures w.name != ws[|ws| - 1].name {
      var i :| 0 <= i < |init| && init[i] == w;
      assert WoredaName(ws[i]) != WoredaName(ws[|ws| - 1]);
    }
  }

  /** A Woreda with a new name adds one to the count of names. */
  lemma NewNameCount(ws: seq<Woreda>, w: Woreda)
    requires w.name !in NameSet(ws)
    ensures |NameSet(ws + [w])| == |NameSet(ws)| + 1
  {
    NameSetAppend(ws, w);
  }

  /** Appending a Woreda adds exactly its name to the name set. */
  lemma NameSetAppend(ws: seq<Woreda>, w: Woreda)
    ensures NameSet(ws + [w]) == NameSet(ws) + {w.name}
  {
    forall n | n in NameSet(ws + [w]) ensures n in NameSet(ws) + {w.name} {
      var v :| v in ws + [w] && v.name == n;
      if v != w { assert v in ws; }
    }
    forall n | n in NameSet(ws) + {w.name} ensures n in NameSet(ws + [w]) {
      if n != w.name {
        var v :| v in ws && v.name == n;
        assert v in ws + [w];
      } else {
        assert w in ws + [w];
      }
    }
  }

  /** Each distinct new Woreda name of the sheet is created exactly once: the
      Woreda table grows by the number of row Woreda names it did not already hold. */
  lemma ImportCreatesEachNewNameOnce(db: Db, rows: seq<Row>)
    requires Valid(db)
    ensures var r := ImportRows(db, rows);
            var added := (set e | e in Entries(rows) :: e.woreda) - NameSet(db.woredas);
            |r.woredas| == |db.woredas| + |added|
  {
    var r := ImportRows(db, rows);
    var names := set e | e in Entries(rows) :: e.woreda;
    var added := names - NameSet(db.woredas);
    ImportRowsKeepsValid(db, rows);
    ImportRowsWoredaNames(db, rows);
    DistinctNamesCount(db.woredas);
    DistinctNamesCount(r.woredas);
    UnionWithNewCount(NameSet(db.woredas), names);
  }

  /** The names added to a set are those not already in it. */
  lemma UnionWithNewCount<T>(a: set<T>, b: set<T>)
    ensures a + b == a + (b - a) && |a + b| == |a| + |b - a|
  {
    assert a * (b - a) == {};
  }

  /** Importing the rows keeps exactly what importing only the complete rows does:
      a row with a missing cell changes nothing. */
  lemma {:induction false} ImportSkipsIncompleteRows(db: Db, rows: seq<Row>)
    ensures ImportRows(db, rows) == ImportRows(db, Filter(rows, IsComplete))
    decreases |rows|
  {
    if rows != [] {
      var init := rows[..|rows| - 1];
      var last := rows[|rows| - 1];
      var kept := Filter(init, IsComplete);
      ImportSkipsIncompleteRows(db, init);
      if IsComplete(last) {
        assert Filter(rows, IsComplete) == kept + [last];
        assert (kept + [last])[..|kept|] == kept;
      } else {
        assert Filter(rows, IsComplete) == kept;
      }
    }
  }

  /** A row whose Woreda already exists only appends a Kebele under it. */
  lemma AddEntryToExisting(db: Db, e: Entry, w: Woreda)
    requires DistinctBy(db.woredas, WoredaName) && w in db.woredas && w.name == e.woreda
    ensures AddEntry(db, e) == db.(kebeles := db.kebeles + [Kebele(db.nextKebeleId, e.kebele, w.id)],
                                   nextKebeleId := db.nextKebeleId + 1)
  {
    FindWoredaUnique(db.woredas, w);
  }

  /** The same entry added twice: the second time finds the Woreda the first
      one used and appends a second Kebele under it. */
  lemma AddEntryTwice(db: Db, e: Entry)
    requires Valid(db)
    ensures var d1 := AddEntry(db, e);
            var r := AddEntry(d1, e);
            var n := |db.kebeles|;
            && |r.kebeles| == n + 2
            && r.kebeles[n] == d1.kebeles[n]
            && r.kebeles[n + 1] == Kebele(d1.nextKebeleId, e.kebele, d1.kebeles[n].woredaId)
            && r.woredas == d1.woredas
  {
    var d1 := AddEntry(db, e);
    var n := |db.kebeles|;
    AddEntryKeepsValid(db, e);
    AddEntryToExisting(d1, e, Woreda(d1.kebeles[n].woredaId, e.woreda));
  }

  /** The same row twice gives two Kebeles with the same name under the same
      Woreda, and at most one new Woreda: duplicates are kept, not merged. */
  lemma ImportKeepsDuplicateRows(db: Db, row: Row)
    requires Valid(db) && IsComplete(row)
    ensures var r := ImportRows(db, [row, row]);
            var n := |db.kebeles|;
            && |r.kebeles| == n + 2
            && r.kebeles[n].name == r.kebeles[n + 1].name == row[KebeleColumn]
            && r.kebeles[n].woredaId == r.kebeles[n + 1].woredaId
            && |r.woredas| <= |db.woredas| + 1
  {
    ImportSameRowTwice(db, row);
    AddEntryTwice(db, RowEntry(row).value);
  }

  /** Importing a complete row twice adds its entry twice. */
  lemma ImportSameRowTwice(db: Db, row: Row)
    requires IsComplete(row)
    ensures ImportRows(db, [row, row]) == AddEntry(AddEntry(db, RowEntry(row).value), RowEntry(row).value)
  {
    var e := RowEntry(row).value;
    var rows := [row, row];
    assert ImportRows(db, rows[..1]) == AddEntry(db, e) by {
      ImportRowsStep(db, rows, 0);
      assert rows[..0] == [];
    }
    ImportRowsStep(db, rows, 1);
    assert rows[..2] == rows;
  }

  // ------------------------------------------------------ manual management

  /** "Save New Woreda": an empty name is refused, a taken name violates the
      UNIQUE constraint; otherwise the Woreda is appended with a fresh id. */
  function AddWoreda(db: Db, name: string): (r: Result<Db, Error>)
    ensures r.Err? <==> name == [] || HasName(db.woredas, name)
    ensures r.Err? && name == [] ==> r.error == EmptyName
    ensures r.Err? && name != [] ==> r.error == DuplicateName
    ensures r.Ok? ==> r.value == db.(woredas := db.woredas + [Woreda(db.nextWoredaId, name)],
                                     nextWoredaId := db.nextWoredaId + 1)
  {
    if name == [] then Err(EmptyName)
    else if FindWoreda(db.woredas, name).Some? then Err(DuplicateName)
    else Ok(db.(woredas := db.woredas + [Woreda(db.nextWoredaId, name)],
                nextWoredaId := db.nextWoredaId + 1))
  }

  lemma AddWoredaKeepsValid(db: Db, name: string)
    requires Valid(db) && AddWoreda(db, name).Ok?
    ensures Valid(AddWoreda(db, name).value)
  {
    var nw := Woreda(db.nextWoredaId, name);
    AppendKeepsDistinct(db.woredas, nw, WoredaName);
    AppendKeepsDistinct(db.woredas, nw, WoredaId);
    var r := AddWoreda(db, name).value;
    forall k | k in r.kebeles ensures HasWoreda(r.woredas, k.woredaId) {
      var w :| w in db.woredas && w.id == k.woredaId;
      assert w in r.woredas;
    }
  }

  /** A line of the bulk form that holds more than whitespace. */
  predicate NonBlank(line: string) {
    Strip(line) != []
  }

  /** The Kebele names of the bulk form: each line stripped, blank lines skipped. */
  function KebeleNames(lines: seq<string>): (r: seq<string>)
    ensures |r| <= |lines|
    decreases |lines|
  {
    if lines == [] then []
    else
      var init := KebeleNames(lines[..|lines| - 1]);
      var name := Strip(lines[|lines| - 1]);
      if name != [] then init + [name] else init
  }

  /** One name per non-blank line, in the order of the lines, each the
      stripped line: repeated lines give repeated names. */
  lemma {:induction false} KebeleNamesOfNonBlankLines(lines: seq<string>)
    ensures |KebeleNames(lines)| == |Filter(lines, NonBlank)|
    ensures forall k :: 0 <= k < |KebeleNames(lines)| ==>
              KebeleNames(lines)[k] == Strip(Filter(lines, NonBlank)[k])
    decreases |lines|
  {
    if lines != [] {
      var init := lines[..|lines| - 1];
      var last := lines[|lines| - 1];
      KebeleNamesOfNonBlankLines(init);
      if NonBlank(last) {
        assert KebeleNames(lines) == KebeleNames(init) + [Strip(last)];
        assert Filter(lines, NonBlank) == Filter(init, NonBlank) + [last];
      } else {
        assert KebeleNames(lines) == KebeleNames(init);
        assert Filter(lines, NonBlank) == Filter(init, NonBlank);
      }
    }
  }

  /** A bulk name is exactly the stripped form of some non-blank line, and it
      carries no whitespace at either end. */
  lemma {:induction false} KebeleNamesAreStrippedLines(lines: seq<string>)
    ensures forall n :: n in KebeleNames(lines) <==> n != [] && exists l :: l in lines && Strip(l) == n
    ensures forall n :: n in KebeleNames(lines) ==> Strip(n) == n
    decreases |lines|
  {
    if lines != [] {
      var init := lines[..|lines| - 1];
      var last := lines[|lines| - 1];
      KebeleNamesAreStrippedLines(init);
      StripIdempotent(last);
      assert lines == init + [last];
      forall n | n != [] && (exists l :: l in lines && Strip(l) == n) ensures n in KebeleNames(lines) {
        var l :| l in lines && Strip(l) == n;
        if l != last { assert l in init; }
      }
    }
  }

  /** Appends one Kebele per name under the Woreda `wid`, with consecutive fresh ids. */
  function AppendKebeles(db: Db, names: seq<string>, wid: nat): (r: Db)
    ensures r.users == db.users && r.woredas == db.woredas && r.farmers == db.farmers
    ensures r.nextUserId == db.nextUserId && r.nextWoredaId == db.nextWoredaId
    ensures r.nextFarmerId == db.nextFarmerId
    ensures |r.kebeles| == |db.kebeles| + |names| && r.kebeles[..|db.kebeles|] == db.kebeles
    ensures r.nextKebeleId == db.nextKebeleId + |names|
    decreases |names|
  {
    if names == [] then db
    else
      var d := AppendKebeles(db, names[..|names| - 1], wid);
      var r := d.(kebeles := d.kebeles + [Kebele(d.nextKebeleId, names[|names| - 1], wid)],
                  nextKebeleId := d.nextKebeleId + 1);
      assert r.kebeles[..|db.kebeles|] == d.kebeles[..|db.kebeles|];
      r
  }

  /** The appended rows, in order: the k-th name becomes a Kebele with id
      `nextKebeleId + k` under the Woreda `wid`. */
  lemma {:induction false} AppendKebelesContents(db: Db, names: seq<string>, wid: nat)
    ensures forall j :: |db.kebeles| <= j < |AppendKebeles(db, names, wid).kebeles| ==>
              AppendKebeles(db, names, wid).kebeles[j] ==
                Kebele(db.nextKebeleId + (j - |db.kebeles|), names[j - |db.kebeles|], wid)
    decreases |names|
  {
    if names != [] {
      var init := names[..|names| - 1];
      var d := AppendKebeles(db, init, wid);
      AppendKebelesContents(db, init, wid);
      var r := AppendKebeles(db, names, wid);
      assert r.kebeles == d.kebeles + [Kebele(d.nextKebeleId, names[|names| - 1], wid)];
      forall j | |db.kebeles| <= j < |r.kebeles|
        ensures r.kebeles[j] == Kebele(db.nextKebeleId + (j - |db.kebeles|), names[j - |db.kebeles|], wid)
      {
        if j < |d.kebeles| {
          assert r.kebeles[j] == d.kebeles[j];
          assert names[j - |db.kebeles|] == init[j - |db.kebeles|];
        }
      }
    }
  }

  /** One more line of the bulk form: a non-blank line adds its stripped text. */
  lemma KebeleNamesStep(lines: seq<string>, i: nat)
    requires i < |lines|
    ensures KebeleNames(lines[..i + 1]) ==
              if Strip(lines[i]) != [] then KebeleNames(lines[..i]) + [Strip(lines[i])] else KebeleNames(lines[..i])
  {
    assert lines[..i + 1][..i] == lines[..i];
  }

  /** One more name: one more Kebele with the next id. */
  lemma AppendKebelesStep(db: Db, names: seq<string>, name: string, wid: nat)
    ensures var d := AppendKebeles(db, names, wid);
            AppendKebeles(db, names + [name], wid) ==
              d.(kebeles := d.kebeles + [Kebele(d.nextKebeleId, name, wid)], nextKebeleId := d.nextKebeleId + 1)
  {
    assert (names + [name])[..|names|] == names;
  }

  /** One more line of the bulk form: a blank line adds nothing, any other
      line one Kebele named by the stripped line, with the next id. */
  lemma AppendKebeleLinesStep(db: Db, lines: seq<string>, i: nat, wid: nat)
    requires i < |lines|
    ensures var d := AppendKebeles(db, KebeleNames(lines[..i]), wid);
            var name := Strip(lines[i]);
            AppendKebeles(db, KebeleNames(lines[..i + 1]), wid) ==
              if name == [] then d
              else d.(kebeles := d.kebeles + [Kebele(d.nextKebeleId, name, wid)], nextKebeleId := d.nextKebeleId + 1)
  {
    KebeleNamesStep(lines, i);
    AppendKebelesStep(db, KebeleNames(lines[..i]), Strip(lines[i]), wid);
  }

  /** "Save New Kebeles": nothing is written when the text is empty or no
      Woreda has the selected name; otherwise one Kebele per non-blank line. */
  function AddKebeles(db: Db, woredaName: string, text: string): (r: Result<Db, Error>)
    ensures r.Err? <==> text == [] || !HasName(db.woredas, woredaName)
    ensures r.Err? ==> r.error == NothingToAdd
  {
    if text == [] then Err(NothingToAdd)
    else match FindWoreda(db.woredas, woredaName)
      case None => Err(NothingToAdd)
      case Some(w) => Ok(AppendKebeles(db, KebeleNames(SplitLines(text)), w.id))
  }

  lemma AppendKebelesKeepsValid(db: Db, names: seq<string>, wid: nat)
    requires Valid(db) && HasWoreda(db.woredas, wid)
    ensures Valid(AppendKebeles(db, names, wid))
  {
    var r := AppendKebeles(db, names, wid);
    var n := |db.kebeles|;
    AppendKebelesContents(db, names, wid);
    forall k | k in r.kebeles ensures k.id < r.nextKebeleId && HasWoreda(r.woredas, k.woredaId) {
      var i :| 0 <= i < |r.kebeles| && r.kebeles[i] == k;
      if i < n { assert k == r.kebeles[..n][i]; }
    }
    forall i, j | 0 <= i < j < |r.kebeles| ensures KebeleId(r.kebeles[i]) != KebeleId(r.kebeles[j]) {
      if j < n {
        assert r.kebeles[i] == r.kebeles[..n][i] && r.kebeles[j] == r.kebeles[..n][j];
      } else if i < n {
        assert r.kebeles[i] == r.kebeles[..n][i];
        assert r.kebeles[i] in db.kebeles;
      }
    }
  }

  /** A successful bulk add writes exactly one Kebele per non-blank line, named
      by the stripped line, under the selected Woreda, and keeps the database valid. */
  lemma AddKebelesSpec(db: Db, woredaName: string, text: string)
    requires Valid(db) && AddKebeles(db, woredaName, text).Ok?
    ensures var r := AddKebeles(db, woredaName, text).value;
            var lines := Filter(SplitLines(text), NonBlank);
            var w := FindWoreda(db.woredas, woredaName).value;
            && Valid(r)
            && r == db.(kebeles := r.kebeles, nextKebeleId := db.nextKebeleId + |lines|)
            && |r.kebeles| == |db.kebeles| + |lines|
            && r.kebeles[..|db.kebeles|] == db.kebeles
            && (forall k :: 0 <= k < |lines| ==>
                  r.kebeles[|db.kebeles| + k] == Kebele(db.nextKebeleId + k, Strip(lines[k]), w.id))
            && w.name == woredaName && w in r.woredas
            && forall j :: |db.kebeles| <= j < |r.kebeles| ==> Strip(r.kebeles[j].name) == r.kebeles[j].name != []
  {
    var w := FindWoreda(db.woredas, woredaName).value;
    var names := KebeleNames(SplitLines(text));
    var r := AppendKebeles(db, names, w.id);
    assert AddKebeles(db, woredaName, text).value == r;
    AppendKebelesKeepsValid(db, names, w.id);
    AppendKebeleLinesSpec(db, SplitLines(text), w.id);
    assert forall j :: |db.kebeles| <= j < |r.kebeles| ==> Strip(r.kebeles[j].name) == r.kebeles[j].name != [] by {
      AppendKebelesContents(db, names, w.id);
      KebeleNamesAreStrippedLines(SplitLines(text));
      forall j | |db.kebeles| <= j < |r.kebeles|
        ensures Strip(r.kebeles[j].name) == r.kebeles[j].name != []
      {
        assert names[j - |db.kebeles|] in names;
      }
    }
  }

  /** The Kebeles appended for the lines of the bulk form: the k-th non-blank
      line becomes, stripped, the k-th new Kebele, with id `nextKebeleId + k`;
      only the Kebele table and its counter change. */
  lemma AppendKebeleLinesSpec(db: Db, lines: seq<string>, wid: nat)
    ensures var r := AppendKebeles(db, KebeleNames(lines), wid);
            var kept := Filter(lines, NonBlank);
            && r == db.(kebeles := r.kebeles, nextKebeleId := db.nextKebeleId + |kept|)
            && |r.kebeles| == |db.kebeles| + |kept|
            && forall k :: 0 <= k < |kept| ==>
                 r.kebeles[|db.kebeles| + k] == Kebele(db.nextKebeleId + k, Strip(kept[k]), wid)
  {
    var names := KebeleNames(lines);
    var r := AppendKebeles(db, names, wid);
    var kept := Filter(lines, NonBlank);
    AppendKebelesContents(db, names, wid);
    KebeleNamesOfNonBlankLines(lines);
    forall k | 0 <= k < |kept|
      ensures r.kebeles[|db.kebeles| + k] == Kebele(db.nextKebeleId + k, Strip(kept[k]), wid)
    {
      assert r.kebeles[|db.kebeles| + k] == Kebele(db.nextKebeleId + k, names[k], wid);
    }
  }

  function IdIsNot(id: nat): Woreda -> bool { (w: Woreda) => w.id != id }

  function KebeleIdIsNot(id: nat): Kebele -> bool { (k: Kebele) => k.id != id }

  /** Delete a Woreda together with every Kebele of its `kebeles`. */
  function DeleteWoreda(db: Db, id: nat): (r: Db)
    ensures forall w :: w in r.woredas <==> w in db.woredas && w.id != id
    ensures forall k :: k in r.kebeles <==> k in db.kebeles && k.woredaId != id
    ensures |r.kebeles| == |db.kebeles| - |KebelesOf(db.kebeles, id)|
    ensures r.users == db.users && r.farmers == db.farmers
    ensures r.nextUserId == db.nextUserId && r.nextWoredaId == db.nextWoredaId
    ensures r.nextKebeleId == db.nextKebeleId && r.nextFarmerId == db.nextFarmerId
  {
    FilterSplit(db.kebeles, OfWoreda(id), NotOfWoreda(id));
    db.(woredas := Filter(db.woredas, IdIsNot(id)),
        kebeles := Filter(db.kebeles, NotOfWoreda(id)))
  }

  /** The cascade keeps every constraint: no Kebele is left pointing at the deleted Woreda. */
  lemma DeleteWoredaKeepsValid(db: Db, id: nat)
    requires Valid(db)
    ensures Valid(DeleteWoreda(db, id))
  {
    var r := DeleteWoreda(db, id);
    FilterKeepsDistinct(db.woredas, IdIsNot(id), WoredaName);
    FilterKeepsDistinct(db.woredas, IdIsNot(id), WoredaId);
    FilterKeepsDistinct(db.kebeles, NotOfWoreda(id), KebeleId);
    forall k | k in r.kebeles ensures HasWoreda(r.woredas, k.woredaId) {
      var w :| w in db.woredas && w.id == k.woredaId;
      assert w in r.woredas;
    }
  }

  /** Deleting only the Woreda row, without its Kebeles, would leave a Kebele
      pointing at nothing whenever the Woreda has one: the cascade is needed. */
  lemma DeleteWithoutCascadeDangles(db: Db, id: nat)
    requires Valid(db) && KebelesOf(db.kebeles, id) != []
    ensures !Valid(db.(woredas := Filter(db.woredas, IdIsNot(id))))
  {
    var k := KebelesOf(db.kebeles, id)[0];
    assert k in db.kebeles && k.woredaId == id;
    assert !HasWoreda(Filter(db.woredas, IdIsNot(id)), id);
  }

  /** Delete one Kebele by id. */
  function DeleteKebele(db: Db, id: nat): (r: Db)
    ensures forall k :: k in r.kebeles <==> k in db.kebeles && k.id != id
    ensures r.users == db.users && r.woredas == db.woredas && r.farmers == db.farmers
    ensures r.nextUserId == db.nextUserId && r.nextWoredaId == db.nextWoredaId
    ensures r.nextKebeleId == db.nextKebeleId && r.nextFarmerId == db.nextFarmerId
  {
    db.(kebeles := Filter(db.kebeles, KebeleIdIsNot(id)))
  }

  lemma DeleteKebeleKeepsValid(db: Db, id: nat)
    requires Valid(db)
    ensures Valid(DeleteKebele(db, id))
  {
    FilterKeepsDistinct(db.kebeles, KebeleIdIsNot(id), KebeleId);
  }

  /** Some Woreda other than `id` is already called `name`. */
  predicate NameTakenByOther(ws: seq<Woreda>, name: string, id: nat) {
    exists w :: w in ws && w.name == name && w.id != id
  }

  /** "Save Changes" on the Woreda form: the name is assigned as typed (an
      empty name included); a name held by another Woreda violates the UNIQUE
      constraint. Kebeles keep pointing at the same id. */
  function RenameWoreda(db: Db, id: nat, newName: string): (r: Result<Db, Error>)
    ensures r.Err? <==> !HasWoreda(db.woredas, id) || NameTakenByOther(db.woredas, newName, id)
    ensures r.Err? ==> r.error == (if HasWoreda(db.woredas, id) then DuplicateName else NotFound)
    ensures r.Ok? ==> && |r.value.woredas| == |db.woredas|
                      && Woreda(id, newName) in r.value.woredas
                      && (forall w :: w in db.woredas && w.id != id ==> w in r.value.woredas)
                      && r.value == db.(woredas := r.value.woredas)
  {
    match WoredaIndex(db.woredas, id)
    case None => Err(NotFound)
    case Some(i) =>
      if NameTakenByOther(db.woredas, newName, id) then Err(DuplicateName)
      else
        var ws := db.woredas[i := Woreda(id, newName)];
        assert ws[i] == Woreda(id, newName);
        assert forall w :: w in db.woredas && w.id != id ==> w in ws by {
          forall w | w in db.woredas && w.id != id ensures w in ws {
            var j :| 0 <= j < |db.woredas| && db.woredas[j] == w;
            assert ws[j] == w;
          }
        }
        Ok(db.(woredas := ws))
  }

  lemma RenameWoredaKeepsValid(db: Db, id: nat, newName: string)
    requires Valid(db) && RenameWoreda(db, id, newName).Ok?
    ensures Valid(RenameWoreda(db, id, newName).value)
  {
    var i := WoredaIndex(db.woredas, id).value;
    var ws := db.woredas;
    var r := RenameWoreda(db, id, newName).value;
    assert r.woredas == ws[i := Woreda(id, newName)];
    forall a, b | 0 <= a < b < |ws|
      ensures WoredaName(r.woredas[a]) != WoredaName(r.woredas[b])
      ensures WoredaId(r.woredas[a]) != WoredaId(r.woredas[b])
    {
      assert WoredaId(ws[a]) != WoredaId(ws[b]);
      if a == i {
        assert ws[b] in ws && ws[b].id != id;
      } else if b == i {
        assert ws[a] in ws && ws[a].id != id;
      } else {
        assert WoredaName(ws[a]) != WoredaName(ws[b]);
      }
    }
    forall w | w in r.woredas ensures w.id < r.nextWoredaId {
      var j :| 0 <= j < |r.woredas| && r.woredas[j] == w;
      assert j != i ==> w == ws[j];
    }
    forall k | k in r.kebeles ensures HasWoreda(r.woredas, k.woredaId) {
      var w :| w in ws && w.id == k.woredaId;
      var j :| 0 <= j < |ws| && ws[j] == w;
      assert r.woredas[j].id == w.id;
    }
  }

  /** "Save Changes" on the Kebele form: the name is assigned and the Kebele
      moves to the Woreda looked up by the selected name. */
  function EditKebele(db: Db, id: nat, newName: string, parentName: string): (r: Result<Db, Error>)
    ensures r.Err? <==> KebeleIndex(db.kebeles, id).None? || !HasName(db.woredas, parentName)
    ensures r.Err? ==> r.error == NotFound
    ensures r.Ok? ==> && |r.value.kebeles| == |db.kebeles|
                      && (forall k :: k in db.kebeles && k.id != id ==> k in r.value.kebeles)
                      && (exists w :: w in db.woredas && w.name == parentName &&
                                      Kebele(id, newName, w.id) in r.value.kebeles)
                      && r.value == db.(kebeles := r.value.kebeles)
  {
    match KebeleIndex(db.kebeles, id)
    case None => Err(NotFound)
    case Some(i) =>
      match FindWoreda(db.woredas, parentName)
      case None => Err(NotFound)
      case Some(w) =>
        var ks := db.kebeles[i := Kebele(id, newName, w.id)];
        assert Kebele(id, newName, w.id) == ks[i];
        assert forall k :: k in db.kebeles && k.id != id ==> k in ks by {
          forall k | k in db.kebeles && k.id != id ensures k in ks {
            var j :| 0 <= j < |db.kebeles| && db.kebeles[j] == k;
            assert ks[j] == k;
          }
        }
        Ok(db.(kebeles := ks))
  }

  lemma EditKebeleKeepsValid(db: Db, id: nat, newName: string, parentName: string)
    requires Valid(db) && EditKebele(db, id, newName, parentName).Ok?
    ensures Valid(EditKebele(db, id, newName, parentName).value)
  {
    var i := KebeleIndex(db.kebeles, id).value;
    var w := FindWoreda(db.woredas, parentName).value;
    var ks := db.kebeles;
    var r := EditKebele(db, id, newName, parentName).value;
    assert r.kebeles == ks[i := Kebele(id, newName, w.id)];
    forall a, b | 0 <= a < b < |ks| ensures KebeleId(r.kebeles[a]) != KebeleId(r.kebeles[b]) {
      assert KebeleId(ks[a]) != KebeleId(ks[b]);
    }
    forall k | k in r.kebeles ensures k.id < r.nextKebeleId && HasWoreda(r.woredas, k.woredaId) {
      var j :| 0 <= j < |r.kebeles| && r.kebeles[j] == k;
      if j != i { assert k == ks[j]; } else { assert ks[i] in ks; }
    }
  }

  /** The Kebele dropdown of the registration page: the names of the Kebeles
      under the Woreda with the chosen name (none when no Woreda is chosen). */
  function KebeleChoices(db: Db, woredaChoice: string): (r: seq<string>)
    ensures woredaChoice == [] || !HasName(db.woredas, woredaChoice) ==> r == []
  {
    if woredaChoice == [] then []
    else match FindWoreda(db.woredas, woredaChoice)
      case None => []
      case Some(w) =>
        var ks := KebelesOf(db.kebeles, w.id);
        seq(|ks|, i requires 0 <= i < |ks| => ks[i].name)
  }

  /** The dropdown offers exactly the names of the Kebeles whose `woreda_id`
      is the chosen Woreda's id. */
  lemma KebeleChoicesAreChildren(db: Db, w: Woreda, n: string)
    requires Valid(db) && w in db.woredas && w.name != []
    ensures n in KebeleChoices(db, w.name) <==> exists k :: k in db.kebeles && k.woredaId == w.id && k.name == n
  {
    FindWoredaUnique(db.woredas, w);
    var ks := KebelesOf(db.kebeles, w.id);
    var r := KebeleChoices(db, w.name);
    if n in r {
      var i :| 0 <= i < |r| && r[i] == n;
      assert ks[i] in ks;
    }
    if exists k :: k in db.kebeles && k.woredaId == w.id && k.name == n {
      var k :| k in db.kebeles && k.woredaId == w.id && k.name == n;
      var i :| 0 <= i < |ks| && ks[i] == k;
      assert r[i] == n;
    }
  }
}
