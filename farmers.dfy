/** The farmer table: registration from the form (an all-fields guard, then a
    copy of the chosen Woreda and Kebele names), editing of four fields,
    deletion, and the listing (all farmers or one Woreda's, newest first).
    Farmers hold names, not references, so no change to the hierarchy ever
    touches them. */
module Farmers {
  import opened Common
  import opened Models
  import opened Hierarchy

  // ------------------------------------------------------------ registration

  /** A drop-down over `options` with the option at `pick` selected; nothing
      is selected when there are no options. */
  function Choose(options: seq<string>, pick: nat): (r: Option<string>)
    requires options == [] || pick < |options|
    ensures r.None? <==> options == []
    ensures r.Some? ==> r.value in options
  {
    if options == [] then None else Some(options[pick])
  }

  /** The Kebele selected on the registration page: a choice among the
      Kebeles of the chosen Woreda, or nothing. */
  function KebeleChoice(db: Db, woredaChoice: string, pick: nat): (r: Option<string>)
    requires var ks := KebeleChoices(db, woredaChoice); ks == [] || pick < |ks|
    ensures r.Some? ==> r.value in KebeleChoices(db, woredaChoice)
    ensures r.None? <==> KebeleChoices(db, woredaChoice) == []
  {
    Choose(KebeleChoices(db, woredaChoice), pick)
  }

  /** "Register Farmer": refused unless name, phone, Woreda and Kebele are
      all filled; otherwise a new row holding the chosen names as text, the
      given `username` as `registered_by`, and the time `now`. */
  function RegisterFarmer(db: Db, name: string, phone: string, woredaChoice: string,
                          kebeleChoice: Option<string>, username: string, now: Timestamp): (r: Result<Db, Error>)
    ensures r.Err? <==> name == [] || phone == [] || woredaChoice == [] ||
                        kebeleChoice.None? || kebeleChoice.value == []
    ensures r.Err? ==> r.error == MissingField
    ensures r.Ok? ==> r.value == db.(farmers := db.farmers + [Farmer(db.nextFarmerId, name, woredaChoice,
                                                                     kebeleChoice.value, phone, username, now)],
                                     nextFarmerId := db.nextFarmerId + 1)
  {
    if name != [] && phone != [] && woredaChoice != [] && kebeleChoice.Some? && kebeleChoice.value != [] then
      Ok(db.(farmers := db.farmers + [Farmer(db.nextFarmerId, name, woredaChoice, kebeleChoice.value,
                                             phone, username, now)],
             nextFarmerId := db.nextFarmerId + 1))
    else Err(MissingField)
  }

  lemma RegisterFarmerKeepsValid(db: Db, name: string, phone: string, woredaChoice: string,
                                 kebeleChoice: Option<string>, username: string, now: Timestamp)
    requires Valid(db)
    requires RegisterFarmer(db, name, phone, woredaChoice, kebeleChoice, username, now).Ok?
    ensures Valid(RegisterFarmer(db, name, phone, woredaChoice, kebeleChoice, username, now).value)
  {
    var f := Farmer(db.nextFarmerId, name, woredaChoice, kebeleChoice.value, phone, username, now);
    AppendKeepsDistinct(db.farmers, f, FarmerId);
  }

  /** A farmer registered through the page names, at that moment, an existing
      Woreda and one of that Woreda's Kebeles. */
  lemma RegisteredFarmerNamesAKebeleOfItsWoreda(db: Db, name: string, phone: string, woredaChoice: string,
                                                pick: nat, username: string, now: Timestamp)
    requires Valid(db)
    requires var ks := KebeleChoices(db, woredaChoice); ks == [] || pick < |ks|
    requires RegisterFarmer(db, name, phone, woredaChoice, KebeleChoice(db, woredaChoice, pick), username, now).Ok?
    ensures var f := RegisterFarmer(db, name, phone, woredaChoice, KebeleChoice(db, woredaChoice, pick),
                                    username, now).value.farmers[|db.farmers|];
            exists w, k :: && w in db.woredas && w.name == f.woreda
                           && k in db.kebeles && k.woredaId == w.id && k.name == f.kebele
  {
    var kc := KebeleChoice(db, woredaChoice, pick);
    assert HasName(db.woredas, woredaChoice);
    var w := FindWoreda(db.woredas, woredaChoice).value;
    KebeleChoicesAreChildren(db, w, kc.value);
    var k :| k in db.kebeles && k.woredaId == w.id && k.name == kc.value;
  }

  /** A chosen Woreda without Kebeles offers nothing to pick, so no farmer
      can be registered under it. */
  lemma NoKebeleNoRegistration(db: Db, name: string, phone: string, w: Woreda,
                               username: string, now: Timestamp)
    requires Valid(db) && w in db.woredas && KebelesOf(db.kebeles, w.id) == []
    ensures RegisterFarmer(db, name, phone, w.name, KebeleChoice(db, w.name, 0), username, now).Err?
  {
    if w.name != [] {
      FindWoredaUnique(db.woredas, w);
    }
  }

  // ---------------------------------------------------------- edit and delete

  /** Position of the farmer whose primary key is `id`. */
  function FarmerIndex(fs: seq<Farmer>, id: nat): (r: Option<nat>)
    ensures r.Some? ==> r.value < |fs| && fs[r.value].id == id
    ensures r.None? <==> forall f :: f in fs ==> f.id != id
  {
    if fs == [] then None
    else if fs[0].id == id then Some(0)
    else match FarmerIndex(fs[1..], id)
      case None => None
      case Some(i) => Some(i + 1)
  }

  /** "Save Changes" on the farmer form: name, phone, Woreda and Kebele of
      the farmer `id` are replaced; its id, `registered_by` and timestamp,
      and every other row, stay as they were. */
  function EditFarmer(db: Db, id: nat, name: string, phone: string, woreda: string, kebele: string): (r: Result<Db, Error>)
    ensures r.Err? <==> forall f :: f in db.farmers ==> f.id != id
    ensures r.Err? ==> r.error == NotFound
    ensures r.Ok? ==> exists i :: && 0 <= i < |db.farmers| && db.farmers[i].id == id
                                  && r.value.farmers == db.farmers[i := db.farmers[i].(name := name, phone := phone,
                                                                                       woreda := woreda, kebele := kebele)]
    ensures r.Ok? ==> r.value.(farmers := db.farmers) == db
  {
    match FarmerIndex(db.farmers, id)
    case None => Err(NotFound)
    case Some(i) =>
      var f := db.farmers[i];
      Ok(db.(farmers := db.farmers[i := f.(name := name, phone := phone, woreda := woreda, kebele := kebele)]))
  }

  /** An edit never changes which ids, registrars or timestamps the table holds. */
  lemma EditFarmerKeepsIdentity(db: Db, id: nat, name: string, phone: string, woreda: string, kebele: string)
    requires EditFarmer(db, id, name, phone, woreda, kebele).Ok?
    ensures var r := EditFarmer(db, id, name, phone, woreda, kebele).value;
            && |r.farmers| == |db.farmers|
            && forall j :: 0 <= j < |r.farmers| ==>
                 && r.farmers[j].id == db.farmers[j].id
                 && r.farmers[j].registeredBy == db.farmers[j].registeredBy
                 && r.farmers[j].timestamp == db.farmers[j].timestamp
                 && (db.farmers[j].id != id ==> r.farmers[j] == db.farmers[j])
  {
  }

  lemma EditFarmerKeepsValid(db: Db, id: nat, name: string, phone: string, woreda: string, kebele: string)
    requires Valid(db) && EditFarmer(db, id, name, phone, woreda, kebele).Ok?
    ensures Valid(EditFarmer(db, id, name, phone, woreda, kebele).value)
  {
    var r := EditFarmer(db, id, name, phone, woreda, kebele).value;
    EditFarmerKeepsIdentity(db, id, name, phone, woreda, kebele);
    forall a, b | 0 <= a < b < |r.farmers| ensures FarmerId(r.farmers[a]) != FarmerId(r.farmers[b]) {
      assert FarmerId(db.farmers[a]) != FarmerId(db.farmers[b]);
    }
    forall f | f in r.farmers ensures f.id < r.nextFarmerId {
      var j :| 0 <= j < |r.farmers| && r.farmers[j] == f;
      assert db.farmers[j] in db.farmers;
    }
  }

  function FarmerIdIsNot(id: nat): Farmer -> bool { (f: Farmer) => f.id != id }

  /** The delete button of a farmer row. */
  function DeleteFarmer(db: Db, id: nat): (r: Db)
    ensures forall f :: f in r.farmers <==> f in db.farmers && f.id != id
    ensures r.(farmers := db.farmers) == db
  {
    db.(farmers := Filter(db.farmers, FarmerIdIsNot(id)))
  }

  lemma DeleteFarmerKeepsValid(db: Db, id: nat)
    requires Valid(db)
    ensures Valid(DeleteFarmer(db, id))
  {
    FilterKeepsDistinct(db.farmers, FarmerIdIsNot(id), FarmerId);
  }

  // ------------------------------------------------------------------ listing

  /** The first option of the Woreda filter, which selects every farmer. */
  const AllWoredas := "All"

  function WoredaIs(name: string): Farmer -> bool { (f: Farmer) => f.woreda == name }

  /** The filter of the listing: every farmer for "All", otherwise those whose
      stored Woreda text equals the selection. */
  function SelectFarmers(fs: seq<Farmer>, selection: string): (r: seq<Farmer>)
    ensures forall f :: f in r <==> f in fs && (selection == AllWoredas || f.woreda == selection)
  {
    if selection == AllWoredas then fs else Filter(fs, WoredaIs(selection))
  }

  /** Timestamps never increase along `s`. */
  predicate NewestFirst(s: seq<Farmer>) {
    forall i, j :: 0 <= i < j < |s| ==> s[i].timestamp >= s[j].timestamp
  }

  /** Puts `f` in front of the first farmer registered no later than it. */
  function InsertNewestFirst(f: Farmer, s: seq<Farmer>): (r: seq<Farmer>)
    requires NewestFirst(s)
    ensures NewestFirst(r)
    ensures multiset(r) == multiset(s) + multiset{f}
  {
    if s == [] then [f]
    else if f.timestamp >= s[0].timestamp then [f] + s
    else
      var rest := InsertNewestFirst(f, s[1..]);
      PrependNewest(s, f, rest);
      [s[0]] + rest
  }

  /** The step of the insertion: the head of `s` is newer than `f` and than
      every farmer after it, so it stays in front. */
  lemma PrependNewest(s: seq<Farmer>, f: Farmer, rest: seq<Farmer>)
    requires s != [] && NewestFirst(s) && f.timestamp < s[0].timestamp
    requires NewestFirst(rest) && multiset(rest) == multiset(s[1..]) + multiset{f}
    ensures NewestFirst([s[0]] + rest)
    ensures multiset([s[0]] + rest) == multiset(s) + multiset{f}
  {
    assert s == [s[0]] + s[1..];
    forall j | 0 <= j < |rest| ensures s[0].timestamp >= rest[j].timestamp {
      var x := rest[j];
      assert x in multiset(rest);
      if x != f {
        assert x in multiset(s[1..]);
        var k :| 0 <= k < |s[1..]| && s[1..][k] == x;
        assert s[k + 1] == x;
      }
    }
    var r := [s[0]] + rest;
    forall i, j | 0 <= i < j < |r| ensures r[i].timestamp >= r[j].timestamp {
      if i == 0 {
        assert r[j] == rest[j - 1];
      } else {
        assert r[i] == rest[i - 1] && r[j] == rest[j - 1];
      }
    }
  }

  /** `ORDER BY timestamp DESC`: the same farmers, newest first. */
  function SortNewestFirst(s: seq<Farmer>): (r: seq<Farmer>)
    ensures NewestFirst(r)
    ensures multiset(r) == multiset(s)
  {
    if s == [] then []
    else
      assert s == [s[0]] + s[1..];
      InsertNewestFirst(s[0], SortNewestFirst(s[1..]))
  }

  /** The farmer list of the listing page: the selected rows, newest first. */
  function ListFarmers(fs: seq<Farmer>, selection: string): (r: seq<Farmer>)
    ensures NewestFirst(r)
    ensures forall f :: f in r <==> f in fs && (selection == AllWoredas || f.woreda == selection)
  {
    var selected := SelectFarmers(fs, selection);
    var r := SortNewestFirst(selected);
    assert forall f :: f in r <==> f in selected by {
      forall f: Farmer ensures f in r <==> f in selected {
        assert f in r <==> f in multiset(r);
        assert f in selected <==> f in multiset(selected);
      }
    }
    r
  }

  /** The listing holds each selected farmer exactly as often as the table
      does and no other row, newest first; "All" lists the whole table. */
  lemma ListFarmersSpec(fs: seq<Farmer>, selection: string)
    ensures var r := ListFarmers(fs, selection);
            && NewestFirst(r)
            && (forall f :: multiset(r)[f] ==
                  if selection == AllWoredas || f.woreda == selection then multiset(fs)[f] else 0)
            && (forall f :: f in r <==> f in fs && (selection == AllWoredas || f.woreda == selection))
            && (selection == AllWoredas ==> multiset(r) == multiset(fs))
  {
    var r := ListFarmers(fs, selection);
    forall f: Farmer ensures multiset(r)[f] ==
                     if selection == AllWoredas || f.woreda == selection then multiset(fs)[f] else 0 {
      if selection != AllWoredas {
        FilterMultiset(fs, WoredaIs(selection), f);
      }
    }
    forall f: Farmer ensures f in r <==> f in fs && (selection == AllWoredas || f.woreda == selection) {
      assert f in r <==> f in multiset(r);
      assert f in fs <==> f in multiset(fs);
    }
  }

  // ------------------------------------------- farmers as a snapshot of names

  /** One change the manage and upload pages can make to the hierarchy. */
  datatype HierarchyOp =
    | Upload(sheet: Sheet)
    | NewWoreda(name: string)
    | NewKebeles(woredaName: string, text: string)
    | RemoveWoreda(woredaId: nat)
    | RemoveKebele(kebeleId: nat)
    | RenameWoredaTo(woredaId: nat, newName: string)
    | ChangeKebele(kebeleId: nat, newName: string, parentName: string)

  /** The database after one hierarchy change; a refused change leaves it as it was. */
  function Apply(db: Db, op: HierarchyOp): Db {
    var r := match op
      case Upload(sheet) => ImportSheet(db, sheet)
      case NewWoreda(name) => AddWoreda(db, name)
      case NewKebeles(woredaName, text) => AddKebeles(db, woredaName, text)
      case RemoveWoreda(id) => Ok(DeleteWoreda(db, id))
      case RemoveKebele(id) => Ok(DeleteKebele(db, id))
      case RenameWoredaTo(id, newName) => RenameWoreda(db, id, newName)
      case ChangeKebele(id, newName, parentName) => EditKebele(db, id, newName, parentName);
    if r.Ok? then r.value else db
  }

  function ApplyAll(db: Db, ops: seq<HierarchyOp>): Db
    decreases |ops|
  {
    if ops == [] then db else ApplyAll(Apply(db, ops[0]), ops[1..])
  }

  /** One hierarchy change keeps the schema constraints and the farmer table. */
  lemma ApplyKeepsFarmers(db: Db, op: HierarchyOp)
    requires Valid(db)
    ensures Valid(Apply(db, op))
    ensures Apply(db, op).farmers == db.farmers && Apply(db, op).nextFarmerId == db.nextFarmerId
  {
    match op {
      case Upload(sheet) =>
        if HasRequiredColumns(sheet) {
          assert Apply(db, op) == ImportRows(db, sheet.rows);
          ImportRowsKeepsValid(db, sheet.rows);
        } else {
          assert Apply(db, op) == db;
        }
      case NewWoreda(name) => ApplyNewWoreda(db, name);
      case NewKebeles(woredaName, text) => ApplyNewKebeles(db, woredaName, text);
      case RemoveWoreda(id) =>
        assert Apply(db, op) == DeleteWoreda(db, id);
        DeleteWoredaKeepsValid(db, id);
      case RemoveKebele(id) =>
        assert Apply(db, op) == DeleteKebele(db, id);
        DeleteKebeleKeepsValid(db, id);
      case RenameWoredaTo(id, newName) => ApplyRenameWoreda(db, id, newName);
      case ChangeKebele(id, newName, parentName) => ApplyChangeKebele(db, id, newName, parentName);
    }
  }

  lemma ApplyNewWoreda(db: Db, name: string)
    requires Valid(db)
    ensures Valid(Apply(db, NewWoreda(name))) && Apply(db, NewWoreda(name)).farmers == db.farmers
    ensures Apply(db, NewWoreda(name)).nextFarmerId == db.nextFarmerId
  {
    if AddWoreda(db, name).Ok? { AddWoredaKeepsValid(db, name); }
  }

  lemma ApplyNewKebeles(db: Db, woredaName: string, text: string)
    requires Valid(db)
    ensures Valid(Apply(db, NewKebeles(woredaName, text)))
    ensures Apply(db, NewKebeles(woredaName, text)).farmers == db.farmers
    ensures Apply(db, NewKebeles(woredaName, text)).nextFarmerId == db.nextFarmerId
  {
    if AddKebeles(db, woredaName, text).Ok? {
      AddKebelesSpec(db, woredaName, text);
    }
  }

  lemma ApplyRenameWoreda(db: Db, id: nat, newName: string)
    requires Valid(db)
    ensures Valid(Apply(db, RenameWoredaTo(id, newName)))
    ensures Apply(db, RenameWoredaTo(id, newName)).farmers == db.farmers
    ensures Apply(db, RenameWoredaTo(id, newName)).nextFarmerId == db.nextFarmerId
  {
    if RenameWoreda(db, id, newName).Ok? { RenameWoredaKeepsValid(db, id, newName); }
  }

  lemma ApplyChangeKebele(db: Db, id: nat, newName: string, parentName: string)
    requires Valid(db)
    ensures Valid(Apply(db, ChangeKebele(id, newName, parentName)))
    ensures Apply(db, ChangeKebele(id, newName, parentName)).farmers == db.farmers
    ensures Apply(db, ChangeKebele(id, newName, parentName)).nextFarmerId == db.nextFarmerId
  {
    if EditKebele(db, id, newName, parentName).Ok? { EditKebeleKeepsValid(db, id, newName, parentName); }
  }

  /** Any sequence of hierarchy changes keeps the schema constraints and
      leaves the farmer table, and so every farmer's Woreda and Kebele text,
      exactly as it was. */
  lemma {:induction false} HierarchyChangesKeepFarmers(db: Db, ops: seq<HierarchyOp>)
    requires Valid(db)
    ensures Valid(ApplyAll(db, ops))
    ensures ApplyAll(db, ops).farmers == db.farmers
    ensures ApplyAll(db, ops).nextFarmerId == db.nextFarmerId
    decreases |ops|
  {
    if ops != [] {
      ApplyKeepsFarmers(db, ops[0]);
      HierarchyChangesKeepFarmers(Apply(db, ops[0]), ops[1..]);
    }
  }

  /** A farmer registered under a Woreda keeps that Woreda's old name after
      the Woreda is renamed or deleted. */
  lemma FarmerKeepsRegisteredNames(db: Db, f: Farmer, ops: seq<HierarchyOp>)
    requires Valid(db) && f in db.farmers
    ensures f in ApplyAll(db, ops).farmers
    ensures forall sel :: ListFarmers(ApplyAll(db, ops).farmers, sel) == ListFarmers(db.farmers, sel)
  {
    HierarchyChangesKeepFarmers(db, ops);
  }
}
