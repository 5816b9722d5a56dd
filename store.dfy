/** The database as the pages change it: the four tables held in place and
    updated row by row. Each method is proved to leave exactly the tables the
    corresponding operation of Hierarchy, Farmers or Accounts describes, and
    to keep every schema constraint. */
module Store {
  import opened Common
  import opened Models
  import opened Text
  import H = Hierarchy
  import F = Farmers
  import A = Accounts

  /** The cascade of a Woreda delete: the Kebeles of other Woredas, in
      their order. */
  method KebelesOutside(ks: seq<Kebele>, id: nat) returns (kept: seq<Kebele>)
    ensures kept == Filter(ks, NotOfWoreda(id))
  {
    kept := [];
    var i := 0;
    while i < |ks|
      invariant 0 <= i <= |ks|
      invariant kept == Filter(ks[..i], NotOfWoreda(id))
    {
      FilterStep(ks, NotOfWoreda(id), i);
      if ks[i].woredaId != id {
        kept := kept + [ks[i]];
      }
      i := i + 1;
    }
    assert ks[..i] == ks;
  }

  class Store {
    var users: seq<User>
    var woredas: seq<Woreda>
    var kebeles: seq<Kebele>
    var farmers: seq<Farmer>
    var nextUserId: nat
    var nextWoredaId: nat
    var nextKebeleId: nat
    var nextFarmerId: nat

    /** The current contents of the tables. */
    function Tables(): Db
      reads this
    {
      Db(users, woredas, kebeles, farmers, nextUserId, nextWoredaId, nextKebeleId, nextFarmerId)
    }

    predicate Valid()
      reads this
    {
      Models.Valid(Tables())
    }

    /** The tables as first created: empty. */
    constructor ()
      ensures Tables() == EmptyDb()
      ensures Valid()
    {
      users, woredas, kebeles, farmers := [], [], [], [];
      nextUserId, nextWoredaId, nextKebeleId, nextFarmerId := 1, 1, 1, 1;
    }

    /** One complete row of the upload: find the Woreda by exact name or
        create it, then append the Kebele under it. */
    method ImportEntry(e: H.Entry)
      requires Valid()
      modifies this
      ensures Valid()
      ensures Tables() == H.AddEntry(old(Tables()), e)
    {
      H.AddEntryKeepsValid(Tables(), e);
      var wid: nat;
      match H.FindWoreda(woredas, e.woreda) {
        case Some(w) =>
          wid := w.id;
        case None =>
          wid := nextWoredaId;
          woredas := woredas + [Woreda(wid, e.woreda)];
          nextWoredaId := nextWoredaId + 1;
      }
      kebeles := kebeles + [Kebele(nextKebeleId, e.kebele, wid)];
      nextKebeleId := nextKebeleId + 1;
    }

    /** The upload page: check the header, then go through the rows in order,
        skipping a row with a missing cell and importing every other one. */
    method ImportSheet(sheet: H.Sheet) returns (r: Result<(), Error>)
      requires Valid()
      modifies this
      ensures Valid()
      ensures r.Err? <==> H.ImportSheet(old(Tables()), sheet).Err?
      ensures r.Err? ==> r.error == MissingColumns && Tables() == old(Tables())
      ensures r.Ok? ==> Tables() == H.ImportRows(old(Tables()), sheet.rows)
    {
      if H.WoredaColumn !in sheet.columns || H.KebeleColumn !in sheet.columns {
        return Err(MissingColumns);
      }
      ghost var t0 := Tables();
      var i := 0;
      while i < |sheet.rows|
        invariant 0 <= i <= |sheet.rows|
        invariant Tables() == H.ImportRows(t0, sheet.rows[..i])
        invariant Valid()
      {
        var row := sheet.rows[i];
        H.ImportRowsStep(t0, sheet.rows, i);
        if H.WoredaColumn in row && H.KebeleColumn in row {
          ImportEntry(H.Entry(row[H.WoredaColumn], row[H.KebeleColumn]));
        }
        i := i + 1;
      }
      assert sheet.rows[..i] == sheet.rows;
      return Ok(());
    }

    /** "Save New Woreda". */
    method AddWoreda(name: string) returns (r: Result<(), Error>)
      requires Valid()
      modifies this
      ensures Valid()
      ensures var spec := H.AddWoreda(old(Tables()), name);
              && r.Err? == spec.Err? && (r.Err? ==> r.error == spec.error)
              && Tables() == if spec.Ok? then spec.value else old(Tables())
    {
      if name == [] {
        return Err(EmptyName);
      }
      if H.FindWoreda(woredas, name).Some? {
        return Err(DuplicateName);
      }
      ghost var t0 := Tables();
      H.AddWoredaKeepsValid(t0, name);
      woredas := woredas + [Woreda(nextWoredaId, name)];
      nextWoredaId := nextWoredaId + 1;
      return Ok(());
    }

    /** One line of the bulk form: its stripped text, when not empty,
        becomes a Kebele with the next id under the Woreda `wid`. */
    method AddKebeleLine(line: string, wid: nat)
      requires Valid() && HasWoreda(woredas, wid)
      modifies this
      ensures Valid()
      ensures var name := Strip(line);
              Tables() == if name == [] then old(Tables())
                          else old(Tables()).(kebeles := old(kebeles) + [Kebele(old(nextKebeleId), name, wid)],
                                              nextKebeleId := old(nextKebeleId) + 1)
    {
      var name := Strip(line);
      if name != [] {
        ghost var t0 := Tables();
        assert H.AppendKebeles(t0, [name], wid) == t0.(kebeles := kebeles + [Kebele(nextKebeleId, name, wid)],
                                                       nextKebeleId := nextKebeleId + 1) by {
          assert [name][..0] == [];
        }
        H.AppendKebelesKeepsValid(t0, [name], wid);
        kebeles := kebeles + [Kebele(nextKebeleId, name, wid)];
        nextKebeleId := nextKebeleId + 1;
      }
    }

    /** The loop of the bulk form over the lines of the text. */
    method AddKebeleLines(lines: seq<string>, wid: nat)
      requires Valid() && HasWoreda(woredas, wid)
      modifies this
      ensures Valid()
      ensures Tables() == H.AppendKebeles(old(Tables()), H.KebeleNames(lines), wid)
    {
      ghost var t0 := Tables();
      var i := 0;
      while i < |lines|
        invariant 0 <= i <= |lines|
        invariant Tables() == H.AppendKebeles(t0, H.KebeleNames(lines[..i]), wid)
        invariant Valid() && HasWoreda(woredas, wid)
      {
        H.AppendKebeleLinesStep(t0, lines, i, wid);
        AddKebeleLine(lines[i], wid);
        i := i + 1;
      }
      assert lines[..i] == lines;
    }

    /** "Save New Kebeles": one Kebele per line of the text, stripped, blank
        lines skipped, under the Woreda with the selected name. */
    method AddKebeles(woredaName: string, text: string) returns (r: Result<(), Error>)
      requires Valid()
      modifies this
      ensures Valid()
      ensures var spec := H.AddKebeles(old(Tables()), woredaName, text);
              && r.Err? == spec.Err? && (r.Err? ==> r.error == spec.error)
              && Tables() == if spec.Ok? then spec.value else old(Tables())
    {
      var found := H.FindWoreda(woredas, woredaName);
      if text == [] || found.None? {
        return Err(NothingToAdd);
      }
      H.AddKebelesSpec(Tables(), woredaName, text);
      AddKebeleLines(SplitLines(text), found.value.id);
      return Ok(());
    }

    /** The delete button of a Woreda row: first every Kebele of the Woreda,
        then the Woreda itself. */
    method DeleteWoreda(id: nat)
      requires Valid()
      modifies this
      ensures Valid()
      ensures Tables() == H.DeleteWoreda(old(Tables()), id)
    {
      var kept := KebelesOutside(kebeles, id);
      H.DeleteWoredaKeepsValid(Tables(), id);
      kebeles := kept;
      woredas := Filter(woredas, H.IdIsNot(id));
    }

    /** The delete button of a Kebele row. */
    method DeleteKebele(id: nat)
      requires Valid()
      modifies this
      ensures Valid()
      ensures Tables() == H.DeleteKebele(old(Tables()), id)
    {
      H.DeleteKebeleKeepsValid(Tables(), id);
      kebeles := Filter(kebeles, H.KebeleIdIsNot(id));
    }

    /** "Save Changes" on the Woreda form: the row's name is assigned. */
    method RenameWoreda(id: nat, newName: string) returns (r: Result<(), Error>)
      requires Valid()
      modifies this
      ensures Valid()
      ensures var spec := H.RenameWoreda(old(Tables()), id, newName);
              && r.Err? == spec.Err? && (r.Err? ==> r.error == spec.error)
              && Tables() == if spec.Ok? then spec.value else old(Tables())
    {
      var index := H.WoredaIndex(woredas, id);
      if index.None? {
        return Err(NotFound);
      }
      if H.NameTakenByOther(woredas, newName, id) {
        return Err(DuplicateName);
      }
      H.RenameWoredaKeepsValid(Tables(), id, newName);
      woredas := woredas[index.value := woredas[index.value].(name := newName)];
      return Ok(());
    }

    /** "Save Changes" on the Kebele form: the row's name is assigned and its
        `woreda_id` set to the Woreda with the selected name. */
    method EditKebele(id: nat, newName: string, parentName: string) returns (r: Result<(), Error>)
      requires Valid()
      modifies this
      ensures Valid()
      ensures var spec := H.EditKebele(old(Tables()), id, newName, parentName);
              && r.Err? == spec.Err? && (r.Err? ==> r.error == spec.error)
              && Tables() == if spec.Ok? then spec.value else old(Tables())
    {
      var index := H.KebeleIndex(kebeles, id);
      var parent := H.FindWoreda(woredas, parentName);
      if index.None? || parent.None? {
        return Err(NotFound);
      }
      H.EditKebeleKeepsValid(Tables(), id, newName, parentName);
      var k := kebeles[index.value];
      kebeles := kebeles[index.value := k.(name := newName, woredaId := parent.value.id)];
      return Ok(());
    }

    /** "Register Farmer". */
    method RegisterFarmer(name: string, phone: string, woredaChoice: string, kebeleChoice: Option<string>,
                          username: string, now: Timestamp) returns (r: Result<(), Error>)
      requires Valid()
      modifies this
      ensures Valid()
      ensures var spec := F.RegisterFarmer(old(Tables()), name, phone, woredaChoice, kebeleChoice, username, now);
              && r.Err? == spec.Err? && (r.Err? ==> r.error == spec.error)
              && Tables() == if spec.Ok? then spec.value else old(Tables())
    {
      if name == [] || phone == [] || woredaChoice == [] || kebeleChoice.None? || kebeleChoice.value == [] {
        return Err(MissingField);
      }
      F.RegisterFarmerKeepsValid(Tables(), name, phone, woredaChoice, kebeleChoice, username, now);
      farmers := farmers + [Farmer(nextFarmerId, name, woredaChoice, kebeleChoice.value, phone, username, now)];
      nextFarmerId := nextFarmerId + 1;
      return Ok(());
    }

    /** "Save Changes" on the farmer form: four fields are assigned. */
    method EditFarmer(id: nat, name: string, phone: string, woreda: string, kebele: string)
      returns (r: Result<(), Error>)
      requires Valid()
      modifies this
      ensures Valid()
      ensures var spec := F.EditFarmer(old(Tables()), id, name, phone, woreda, kebele);
              && r.Err? == spec.Err? && (r.Err? ==> r.error == spec.error)
              && Tables() == if spec.Ok? then spec.value else old(Tables())
    {
      var index := F.FarmerIndex(farmers, id);
      if index.None? {
        return Err(NotFound);
      }
      F.EditFarmerKeepsValid(Tables(), id, name, phone, woreda, kebele);
      var f := farmers[index.value];
      farmers := farmers[index.value := f.(name := name, phone := phone, woreda := woreda, kebele := kebele)];
      return Ok(());
    }

    /** The delete button of a farmer row. */
    method DeleteFarmer(id: nat)
      requires Valid()
      modifies this
      ensures Valid()
      ensures Tables() == F.DeleteFarmer(old(Tables()), id)
    {
      F.DeleteFarmerKeepsValid(Tables(), id);
      farmers := Filter(farmers, F.FarmerIdIsNot(id));
    }

    /** "Register" on the login page, given the password's hash. */
    method RegisterUser(username: string, passwordHash: string) returns (r: Result<(), Error>)
      requires Valid()
      modifies this
      ensures Valid()
      ensures var spec := A.RegisterUser(old(Tables()), username, passwordHash);
              && r.Err? == spec.Err? && (r.Err? ==> r.error == spec.error)
              && Tables() == if spec.Ok? then spec.value else old(Tables())
    {
      if A.FindUser(users, username).Some? {
        return Err(DuplicateUsername);
      }
      A.RegisterUserKeepsValid(Tables(), username, passwordHash);
      users := users + [User(nextUserId, username, passwordHash)];
      nextUserId := nextUserId + 1;
      return Ok(());
    }
  }
}
