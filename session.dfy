/** The per-browser session: whether someone is logged in and as whom, which
    page they see, and which edit form is open. Only one of the Woreda and
    Kebele edit forms is ever open. */
module Session {
  import opened Common
  import opened Models
  import Accounts

  /** The four pages of the navigation. */
  datatype Page = ManageHierarchy | RegisterFarmers | UploadSheet | ViewFarmers

  /** What a request renders: the login page, or a page of the application
      with the logged-in user's name in the welcome line. */
  datatype Screen = LoginScreen | AppScreen(page: Page, user: string)

  /** The edit form shown above the hierarchy table. */
  datatype EditForm = NoForm | WoredaForm(woredaId: nat) | KebeleForm(kebeleId: nat)

  class SessionState {
    var loggedIn: bool
    var username: string
    var editWoredaId: Option<nat>
    var editKebeleId: Option<nat>
    var editFarmerId: Option<nat>

    /** The Woreda and Kebele edit forms are never both requested. */
    predicate AtMostOneEditForm()
      reads this
    {
      editWoredaId.None? || editKebeleId.None?
    }

    /** A fresh session: nobody logged in, no form open. */
    constructor ()
      ensures !loggedIn && username == ""
      ensures editWoredaId == None && editKebeleId == None && editFarmerId == None
      ensures AtMostOneEditForm()
    {
      loggedIn := false;
      username := "";
      editWoredaId := None;
      editKebeleId := None;
      editFarmerId := None;
    }

    /** The gate of every request: the login page unless logged in,
      otherwise the selected page. */
    function Route(selection: Page): (s: Screen)
      reads this
      ensures s == LoginScreen <==> !loggedIn
      ensures s.AppScreen? ==> s.page == selection && s.user == username
    {
      if loggedIn then AppScreen(selection, username) else LoginScreen
    }

    /** The Login button: on success the session remembers the user; on
      failure nothing changes. */
    method Login(db: Db, name: string, password: string, checkPassword: (string, string) -> bool)
      returns (ok: bool)
      modifies this
      ensures ok == Accounts.LoginUser(db, name, password, checkPassword)
      ensures ok ==> loggedIn && username == name
      ensures ok ==> forall p :: Route(p) == AppScreen(p, name)
      ensures !ok ==> loggedIn == old(loggedIn) && username == old(username)
      ensures editWoredaId == old(editWoredaId) && editKebeleId == old(editKebeleId)
      ensures editFarmerId == old(editFarmerId)
    {
      ok := Accounts.LoginUser(db, name, password, checkPassword);
      if ok {
        loggedIn := true;
        username := name;
      }
    }

    /** The Logout button: the next request shows the login page. */
    method Logout()
      modifies this
      ensures !loggedIn && username == ""
      ensures forall p :: Route(p) == LoginScreen
      ensures editWoredaId == old(editWoredaId) && editKebeleId == old(editKebeleId)
      ensures editFarmerId == old(editFarmerId)
    {
      loggedIn := false;
      username := "";
    }

    /** The edit button of a Woreda row: opens its form and closes the Kebele form. */
    method OpenWoredaEdit(id: nat)
      modifies this
      ensures editWoredaId == Some(id) && editKebeleId == None
      ensures AtMostOneEditForm()
      ensures loggedIn == old(loggedIn) && username == old(username) && editFarmerId == old(editFarmerId)
    {
      editWoredaId := Some(id);
      editKebeleId := None;
    }

    /** The edit button of a Kebele row: opens its form and closes the Woreda form. */
    method OpenKebeleEdit(id: nat)
      modifies this
      ensures editKebeleId == Some(id) && editWoredaId == None
      ensures AtMostOneEditForm()
      ensures loggedIn == old(loggedIn) && username == old(username) && editFarmerId == old(editFarmerId)
    {
      editKebeleId := Some(id);
      editWoredaId := None;
    }

    /** Save or Cancel on the Woreda form. */
    method CloseWoredaEdit()
      modifies this
      ensures editWoredaId == None && editKebeleId == old(editKebeleId)
      ensures AtMostOneEditForm()
      ensures loggedIn == old(loggedIn) && username == old(username) && editFarmerId == old(editFarmerId)
    {
      editWoredaId := None;
    }

    /** Save or Cancel on the Kebele form. */
    method CloseKebeleEdit()
      modifies this
      ensures editKebeleId == None && editWoredaId == old(editWoredaId)
      ensures AtMostOneEditForm()
      ensures loggedIn == old(loggedIn) && username == old(username) && editFarmerId == old(editFarmerId)
    {
      editKebeleId := None;
    }

    /** The edit button of a farmer row. */
    method OpenFarmerEdit(id: nat)
      modifies this
      ensures editFarmerId == Some(id)
      ensures loggedIn == old(loggedIn) && username == old(username)
      ensures editWoredaId == old(editWoredaId) && editKebeleId == old(editKebeleId)
    {
      editFarmerId := Some(id);
    }

    /** Save or Cancel on the farmer form. */
    method CloseFarmerEdit()
      modifies this
      ensures editFarmerId == None
      ensures loggedIn == old(loggedIn) && username == old(username)
      ensures editWoredaId == old(editWoredaId) && editKebeleId == old(editKebeleId)
    {
      editFarmerId := None;
    }

    /** The form the manage page shows: the Woreda form takes precedence, and
      a form whose row no longer exists is not shown. */
    function OpenForm(db: Db): (f: EditForm)
      reads this
      ensures f.WoredaForm? ==> editWoredaId == Some(f.woredaId) && HasWoreda(db.woredas, f.woredaId)
      ensures f.KebeleForm? ==> && editWoredaId.None? && editKebeleId == Some(f.kebeleId)
                                && exists k :: k in db.kebeles && k.id == f.kebeleId
      ensures f == NoForm ==> && (editWoredaId.Some? ==> !HasWoreda(db.woredas, editWoredaId.value))
                              && (editWoredaId.None? && editKebeleId.Some? ==>
                                    forall k :: k in db.kebeles ==> k.id != editKebeleId.value)
    {
      match editWoredaId
      case Some(id) => if HasWoreda(db.woredas, id) then WoredaForm(id) else NoForm
      case None =>
        match editKebeleId
        case Some(id) => if exists k :: k in db.kebeles && k.id == id then KebeleForm(id) else NoForm
        case None => NoForm
    }
  }
}
