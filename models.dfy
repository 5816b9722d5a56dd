/** The four tables of the schema (users, woredas, kebeles, farmers) and the
    constraints the schema declares on them: primary keys, the unique
    username and Woreda name, and the Kebele-to-Woreda foreign key. */
module Models {
  import opened Common

  /** A registration time. Only its order matters to the application. */
  type Timestamp = int

  /** `password_hash` is the salted hash; hashing itself is not modelled. */
  datatype User = User(id: nat, username: string, passwordHash: string)

  datatype Woreda = Woreda(id: nat, name: string)

  /** A Kebele belongs to one Woreda through `woredaId`. Its name is not unique. */
  datatype Kebele = Kebele(id: nat, name: string, woredaId: nat)

  /** `woreda` and `kebele` are plain strings copied at registration time,
      not references: later renames or deletes in the hierarchy leave them alone. */
  datatype Farmer = Farmer(
    id: nat,
    name: string,
    woreda: string,
    kebele: string,
    phone: string,
    registeredBy: string,
    timestamp: Timestamp)

  /** The database: the rows of every table, in insertion order, and the next
      value each auto-increment primary key hands out. */
  datatype Db = Db(
    users: seq<User>,
    woredas: seq<Woreda>,
    kebeles: seq<Kebele>,
    farmers: seq<Farmer>,
    nextUserId: nat,
    nextWoredaId: nat,
    nextKebeleId: nat,
    nextFarmerId: nat)

  /** What a write can fail with instead of silently succeeding. */
  datatype Error =
    | EmptyName          // a required name was empty
    | DuplicateName      // the UNIQUE constraint on woredas.name
    | DuplicateUsername  // the UNIQUE constraint on users.username
    | MissingColumns     // an upload without a `Woreda` or `Kebele` column
    | NothingToAdd       // bulk Kebele add with no text or no Woreda
    | NotFound           // no row with the given id or name
    | MissingField       // farmer registration with an empty field

  // Column projections, used as the keys of the unique constraints.
  function Username(u: User): string { u.username }
  function UserId(u: User): nat { u.id }
  function WoredaName(w: Woreda): string { w.name }
  function WoredaId(w: Woreda): nat { w.id }
  function KebeleId(k: Kebele): nat { k.id }
  function FarmerId(f: Farmer): nat { f.id }

  /** Some Woreda row has primary key `id`. */
  predicate HasWoreda(ws: seq<Woreda>, id: nat) {
    exists w :: w in ws && w.id == id
  }

  predicate UsersValid(db: Db) {
    && DistinctBy(db.users, Username)
    && DistinctBy(db.users, UserId)
    && (forall u :: u in db.users ==> u.id < db.nextUserId)
  }

  predicate WoredasValid(db: Db) {
    && DistinctBy(db.woredas, WoredaName)
    && DistinctBy(db.woredas, WoredaId)
    && (forall w :: w in db.woredas ==> w.id < db.nextWoredaId)
  }

  /** Kebele ids are unique and every Kebele points at an existing Woreda. */
  predicate KebelesValid(db: Db) {
    && DistinctBy(db.kebeles, KebeleId)
    && (forall k :: k in db.kebeles ==> k.id < db.nextKebeleId && HasWoreda(db.woredas, k.woredaId))
  }

  predicate FarmersValid(db: Db) {
    && DistinctBy(db.farmers, FarmerId)
    && (forall f :: f in db.farmers ==> f.id < db.nextFarmerId)
  }

  /** Every constraint of the schema holds. */
  predicate Valid(db: Db) {
    UsersValid(db) && WoredasValid(db) && KebelesValid(db) && FarmersValid(db)
  }

  /** The freshly created, empty database. */
  function EmptyDb(): (db: Db)
    ensures Valid(db)
    ensures db.users == [] && db.woredas == [] && db.kebeles == [] && db.farmers == []
  {
    Db([], [], [], [], 1, 1, 1, 1)
  }

  function OfWoreda(id: nat): Kebele -> bool { (k: Kebele) => k.woredaId == id }

  function NotOfWoreda(id: nat): Kebele -> bool { (k: Kebele) => k.woredaId != id }

  /** The `Woreda.kebeles` relationship: the Kebeles carrying the Woreda's id. */
  function KebelesOf(ks: seq<Kebele>, id: nat): (r: seq<Kebele>)
    ensures forall k :: k in r <==> k in ks && k.woredaId == id
  {
    Filter(ks, OfWoreda(id))
  }

  /** In a valid database every Kebele appears in the `kebeles` of exactly one Woreda. */
  lemma KebeleInExactlyOneWoreda(db: Db, k: Kebele)
    requires Valid(db) && k in db.kebeles
    ensures exists w :: w in db.woredas && k in KebelesOf(db.kebeles, w.id)
    ensures forall w1, w2 ::
              w1 in db.woredas && w2 in db.woredas &&
              k in KebelesOf(db.kebeles, w1.id) && k in KebelesOf(db.kebeles, w2.id)
              ==> w1 == w2
  {
    var w :| w in db.woredas && w.id == k.woredaId;
    assert k in KebelesOf(db.kebeles, w.id);
    forall w1, w2 | w1 in db.woredas && w2 in db.woredas &&
                    k in KebelesOf(db.kebeles, w1.id) && k in KebelesOf(db.kebeles, w2.id)
      ensures w1 == w2
    {
      DistinctKeyIdentifies(db.woredas, WoredaId, w1, w2);
    }
  }

  /** Nothing in the schema stops two Kebeles with the same name under the same
      Woreda: adding a second one to a valid database keeps it valid. */
  lemma DuplicateKebeleNamesAllowed(db: Db, k: Kebele)
    requires Valid(db) && k in db.kebeles
    ensures Valid(db.(kebeles := db.kebeles + [Kebele(db.nextKebeleId, k.name, k.woredaId)],
                      nextKebeleId := db.nextKebeleId + 1))
  {
    var k' := Kebele(db.nextKebeleId, k.name, k.woredaId);
    AppendKeepsDistinct(db.kebeles, k', KebeleId);
  }
}
