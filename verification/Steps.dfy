/**
  Each service transaction as one step of the database, with every write taking effect at once.
  Whatever the service reads from outside (clock, fresh ids, the verdict on a password, and which of
  several rows an unordered query returns) is part of the request.
 */
module Steps {
  import opened Wrappers
  import opened Timestamp
  import opened Rows
  import OrderNumber

  datatype Error = OrderEmpty | Forbidden | InvalidMenu | SessionClosed | NotFound | TokenExpired | Unauthorized

  /** Sixteen hours, in microseconds. */
  const SESSION_TTL := 16 * 3600 * 1000000

  function NewSession(id: Id, store: Id, table: Id, startedAt: int): Session {
    Session(id, store, table, SessionStatus.Active, startedAt, startedAt + SESSION_TTL, None)
  }

  function WithStatus(s: Session, status: SessionStatus, completedAt: Option<int>): Session {
    s.(status := status, completedAt := if completedAt.Some? then completedAt else s.completedAt)
  }

  function MarkSession(db: Db, i: nat, status: SessionStatus, completedAt: Option<int>): Db
    requires i < |db.sessions|
  {
    db.(sessions := db.sessions[i := WithStatus(db.sessions[i], status, completedAt)])
  }

  function AddSession(db: Db, s: Session): Db {
    db.(sessions := db.sessions + [s])
  }

  // ---------- create_order ----------

  datatype ItemRequest = ItemRequest(menu: Id, quantity: int)

  datatype CreateRequest = CreateRequest(
    store: Id, table: Option<Id>, tokenSession: Option<Id>, items: seq<ItemRequest>,
    now: int, today: Day, createdAt: int, orderId: Id, sessionId: Id, pick: Option<nat>)

  /** The session an order goes to: the picked active one, or a new one if the token names none. */
  function GetOrStartSession(db: Db, r: CreateRequest, table: Id): (res: Result<(Db, Id), Error>)
    requires r.pick.Some? ==> r.pick.value < |db.sessions|
  {
    if r.pick.Some? && r.now < db.sessions[r.pick.value].expiresAt then
      if r.tokenSession.Some? && r.tokenSession.value != db.sessions[r.pick.value].id
      then Failure(SessionClosed)
      else Success((db, db.sessions[r.pick.value].id))
    else
      var db1 := if r.pick.Some? then MarkSession(db, r.pick.value, SessionStatus.Expired, None) else db;
      if r.tokenSession.Some? then Failure(SessionClosed)
      else Success((AddSession(db1, NewSession(r.sessionId, r.store, table, r.now)), r.sessionId))
  }

  /** The order's lines at today's menu prices; nothing if one of the dishes is unknown. */
  function PriceItems(menus: seq<Menu>, store: Id, items: seq<ItemRequest>): Option<seq<Item>> {
    if items == [] then Some([])
    else
      var last := items[|items| - 1];
      match PriceItems(menus, store, items[..|items| - 1])
      case None => None
      case Some(front) =>
        match FindMenu(menus, store, last.menu)
        case None => None
        case Some(m) => Some(front + [Item(m.id, m.name, m.price, last.quantity, LineAmount(m.price, last.quantity))])
  }

  function NewOrder(orders: seq<Order>, r: CreateRequest, table: Id, session: Id, items: seq<Item>): Order {
    var seqNo := MaxSeq(orders, r.store, r.today) + 1;
    Order(r.orderId, r.store, table, session,
          OrderNumber.FormatOrderNumber(r.store, DateCompact(r.today), seqNo), seqNo, r.today,
          OrderStatus.Pending, TotalAmount(items), r.createdAt, None, None, items)
  }

  function CreateOrder(db: Db, r: CreateRequest): (res: (Db, Result<Order, Error>))
    requires r.pick.Some? ==> r.pick.value < |db.sessions|
  {
    if r.items == [] then (db, Failure(OrderEmpty))
    else if r.table.None? then (db, Failure(Forbidden))
    else
      match GetOrStartSession(db, r, r.table.value)
      case Failure(e) => (db, Failure(e))
      case Success((db1, session)) =>
        match PriceItems(db1.menus, r.store, r.items)
        case None => (db, Failure(InvalidMenu))
        case Some(items) =>
          var o := NewOrder(db1.orders, r, r.table.value, session, items);
          (db1.(orders := db1.orders + [o]), Success(o))
  }

  // ---------- update_status and delete_order ----------

  datatype StatusRequest = StatusRequest(store: Id, order: Id, status: OrderStatus)

  function UpdateStatus(db: Db, r: StatusRequest): (res: (Db, Result<Order, Error>)) {
    match FindOrder(db.orders, r.store, r.order)
    case None => (db, Failure(NotFound))
    case Some(i) =>
      var o := db.orders[i].(status := r.status);
      (db.(orders := db.orders[i := o]), Success(o))
  }

  datatype DeleteRequest = DeleteRequest(store: Id, order: Id, actor: string, at: int)
  datatype Deleted = Deleted(order: Id, table: Id, tableTotal: int)

  /** The total a deletion reports here is the one after it. */
  function DeleteOrder(db: Db, r: DeleteRequest): (res: (Db, Result<Deleted, Error>)) {
    match FindOrder(db.orders, r.store, r.order)
    case None => (db, Failure(NotFound))
    case Some(i) =>
      var o := db.orders[i];
      var orders := db.orders[i := o.(deletedAt := Some(r.at), deletedBy := Some(r.actor))];
      (db.(orders := orders), Success(Deleted(r.order, o.table, SumTableTotal(orders, r.store, o.session))))
  }

  // ---------- setup_table ----------

  datatype SetupRequest = SetupRequest(
    store: Id, no: string, passwordHash: string, now: int, startedAt: int,
    tableId: Id, sessionId: Id, pick: Option<nat>)

  function UpsertTable(db: Db, r: SetupRequest): (res: (Db, Id)) {
    match FindTable(db.tables, r.store, r.no)
    case None => (db.(tables := db.tables + [Table(r.tableId, r.store, r.no, Some(r.passwordHash), true)]), r.tableId)
    case Some(i) =>
      (db.(tables := db.tables[i := db.tables[i].(passwordHash := Some(r.passwordHash), autoLogin := true)]), db.tables[i].id)
  }

  function SetupTable(db: Db, r: SetupRequest): (res: (Db, Result<(Id, Id), Error>))
    requires r.pick.Some? ==> r.pick.value < |db.sessions|
  {
    if FindTable(db.tables, r.store, r.no).Some? && r.pick.Some? && r.now < db.sessions[r.pick.value].expiresAt
    then (db, Failure(SessionClosed))
    else
      var (db1, table) := UpsertTable(db, r);
      (AddSession(db1, NewSession(r.sessionId, r.store, table, r.startedAt)), Success((table, r.sessionId)))
  }

  // ---------- authenticate_table ----------

  /** `fits` are the hashes that the password sent along is the right one for. */
  datatype LoginRequest = LoginRequest(store: Id, no: string, fits: set<string>, now: int, pick: Option<nat>)

  /** The table exists, lets tablets log in, and the PIN is the right one. */
  predicate PinAccepted(db: Db, r: LoginRequest) {
    var found := FindTable(db.tables, r.store, r.no);
    found.Some? && db.tables[found.value].autoLogin && db.tables[found.value].passwordHash.Some?
    && db.tables[found.value].passwordHash.value in r.fits
  }

  /** The password check and what follows it; an expired session found here is marked, and the mark stays. */
  function LoginTable(db: Db, r: LoginRequest): (res: (Db, Result<Id, Error>))
    requires r.pick.Some? ==> r.pick.value < |db.sessions|
  {
    if !PinAccepted(db, r) then (db, Failure(Unauthorized))
    else
      match r.pick
      case None => (db, Failure(TokenExpired))
      case Some(i) =>
        if r.now >= db.sessions[i].expiresAt
        then (MarkSession(db, i, SessionStatus.Expired, None), Failure(TokenExpired))
        else (db, Success(db.sessions[i].id))
  }

  // ---------- complete_session ----------

  datatype CompleteRequest = CompleteRequest(store: Id, table: Id, completedAt: int, historyIds: seq<Id>, pick: Option<nat>)

  function Archived(o: Order, id: Id, store: Id, session: Id, completedAt: int): History {
    History(id, store, o.table, session, o.id, o.number, o.total, o.status, o.createdAt, completedAt, o.items)
  }

  function ArchiveAll(orders: seq<Order>, ids: seq<Id>, store: Id, session: Id, completedAt: int): (rows: seq<History>)
    requires |orders| <= |ids|
    ensures |rows| == |orders|
    ensures forall i :: 0 <= i < |rows| ==> rows[i] == Archived(orders[i], ids[i], store, session, completedAt)
  {
    if orders == [] then []
    else
      ArchiveAll(orders[..|orders| - 1], ids, store, session, completedAt)
      + [Archived(orders[|orders| - 1], ids[|orders| - 1], store, session, completedAt)]
  }

  function CompleteSession(db: Db, r: CompleteRequest): (res: (Db, Result<nat, Error>))
    requires r.pick.Some? ==> r.pick.value < |db.sessions|
    requires r.pick.Some? ==> |ListBySession(db.orders, r.store, db.sessions[r.pick.value].id)| <= |r.historyIds|
  {
    match r.pick
    case None => (db, Failure(NotFound))
    case Some(i) =>
      var session := db.sessions[i].id;
      if CountPending(db.orders, r.store, session) > 0 then (db, Failure(SessionClosed))
      else
        var orders := ListBySession(db.orders, r.store, session);
        var db1 := db.(histories := db.histories + ArchiveAll(orders, r.historyIds, r.store, session, r.completedAt));
        (MarkSession(db1, i, SessionStatus.Completed, Some(r.completedAt)), Success(|orders|))
  }

  // ---------- One step of the service ----------

  datatype Request =
    | Setup(setup: SetupRequest)
    | Login(login: LoginRequest)
    | Create(create: CreateRequest)
    | Status(status: StatusRequest)
    | Delete(delete: DeleteRequest)
    | Complete(complete: CompleteRequest)
    | EditMenus(menus: seq<Menu>)   // whatever else happens to the menu

  ghost predicate FreshTable(db: Db, id: Id) {
    forall i :: 0 <= i < |db.tables| ==> db.tables[i].id != id
  }

  ghost predicate FreshSession(db: Db, id: Id) {
    forall i :: 0 <= i < |db.sessions| ==> db.sessions[i].id != id
  }

  ghost predicate FreshOrder(db: Db, id: Id) {
    forall i :: 0 <= i < |db.orders| ==> db.orders[i].id != id
  }

  ghost predicate FreshHistories(db: Db, ids: seq<Id>) {
    && (forall i, j :: 0 <= i < j < |ids| ==> ids[i] != ids[j])
    && (forall i, j :: 0 <= i < |ids| && 0 <= j < |db.histories| ==> ids[i] != db.histories[j].id)
  }

  ghost predicate KnownTable(db: Db, store: Id, id: Id) {
    exists i :: 0 <= i < |db.tables| && db.tables[i].id == id && db.tables[i].store == store
  }

  ghost predicate PickOfTable(db: Db, store: Id, no: string, pick: Option<nat>) {
    match FindTable(db.tables, store, no)
    case None => pick.None?
    case Some(i) => ValidPick(db.sessions, store, db.tables[i].id, pick)
  }

  /** Ids are fresh, unordered queries return a row that fits, and a token names a table there is. */
  ghost predicate Admissible(db: Db, q: Request) {
    match q
    case Setup(r) => FreshTable(db, r.tableId) && FreshSession(db, r.sessionId) && PickOfTable(db, r.store, r.no, r.pick)
    case Login(r) => PickOfTable(db, r.store, r.no, r.pick)
    case Create(r) =>
      && FreshOrder(db, r.orderId) && FreshSession(db, r.sessionId)
      && (if r.table.Some? then KnownTable(db, r.store, r.table.value)
           && ValidPick(db.sessions, r.store, r.table.value, r.pick) else r.pick.None?)
    case Status(_) => true
    case Delete(_) => true
    case Complete(r) =>
      && ValidPick(db.sessions, r.store, r.table, r.pick) && FreshHistories(db, r.historyIds)
      && (r.pick.Some? ==> |ListBySession(db.orders, r.store, db.sessions[r.pick.value].id)| <= |r.historyIds|)
    case EditMenus(_) => true
  }

  ghost function Next(db: Db, q: Request): Db
    requires Admissible(db, q)
  {
    match q
    case Setup(r) => SetupTable(db, r).0
    case Login(r) => LoginTable(db, r).0
    case Create(r) => CreateOrder(db, r).0
    case Status(r) => UpdateStatus(db, r).0
    case Delete(r) => DeleteOrder(db, r).0
    case Complete(r) => CompleteSession(db, r).0
    case EditMenus(menus) => db.(menus := menus)
  }
}
