/**
 * The eligibility query `QUERY_USUARIOS_QUE_PODEM_LOGAR` and `fetch_users`.
 *
 * The three tables of schema `auth` are sequences of rows held in memory. The
 * query keeps a user when both of its flags are true and EXISTS a link row
 * that is active and joins an active contract; it orders the result by id.
 */
module Eligibility {

  /** A row of `auth.usuario`. */
  datatype Usuario = Usuario(id: int, nome: string, ativo: bool, podeAcessar: bool)

  /** A row of `auth.usuario_contrato`: links a user to a contract. */
  datatype UsuarioContrato = UsuarioContrato(usuarioId: int, contratoId: int, ativo: bool)

  /** A row of `auth.contrato`. */
  datatype Contrato = Contrato(id: int, ativo: bool)

  datatype Database = Database(
    usuarios: seq<Usuario>,
    vinculos: seq<UsuarioContrato>,
    contratos: seq<Contrato>)

  /** A result row of the query: `u.id AS usuario_id, u.nome`. */
  datatype QueryRow = QueryRow(usuarioId: int, nome: string)

  /** What `fetch_users` returns per row: `(int id, nome)`. */
  type UserPair = (int, string)

  // ---------------------------------------------------------------------
  // The WHERE clause

  /** `JOIN auth.contrato c ON c.id = uc.contrato_id ... AND c.ativo = true` */
  predicate ActiveContract(db: Database, contratoId: int) {
    exists c :: c in db.contratos && c.id == contratoId && c.ativo
  }

  /** One row of the EXISTS subquery for user `userId`. */
  predicate QualifyingLink(db: Database, l: UsuarioContrato, userId: int) {
    l.usuarioId == userId && l.ativo && ActiveContract(db, l.contratoId)
  }

  /** The EXISTS subquery. */
  predicate HasActiveContract(db: Database, userId: int) {
    exists l :: l in db.vinculos && QualifyingLink(db, l, userId)
  }

  /** The whole WHERE clause: the user may log in. */
  predicate CanLogIn(db: Database, u: Usuario) {
    u.ativo && u.podeAcessar && HasActiveContract(db, u.id)
  }

  /** `id` is the primary key of `auth.usuario`. */
  predicate UniqueIds(us: seq<Usuario>) {
    forall i, j :: 0 <= i < |us| && 0 <= j < |us| && us[i].id == us[j].id ==> i == j
  }

  predicate SortedById(us: seq<Usuario>) {
    forall i, j :: 0 <= i < j < |us| ==> us[i].id <= us[j].id
  }

  predicate StrictlySortedById(us: seq<Usuario>) {
    forall i, j :: 0 <= i < j < |us| ==> us[i].id < us[j].id
  }

  // ---------------------------------------------------------------------
  // Evaluation of the query

  /** The rows of `us` that pass the WHERE clause, each user row kept once. */
  function Select(db: Database, us: seq<Usuario>): (r: seq<Usuario>)
    ensures |r| <= |us|
    ensures forall u :: multiset(r)[u] == if CanLogIn(db, u) then multiset(us)[u] else 0
  {
    if us == [] then []
    else
      var rest := Select(db, us[1..]);
      assert us == [us[0]] + us[1..];
      if CanLogIn(db, us[0]) then [us[0]] + rest else rest
  }

  /** Places `u` into a sequence already ordered by id. */
  function InsertById(u: Usuario, sorted: seq<Usuario>): (r: seq<Usuario>)
    requires SortedById(sorted)
    ensures SortedById(r)
    ensures multiset(r) == multiset(sorted) + multiset{u}
    ensures r[0] == u || (sorted != [] && r[0] == sorted[0])
  {
    if sorted == [] || u.id <= sorted[0].id then
      ConsSorted(u, sorted);
      [u] + sorted
    else
      var rest := InsertById(u, sorted[1..]);
      assert sorted == [sorted[0]] + sorted[1..];
      ConsSorted(sorted[0], rest);
      [sorted[0]] + rest
  }

  lemma ConsSorted(x: Usuario, rest: seq<Usuario>)
    requires SortedById(rest) && (rest == [] || x.id <= rest[0].id)
    ensures SortedById([x] + rest)
  {
  }

  /** `ORDER BY u.id`. */
  function SortById(us: seq<Usuario>): (r: seq<Usuario>)
    ensures SortedById(r)
    ensures multiset(r) == multiset(us)
  {
    if us == [] then []
    else
      assert us == [us[0]] + us[1..];
      InsertById(us[0], SortById(us[1..]))
  }

  /** The projection `u.id AS usuario_id, u.nome`. */
  function Project(us: seq<Usuario>): (r: seq<QueryRow>)
    ensures |r| == |us|
    ensures forall i :: 0 <= i < |us| ==> r[i] == QueryRow(us[i].id, us[i].nome)
  {
    if us == [] then [] else [QueryRow(us[0].id, us[0].nome)] + Project(us[1..])
  }

  /** `QUERY_USUARIOS_QUE_PODEM_LOGAR` evaluated over the three tables. */
  function Query(db: Database): (r: seq<QueryRow>)
    ensures |r| <= |db.usuarios|
  {
    Project(SortById(Select(db, db.usuarios)))
  }

  /** `fetch_users`: each result row becomes `(int(usuario_id), nome)`. */
  function FetchUsers(rows: seq<QueryRow>): (r: seq<UserPair>)
    ensures |r| == |rows|
    ensures forall i :: 0 <= i < |rows| ==> r[i] == (rows[i].usuarioId, rows[i].nome)
  {
    if rows == [] then [] else [(rows[0].usuarioId, rows[0].nome)] + FetchUsers(rows[1..])
  }

  // ---------------------------------------------------------------------
  // Properties of the query

  /** A row is in the result iff it comes from an eligible user row. */
  lemma QueryMembership(db: Database, row: QueryRow)
    ensures row in Query(db) <==>
      exists u :: u in db.usuarios && CanLogIn(db, u) && row == QueryRow(u.id, u.nome)
  {
    var sel := SortById(Select(db, db.usuarios));
    var r := Query(db);
    if row in r {
      var i :| 0 <= i < |r| && r[i] == row;
      var u := sel[i];
      assert u in multiset(sel);
      assert CanLogIn(db, u) && u in multiset(db.usuarios);
    }
    if exists u :: u in db.usuarios && CanLogIn(db, u) && row == QueryRow(u.id, u.nome) {
      var u :| u in db.usuarios && CanLogIn(db, u) && row == QueryRow(u.id, u.nome);
      assert u in multiset(db.usuarios);
      assert u in multiset(sel);
      var i :| 0 <= i < |sel| && sel[i] == u;
      assert r[i] == row;
    }
  }

  /** The result is in ascending id order, strictly so when ids are a key. */
  lemma QueryOrderedById(db: Database)
    ensures forall i, j :: 0 <= i < j < |Query(db)| ==> Query(db)[i].usuarioId <= Query(db)[j].usuarioId
    ensures UniqueIds(db.usuarios) ==>
      forall i, j :: 0 <= i < j < |Query(db)| ==> Query(db)[i].usuarioId < Query(db)[j].usuarioId
  {
    if UniqueIds(db.usuarios) {
      SelectKeepsUniqueIds(db, db.usuarios);
      SortByIdStrict(Select(db, db.usuarios));
    }
  }

  /** Dropping rows keeps ids a key. */
  lemma {:induction false} SelectKeepsUniqueIds(db: Database, us: seq<Usuario>)
    requires UniqueIds(us)
    ensures UniqueIds(Select(db, us))
    decreases |us|
  {
    if us != [] {
      var rest := Select(db, us[1..]);
      assert UniqueIds(us[1..]);
      SelectKeepsUniqueIds(db, us[1..]);
      forall x | x in rest ensures x.id != us[0].id {
        assert x in multiset(rest);
        var k :| 0 <= k < |us[1..]| && us[1..][k] == x;
        assert us[k + 1] == x;
      }
    }
  }

  /** Inserting a row with a fresh id into a strictly ordered sequence keeps it strictly ordered. */
  lemma {:induction false} InsertByIdStrict(u: Usuario, sorted: seq<Usuario>)
    requires SortedById(sorted) && StrictlySortedById(sorted)
    requires forall x :: x in sorted ==> x.id != u.id
    ensures StrictlySortedById(InsertById(u, sorted))
    decreases |sorted|
  {
    if sorted != [] && u.id > sorted[0].id {
      InsertByIdStrict(u, sorted[1..]);
    }
  }

  /** With ids a key, `ORDER BY u.id` leaves no two rows with one id. */
  lemma {:induction false} SortByIdStrict(us: seq<Usuario>)
    requires UniqueIds(us)
    ensures StrictlySortedById(SortById(us))
    decreases |us|
  {
    if us != [] {
      var rest := SortById(us[1..]);
      assert UniqueIds(us[1..]);
      SortByIdStrict(us[1..]);
      forall x | x in rest ensures x.id != us[0].id {
        assert x in multiset(rest);
        var k :| 0 <= k < |us[1..]| && us[1..][k] == x;
        assert us[k + 1] == x;
      }
      InsertByIdStrict(us[0], rest);
    }
  }

  /**
   * Because eligibility is an EXISTS and not a join, an eligible user is
   * reported exactly once whatever the number of qualifying links (ids
   * being a key): one row carries the user, and no other row has its id.
   */
  lemma EligibleUserReportedOnce(db: Database, u: Usuario)
    requires UniqueIds(db.usuarios) && u in db.usuarios && CanLogIn(db, u)
    ensures exists i :: (0 <= i < |Query(db)| && Query(db)[i] == QueryRow(u.id, u.nome)
      && forall j :: 0 <= j < |Query(db)| && Query(db)[j].usuarioId == u.id ==> j == i)
  {
    var r := Query(db);
    QueryOrderedById(db);
    QueryMembership(db, QueryRow(u.id, u.nome));
    var i :| 0 <= i < |r| && r[i] == QueryRow(u.id, u.nome);
    OnlyIndexWithId(r, i);
  }

  /** In rows strictly ascending by id, an id is carried by one index only. */
  lemma OnlyIndexWithId(r: seq<QueryRow>, i: int)
    requires forall a, b :: 0 <= a < b < |r| ==> r[a].usuarioId < r[b].usuarioId
    requires 0 <= i < |r|
    ensures forall j :: 0 <= j < |r| && r[j].usuarioId == r[i].usuarioId ==> j == i
  {
  }

  /** A user who may not log in contributes no row, whatever the id. */
  lemma IneligibleUserNotReported(db: Database, u: Usuario)
    requires UniqueIds(db.usuarios) && u in db.usuarios && !CanLogIn(db, u)
    ensures forall row :: row in Query(db) ==> row.usuarioId != u.id
  {
    var r := Query(db);
    var a :| 0 <= a < |db.usuarios| && db.usuarios[a] == u;
    forall row | row in r ensures row.usuarioId != u.id {
      QueryMembership(db, row);
      var v :| v in db.usuarios && CanLogIn(db, v) && row == QueryRow(v.id, v.nome);
      var b :| 0 <= b < |db.usuarios| && db.usuarios[b] == v;
    }
  }

  /**
   * A further qualifying link for a user that already has one changes
   * nothing in the result: the query does not multiply rows per link.
   */
  lemma ExtraQualifyingLinkChangesNothing(db: Database, l: UsuarioContrato)
    requires HasActiveContract(db, l.usuarioId)
    ensures Query(db.(vinculos := db.vinculos + [l])) == Query(db)
  {
    var db' := db.(vinculos := db.vinculos + [l]);
    forall u | true ensures CanLogIn(db', u) == CanLogIn(db, u) {
      if HasActiveContract(db', u.id) {
        var k :| k in db'.vinculos && QualifyingLink(db', k, u.id);
        if k in db.vinculos {
          assert QualifyingLink(db, k, u.id);
        } else {
          assert k == l;
        }
      }
      if HasActiveContract(db, u.id) {
        var k :| k in db.vinculos && QualifyingLink(db, k, u.id);
        assert k in db'.vinculos;
      }
    }
    SelectDependsOnlyOnEligibility(db, db', db.usuarios);
  }

  lemma {:induction false} SelectDependsOnlyOnEligibility(db: Database, db': Database, us: seq<Usuario>)
    requires forall u :: CanLogIn(db', u) == CanLogIn(db, u)
    ensures Select(db', us) == Select(db, us)
    decreases |us|
  {
    if us != [] {
      SelectDependsOnlyOnEligibility(db, db', us[1..]);
    }
  }

  /** `fetch_users` keeps exactly the rows it is given, as pairs. */
  lemma FetchUsersMembership(rows: seq<QueryRow>, p: UserPair)
    ensures p in FetchUsers(rows) <==> QueryRow(p.0, p.1) in rows
  {
  }

  /** `fetch_users` over the query: pairs in ascending id order, each from an eligible user. */
  lemma FetchedUsersAreEligible(db: Database)
    ensures forall p :: p in FetchUsers(Query(db)) <==>
      exists u :: u in db.usuarios && CanLogIn(db, u) && p == (u.id, u.nome)
    ensures var ps := FetchUsers(Query(db));
      forall i, j :: 0 <= i < j < |ps| ==> ps[i].0 <= ps[j].0
  {
    var r := Query(db);
    QueryOrderedById(db);
    forall p ensures p in FetchUsers(r) <==> exists u :: u in db.usuarios && CanLogIn(db, u) && p == (u.id, u.nome) {
      FetchUsersMembership(r, p);
      QueryMembership(db, QueryRow(p.0, p.1));
    }
  }
}
