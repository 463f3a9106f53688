/**
 * The user and role tables: creating and editing users, replacing a user's permanent roles, listing
 * them, and the access decision `check_user_role_any` over permanent and temporary roles.
 *
 * The `role` column compares without regard to ASCII case (SQLite `NOCASE`), and a user holds a role
 * at most once: `INSERT OR IGNORE` skips a role the user already holds, a plain `INSERT` of one fails.
 * Password hashing is outside the model: the caller passes the hash in.
 */
module UserService {
  import opened Wrappers
  import opened Text
  import opened Sorting
  import opened UserModel

  /** The roles an administrator may grant. */
  const DefinedRoles: seq<string> := ["admin", "rancheiro", "escalante", "monal", "adal", "comal", "loja"]

  /** An instant as a number; a later instant is a larger number. */
  type Instante = int

  /** A role held from `startDatetime` (included) to `endDatetime` (excluded). */
  datatype TempRole = TempRole(userId: string, role: string, startDatetime: Instante, endDatetime: Instante)

  /** The service reports every failure as an internal error. */
  datatype AppError = InternalServerError

  // ---------------------------------------------------------------------------
  // The `NOCASE` collation.

  function LowerAscii(s: string): string { Mapped(s, AsciiLower) }

  /** `ORDER BY role` under `NOCASE`: compare after lowering ASCII letters. */
  predicate NoCaseLe(a: string, b: string) {
    StrLe(LowerAscii(a), LowerAscii(b))
  }

  lemma NoCaseTotal()
    ensures TotalPreorder(NoCaseLe)
  {
    forall a: string, b: string ensures NoCaseLe(a, b) || NoCaseLe(b, a) {
      StrLeTotal(LowerAscii(a), LowerAscii(b));
    }
    forall a: string, b: string, c: string | NoCaseLe(a, b) && NoCaseLe(b, c) ensures NoCaseLe(a, c) {
      StrLeTransitive(LowerAscii(a), LowerAscii(b), LowerAscii(c));
    }
  }

  /** Two roles the collation sorts to the same place are the same role. */
  lemma NoCaseEqual(a: string, b: string)
    ensures NoCaseLe(a, b) && NoCaseLe(b, a) <==> EqIgnoreAsciiCase(a, b)
  {
    if NoCaseLe(a, b) && NoCaseLe(b, a) {
      StrLeAntisymmetric(LowerAscii(a), LowerAscii(b));
      assert forall i :: 0 <= i < |a| ==> LowerAscii(a)[i] == AsciiLower(a[i]);
    }
    if EqIgnoreAsciiCase(a, b) {
      assert LowerAscii(a) == LowerAscii(b);
      StrLeTotal(LowerAscii(a), LowerAscii(b));
    }
  }

  // ---------------------------------------------------------------------------
  // Rows of `user_roles` seen per user.

  /** The roles of `userId`, in row order. */
  function RolesDoUser(rows: seq<UserRole>, userId: string): seq<string> {
    if rows == [] then []
    else
      var n := |rows| - 1;
      assert rows == rows[..n] + [rows[n]];
      RolesDoUser(rows[..n], userId) + (if rows[n].userId == userId then [rows[n].role] else [])
  }

  /** The rows of every other user, in row order; `DELETE ... WHERE user_id = ?` leaves exactly these. */
  function OutrosUsers(rows: seq<UserRole>, userId: string): seq<UserRole> {
    if rows == [] then []
    else
      var n := |rows| - 1;
      assert rows == rows[..n] + [rows[n]];
      OutrosUsers(rows[..n], userId) + (if rows[n].userId != userId then [rows[n]] else [])
  }

  /** The user already holds the role, up to ASCII case: the key an insert would collide with. */
  predicate TemRole(rows: seq<UserRole>, userId: string, role: string) {
    exists k :: 0 <= k < |rows| && rows[k].userId == userId && EqIgnoreAsciiCase(rows[k].role, role)
  }

  /** Some value occurs twice, up to ASCII case. */
  ghost predicate HasDup(s: seq<string>) {
    exists i, j :: 0 <= i < j < |s| && EqIgnoreAsciiCase(s[i], s[j])
  }

  /** The entries that are not blank (`trim().is_empty()`, see `TrimEmptyIff`), in order. */
  function NaoVazias(rs: seq<string>): seq<string> {
    if rs == [] then []
    else
      var n := |rs| - 1;
      assert rs == rs[..n] + [rs[n]];
      NaoVazias(rs[..n]) + (if !AllWhitespace(rs[n]) then [rs[n]] else [])
  }

  lemma {:induction false} RolesDoUserMembros(rows: seq<UserRole>, userId: string)
    ensures forall x :: x in RolesDoUser(rows, userId) <==> UserRole(userId, x) in rows
  {
    if rows != [] {
      var n := |rows| - 1;
      RolesDoUserMembros(rows[..n], userId);
      assert rows == rows[..n] + [rows[n]];
    }
  }

  lemma {:induction false} OutrosUsersMembros(rows: seq<UserRole>, userId: string)
    ensures forall x :: x in OutrosUsers(rows, userId) <==> x in rows && x.userId != userId
  {
    if rows != [] {
      var n := |rows| - 1;
      OutrosUsersMembros(rows[..n], userId);
      assert rows == rows[..n] + [rows[n]];
    }
  }

  lemma {:induction false} NaoVaziasMembros(rs: seq<string>)
    ensures forall x :: x in NaoVazias(rs) <==> x in rs && !AllWhitespace(x)
  {
    if rs != [] {
      var n := |rs| - 1;
      NaoVaziasMembros(rs[..n]);
      assert rs == rs[..n] + [rs[n]];
    }
  }

  /** A collision with a role of the user is a collision with one of `RolesDoUser`. */
  lemma {:induction false} TemRoleIff(rows: seq<UserRole>, userId: string, role: string)
    ensures TemRole(rows, userId, role) <==>
      exists i :: 0 <= i < |RolesDoUser(rows, userId)| && EqIgnoreAsciiCase(RolesDoUser(rows, userId)[i], role)
  {
    if rows != [] {
      var n := |rows| - 1;
      var front := rows[..n];
      TemRoleIff(front, userId, role);
      var s := RolesDoUser(rows, userId);
      var sf := RolesDoUser(front, userId);
      assert s == sf + (if rows[n].userId == userId then [rows[n].role] else []);
      if TemRole(rows, userId, role) {
        var k :| 0 <= k < |rows| && rows[k].userId == userId && EqIgnoreAsciiCase(rows[k].role, role);
        if k < n {
          assert front[k] == rows[k];
          var i :| 0 <= i < |sf| && EqIgnoreAsciiCase(sf[i], role);
          assert s[i] == sf[i];
        } else {
          assert s[|sf|] == rows[n].role;
        }
      }
      if exists i :: 0 <= i < |s| && EqIgnoreAsciiCase(s[i], role) {
        var i :| 0 <= i < |s| && EqIgnoreAsciiCase(s[i], role);
        if i < |sf| {
          assert s[i] == sf[i];
          var k :| 0 <= k < |front| && front[k].userId == userId && EqIgnoreAsciiCase(front[k].role, role);
          assert rows[k] == front[k];
        } else {
          assert rows[n].userId == userId && s[i] == rows[n].role;
        }
      }
    }
  }

  /** Appending one value makes a duplicate exactly when it was one already or the value collides. */
  lemma HasDupSnoc(s: seq<string>, x: string)
    ensures HasDup(s + [x]) <==> HasDup(s) || exists i :: 0 <= i < |s| && EqIgnoreAsciiCase(s[i], x)
  {
    var t := s + [x];
    if HasDup(t) {
      var i, j :| 0 <= i < j < |t| && EqIgnoreAsciiCase(t[i], t[j]);
      if j < |s| { assert s[i] == t[i] && s[j] == t[j]; } else { assert t[i] == s[i]; }
    }
    if HasDup(s) {
      var i, j :| 0 <= i < j < |s| && EqIgnoreAsciiCase(s[i], s[j]);
      assert t[i] == s[i] && t[j] == s[j];
    }
    if exists i :: 0 <= i < |s| && EqIgnoreAsciiCase(s[i], x) {
      var i :| 0 <= i < |s| && EqIgnoreAsciiCase(s[i], x);
      assert t[i] == s[i] && t[|s|] == x;
    }
  }

  // ---------------------------------------------------------------------------
  // `get_user_roles` and `check_user_role_any`.

  /** `get_user_roles`: the user's roles in `ORDER BY role ASC`. */
  function GetUserRoles(rows: seq<UserRole>, userId: string): seq<string> {
    SortBy(RolesDoUser(rows, userId), NoCaseLe)
  }

  /** The list is sorted and holds each of the user's role rows once. */
  lemma GetUserRolesSorted(rows: seq<UserRole>, userId: string)
    ensures SortedBy(GetUserRoles(rows, userId), NoCaseLe)
    ensures multiset(GetUserRoles(rows, userId)) == multiset(RolesDoUser(rows, userId))
    ensures forall x :: x in GetUserRoles(rows, userId) <==> UserRole(userId, x) in rows
  {
    NoCaseTotal();
    RolesDoUserMembros(rows, userId);
    SortBySorted(RolesDoUser(rows, userId), NoCaseLe);
    forall x ensures x in GetUserRoles(rows, userId) <==> UserRole(userId, x) in rows {
      SortByMembers(RolesDoUser(rows, userId), NoCaseLe, x);
    }
  }

  /** `permanent_roles.iter().any(|role| required_roles.iter().any(|req| req.eq_ignore_ascii_case(role)))`. */
  predicate AlgumaIgual(permanentes: seq<string>, requeridas: seq<string>) {
    exists i, j :: 0 <= i < |permanentes| && 0 <= j < |requeridas| && EqIgnoreAsciiCase(requeridas[j], permanentes[i])
  }

  /** A temporary role of the user, among the required ones, whose window holds `agora`. */
  predicate TempAtiva(t: TempRole, userId: string, requeridas: seq<string>, agora: Instante) {
    t.userId == userId && t.role in requeridas && t.startDatetime <= agora < t.endDatetime
  }

  /** `check_user_role_any`, with the clock reading passed in as `agora`. */
  function CheckUserRoleAny(
    rows: seq<UserRole>, temps: seq<TempRole>, userId: string, requeridas: seq<string>, agora: Instante): bool
  {
    if requeridas == [] then true
    else if AlgumaIgual(GetUserRoles(rows, userId), requeridas) then true
    else exists k :: 0 <= k < |temps| && TempAtiva(temps[k], userId, requeridas, agora)
  }

  /**
   * Access is granted exactly when nothing is required, or a permanent role of the user matches a
   * required one up to ASCII case, or a temporary role of the user is required and active now (its
   * end excluded).
   */
  lemma CheckUserRoleAnyIff(
    rows: seq<UserRole>, temps: seq<TempRole>, userId: string, requeridas: seq<string>, agora: Instante)
    ensures CheckUserRoleAny(rows, temps, userId, requeridas, agora) <==>
      || requeridas == []
      || (exists x, j :: UserRole(userId, x) in rows && 0 <= j < |requeridas| && EqIgnoreAsciiCase(requeridas[j], x))
      || (exists k :: 0 <= k < |temps| && TempAtiva(temps[k], userId, requeridas, agora))
  {
    var perm := GetUserRoles(rows, userId);
    GetUserRolesSorted(rows, userId);
    if AlgumaIgual(perm, requeridas) {
      var i, j :| 0 <= i < |perm| && 0 <= j < |requeridas| && EqIgnoreAsciiCase(requeridas[j], perm[i]);
      assert perm[i] in perm;
    }
    if exists x, j :: UserRole(userId, x) in rows && 0 <= j < |requeridas| && EqIgnoreAsciiCase(requeridas[j], x) {
      var x, j :| UserRole(userId, x) in rows && 0 <= j < |requeridas| && EqIgnoreAsciiCase(requeridas[j], x);
      assert x in perm;
      var i :| 0 <= i < |perm| && perm[i] == x;
      assert AlgumaIgual(perm, requeridas);
    }
  }

  // ---------------------------------------------------------------------------
  // Role inserts.

  /** One `INSERT OR IGNORE INTO user_roles`. */
  function InsertOrIgnore(rows: seq<UserRole>, userId: string, role: string): seq<UserRole> {
    if TemRole(rows, userId, role) then rows else rows + [UserRole(userId, role)]
  }

  /** The role inserts of `create_user`, one per entry, in order. */
  function ComRolesNovas(rows: seq<UserRole>, userId: string, rs: seq<string>): seq<UserRole> {
    if rs == [] then rows
    else InsertOrIgnore(ComRolesNovas(rows, userId, rs[..|rs| - 1]), userId, rs[|rs| - 1])
  }

  /** The role inserts of `create_user` keep every existing row and add rows only for the new user. */
  lemma {:induction false} ComRolesNovasPreserva(rows: seq<UserRole>, userId: string, rs: seq<string>)
    ensures rows <= ComRolesNovas(rows, userId, rs)
    ensures OutrosUsers(ComRolesNovas(rows, userId, rs), userId) == OutrosUsers(rows, userId)
    ensures forall x :: x in RolesDoUser(ComRolesNovas(rows, userId, rs), userId) ==>
      x in RolesDoUser(rows, userId) || x in rs
  {
    if rs != [] {
      var n := |rs| - 1;
      var t' := ComRolesNovas(rows, userId, rs[..n]);
      var t := ComRolesNovas(rows, userId, rs);
      ComRolesNovasPreserva(rows, userId, rs[..n]);
      assert forall x :: x in rs[..n] ==> x in rs;
      if !TemRole(t', userId, rs[n]) {
        assert t == t' + [UserRole(userId, rs[n])];
        assert t[..|t| - 1] == t';
      }
    }
  }

  /** After them the user holds every listed role, and never holds a role twice unless they did before. */
  lemma {:induction false} ComRolesNovasCobre(rows: seq<UserRole>, userId: string, rs: seq<string>)
    ensures forall i :: 0 <= i < |rs| ==> TemRole(ComRolesNovas(rows, userId, rs), userId, rs[i])
    ensures !HasDup(RolesDoUser(rows, userId)) ==> !HasDup(RolesDoUser(ComRolesNovas(rows, userId, rs), userId))
  {
    if rs != [] {
      var n := |rs| - 1;
      var rs' := rs[..n];
      var t' := ComRolesNovas(rows, userId, rs');
      var t := ComRolesNovas(rows, userId, rs);
      ComRolesNovasCobre(rows, userId, rs');
      if !TemRole(t', userId, rs[n]) {
        assert t == t' + [UserRole(userId, rs[n])];
        forall i | 0 <= i < n ensures TemRole(t, userId, rs[i]) {
          assert rs[i] == rs'[i];
          var k :| 0 <= k < |t'| && t'[k].userId == userId && EqIgnoreAsciiCase(t'[k].role, rs'[i]);
          assert t[k] == t'[k];
        }
        assert t[|t'|].userId == userId && EqIgnoreAsciiCase(t[|t'|].role, rs[n]);
        assert RolesDoUser(t, userId) == RolesDoUser(t', userId) + [rs[n]] by {
          assert t[..|t| - 1] == t';
        }
        TemRoleIff(t', userId, rs[n]);
        HasDupSnoc(RolesDoUser(t', userId), rs[n]);
      } else {
        forall i | 0 <= i < n ensures TemRole(t, userId, rs[i]) {
          assert rs[i] == rs'[i];
        }
      }
    }
  }

  /**
   * The inserts of `set_user_roles` after the delete: blank entries are skipped, and an entry the
   * user already holds (up to ASCII case) fails the whole transaction.
   */
  function InserirRoles(rows: seq<UserRole>, userId: string, rs: seq<string>): Result<seq<UserRole>, AppError> {
    if rs == [] then Ok(rows)
    else
      var n := |rs| - 1;
      match InserirRoles(rows, userId, rs[..n])
      case Err(e) => Err(e)
      case Ok(t) =>
        if AllWhitespace(rs[n]) then Ok(t)
        else if TemRole(t, userId, rs[n]) then Err(InternalServerError)
        else Ok(t + [UserRole(userId, rs[n])])
  }

  /** `set_user_roles`: delete the user's rows, then insert the new list. */
  function Substituicao(rows: seq<UserRole>, userId: string, rs: seq<string>): Result<seq<UserRole>, AppError> {
    InserirRoles(OutrosUsers(rows, userId), userId, rs)
  }

  /** One more entry: what the inserts of `set_user_roles` do with `rs[i]`. */
  lemma InserirRolesPasso(rows: seq<UserRole>, userId: string, rs: seq<string>, i: nat, t: seq<UserRole>)
    requires i < |rs|
    requires InserirRoles(rows, userId, rs[..i]) == Ok(t)
    ensures InserirRoles(rows, userId, rs[..i + 1]) ==
      if AllWhitespace(rs[i]) then Ok(t)
      else if TemRole(t, userId, rs[i]) then Err(InternalServerError)
      else Ok(t + [UserRole(userId, rs[i])])
  {
    assert rs[..i + 1][..i] == rs[..i];
  }

  /** A failure on a prefix of the list is a failure of the whole list. */
  lemma {:induction false} InserirRolesErroPersiste(rows: seq<UserRole>, userId: string, rs: seq<string>, j: nat)
    requires j <= |rs|
    requires InserirRoles(rows, userId, rs[..j]).Err?
    ensures InserirRoles(rows, userId, rs).Err?
    decreases |rs| - j
  {
    if j < |rs| {
      var n := |rs| - 1;
      assert rs[..n][..j] == rs[..j];
      if j < n {
        InserirRolesErroPersiste(rows, userId, rs[..n], j);
      }
      assert rs == rs[..|rs|];
    } else {
      assert rs[..j] == rs;
    }
  }

  /** On success the user's roles are their old ones followed by the non-blank entries; other rows are kept. */
  lemma {:induction false} InserirRolesOk(rows: seq<UserRole>, userId: string, rs: seq<string>)
    requires InserirRoles(rows, userId, rs).Ok?
    ensures RolesDoUser(InserirRoles(rows, userId, rs).value, userId) == RolesDoUser(rows, userId) + NaoVazias(rs)
    ensures OutrosUsers(InserirRoles(rows, userId, rs).value, userId) == OutrosUsers(rows, userId)
  {
    if rs != [] {
      var n := |rs| - 1;
      InserirRolesOk(rows, userId, rs[..n]);
      var t := InserirRoles(rows, userId, rs[..n]).value;
      if !AllWhitespace(rs[n]) {
        var u := t + [UserRole(userId, rs[n])];
        assert u[..|u| - 1] == t;
      }
    }
  }

  /** The inserts fail exactly when the user's roles and the non-blank entries collide, up to ASCII case. */
  lemma {:induction false} InserirRolesErroIff(rows: seq<UserRole>, userId: string, rs: seq<string>)
    requires !HasDup(RolesDoUser(rows, userId))
    ensures InserirRoles(rows, userId, rs).Err? <==> HasDup(RolesDoUser(rows, userId) + NaoVazias(rs))
  {
    var base := RolesDoUser(rows, userId);
    if rs == [] {
      assert base + NaoVazias(rs) == base;
    } else {
      var n := |rs| - 1;
      var rs' := rs[..n];
      InserirRolesErroIff(rows, userId, rs');
      assert NaoVazias(rs) == NaoVazias(rs') + (if !AllWhitespace(rs[n]) then [rs[n]] else []);
      match InserirRoles(rows, userId, rs')
      case Err(_) =>
        var s := base + NaoVazias(rs');
        var i, j :| 0 <= i < j < |s| && EqIgnoreAsciiCase(s[i], s[j]);
        var s2 := base + NaoVazias(rs);
        assert s2[i] == s[i] && s2[j] == s[j];
      case Ok(t) =>
        InserirRolesOk(rows, userId, rs');
        if !AllWhitespace(rs[n]) {
          assert base + NaoVazias(rs) == (base + NaoVazias(rs')) + [rs[n]];
          TemRoleIff(t, userId, rs[n]);
          HasDupSnoc(base + NaoVazias(rs'), rs[n]);
        } else {
          assert base + NaoVazias(rs) == base + NaoVazias(rs');
        }
    }
  }

  /**
   * After a successful `set_user_roles` the user's roles are exactly the non-blank entries, in order,
   * and every other user's rows are as before; it fails exactly when two non-blank entries are the
   * same role up to ASCII case.
   */
  lemma SubstituicaoEfeito(rows: seq<UserRole>, userId: string, rs: seq<string>)
    ensures Substituicao(rows, userId, rs).Err? <==> HasDup(NaoVazias(rs))
    ensures Substituicao(rows, userId, rs).Ok? ==>
      && RolesDoUser(Substituicao(rows, userId, rs).value, userId) == NaoVazias(rs)
      && OutrosUsers(Substituicao(rows, userId, rs).value, userId) == OutrosUsers(rows, userId)
  {
    var base := OutrosUsers(rows, userId);
    OutrosUsersIdempotente(rows, userId);
    SemRolesDe(base, userId);
    assert [] + NaoVazias(rs) == NaoVazias(rs);
    assert !HasDup([]);
    InserirRolesErroIff(base, userId, rs);
    if Substituicao(rows, userId, rs).Ok? {
      InserirRolesOk(base, userId, rs);
    }
  }

  lemma {:induction false} SemRolesDe(rows: seq<UserRole>, userId: string)
    requires forall k :: 0 <= k < |rows| ==> rows[k].userId != userId
    ensures RolesDoUser(rows, userId) == []
  {
    if rows != [] {
      SemRolesDe(rows[..|rows| - 1], userId);
    }
  }

  lemma {:induction false} OutrosUsersIdempotente(rows: seq<UserRole>, userId: string)
    ensures OutrosUsers(OutrosUsers(rows, userId), userId) == OutrosUsers(rows, userId)
    ensures forall k :: 0 <= k < |OutrosUsers(rows, userId)| ==> OutrosUsers(rows, userId)[k].userId != userId
  {
    var o := OutrosUsers(rows, userId);
    OutrosUsersMembros(rows, userId);
    forall k | 0 <= k < |o| ensures o[k].userId != userId {
      assert o[k] in o;
    }
    OutrosUsersFixo(o, userId);
  }

  lemma {:induction false} OutrosUsersFixo(rows: seq<UserRole>, userId: string)
    requires forall k :: 0 <= k < |rows| ==> rows[k].userId != userId
    ensures OutrosUsers(rows, userId) == rows
  {
    if rows != [] {
      var n := |rows| - 1;
      OutrosUsersFixo(rows[..n], userId);
      assert rows == rows[..n] + [rows[n]];
    }
  }

  /** `role.trim().is_empty()`. */
  method IsBlank(role: string) returns (b: bool)
    ensures b <==> AllWhitespace(role)
  {
    TrimEmptyIff(role);
    b := Trim(role) == [];
  }

  // ---------------------------------------------------------------------------
  // The tables as state.

  class UserStore {
    var users: map<string, User>
    var roles: seq<UserRole>
    var tempRoles: seq<TempRole>

    constructor (us: map<string, User>, rs: seq<UserRole>, ts: seq<TempRole>)
      ensures users == us && roles == rs && tempRoles == ts
    {
      users, roles, tempRoles := us, rs, ts;
    }

    /** `create_user`, with the password already hashed: an existing id fails and nothing is written. */
    method CreateUser(
      id: string, name: string, passwordHash: string, turma: string, ano: int, curso: string, genero: string,
      newRoles: seq<string>)
      returns (r: Result<(), AppError>)
      modifies this
      ensures id in old(users) ==> r == Err(InternalServerError) && unchanged(this)
      ensures id !in old(users) ==>
        && r == Ok(())
        && users == old(users)[id := User(id, passwordHash, name, turma, ano, curso, genero)]
        && roles == ComRolesNovas(old(roles), id, newRoles)
        && tempRoles == old(tempRoles)
    {
      if id in users {
        return Err(InternalServerError);
      }
      var usersTx := users[id := User(id, passwordHash, name, turma, ano, curso, genero)];
      var rolesTx := roles;
      for i := 0 to |newRoles|
        invariant rolesTx == ComRolesNovas(old(roles), id, newRoles[..i])
      {
        assert newRoles[..i + 1][..i] == newRoles[..i];
        if !TemRole(rolesTx, id, newRoles[i]) {
          rolesTx := rolesTx + [UserRole(id, newRoles[i])];
        }
      }
      assert newRoles[..|newRoles|] == newRoles;
      users, roles := usersTx, rolesTx;
      return Ok(());
    }

    /** `set_user_roles`: the delete and the inserts commit together or not at all. */
    method SetUserRoles(userId: string, newRoles: seq<string>) returns (r: Result<(), AppError>)
      modifies this
      ensures match Substituicao(old(roles), userId, newRoles)
        case Ok(t) => r == Ok(()) && roles == t && users == old(users) && tempRoles == old(tempRoles)
        case Err(e) => r == Err(e) && unchanged(this)
    {
      var tx := OutrosUsers(roles, userId);
      ghost var base := tx;
      for i := 0 to |newRoles|
        invariant InserirRoles(base, userId, newRoles[..i]) == Ok(tx)
        invariant unchanged(this)
      {
        var role := newRoles[i];
        InserirRolesPasso(base, userId, newRoles, i, tx);
        var blank := IsBlank(role);
        if blank {
          continue;
        }
        if TemRole(tx, userId, role) {
          InserirRolesErroPersiste(base, userId, newRoles, i + 1);
          assert Substituicao(old(roles), userId, newRoles).Err?;
          assert Substituicao(old(roles), userId, newRoles).error == InternalServerError;
          return Err(InternalServerError);
        }
        tx := tx + [UserRole(userId, role)];
      }
      assert newRoles[..|newRoles|] == newRoles;
      roles := tx;
      return Ok(());
    }

    /** `update_user`: an unknown id fails and nothing is written. */
    method UpdateUser(userId: string, name: string, turma: string, ano: int, curso: string, genero: string)
      returns (r: Result<(), AppError>)
      modifies this
      ensures userId !in old(users) ==> r == Err(InternalServerError) && unchanged(this)
      ensures userId in old(users) ==>
        && r == Ok(())
        && users == old(users)[userId := old(users)[userId].(name := name, turma := turma, ano := ano, curso := curso, genero := genero)]
        && roles == old(roles) && tempRoles == old(tempRoles)
    {
      if userId !in users {
        return Err(InternalServerError);
      }
      users := users[userId := users[userId].(name := name, turma := turma, ano := ano, curso := curso, genero := genero)];
      return Ok(());
    }

    /** `update_user_password`, with the new password already hashed. */
    method UpdateUserPassword(userId: string, newPasswordHash: string) returns (r: Result<(), AppError>)
      modifies this
      ensures userId !in old(users) ==> r == Err(InternalServerError) && unchanged(this)
      ensures userId in old(users) ==>
        && r == Ok(())
        && users == old(users)[userId := old(users)[userId].(passwordHash := newPasswordHash)]
        && roles == old(roles) && tempRoles == old(tempRoles)
    {
      if userId !in users {
        return Err(InternalServerError);
      }
      users := users[userId := users[userId].(passwordHash := newPasswordHash)];
      return Ok(());
    }
  }
}
