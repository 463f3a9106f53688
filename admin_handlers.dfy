// The administration forms: their validation and the store operations a valid form triggers.
// Redirect targets are modelled by where they lead and whether they carry a success or an error
// message; the message text and its URL encoding are not modelled.

module AdminHandlers {
  import opened Text
  import opened Wrappers
  import opened UserModel
  import opened UserService

  datatype CreateUserForm = CreateUserForm(
    id: string, name: string, password: string, turma: string, ano: int, curso: string, genero: string,
    roles: seq<string>)

  datatype EditUserForm = EditUserForm(
    name: string, turma: string, ano: int, curso: string, genero: string, roles: seq<string>)

  datatype ChangePasswordForm = ChangePasswordForm(id: string, newPassword: string)

  /** Where a handler redirects: the user list with a success or an error message, or back to the edit page with an error. */
  datatype Destino = ListaSucesso | ListaErro | EdicaoErro(userId: string)

  /** The minimum password length, in bytes. */
  const SenhaMinima := 4

  predicate GeneroValido(genero: string) {
    genero == "M" || genero == "F"
  }

  /** The rejection test of `handle_create_user`, with "empty after trimming" written as "all whitespace". */
  predicate CriacaoInvalida(f: CreateUserForm) {
    || AllWhitespace(f.id)
    || AllWhitespace(f.name)
    || Utf8Len(f.password) < SenhaMinima
    || AllWhitespace(f.turma)
    || AllWhitespace(f.curso)
    || !GeneroValido(f.genero)
  }

  /** The rejection test of `handle_change_password`. */
  predicate SenhaInvalida(f: ChangePasswordForm) {
    AllWhitespace(f.id) || Utf8Len(f.newPassword) < SenhaMinima
  }

  /** The rejection test of `handle_edit_user`; the year and the roles are not checked. */
  predicate EdicaoInvalida(f: EditUserForm) {
    AllWhitespace(f.name) || AllWhitespace(f.turma) || AllWhitespace(f.curso) || !GeneroValido(f.genero)
  }

  /** The create test is the source's: a field trimmed to nothing, a short password or a gender other than M/F. */
  lemma CriacaoInvalidaIff(f: CreateUserForm)
    ensures CriacaoInvalida(f) <==>
      || Trim(f.id) == []
      || Trim(f.name) == []
      || Utf8Len(f.password) < 4
      || Trim(f.turma) == []
      || Trim(f.curso) == []
      || (f.genero != "M" && f.genero != "F")
  {
    TrimEmptyIff(f.id);
    TrimEmptyIff(f.name);
    TrimEmptyIff(f.turma);
    TrimEmptyIff(f.curso);
  }

  /** The password test is the source's: an id trimmed to nothing or a password shorter than four bytes. */
  lemma SenhaInvalidaIff(f: ChangePasswordForm)
    ensures SenhaInvalida(f) <==> Trim(f.id) == [] || Utf8Len(f.newPassword) < 4
  {
    TrimEmptyIff(f.id);
  }

  /** The edit test is the source's: a field trimmed to nothing or a gender other than M/F. */
  lemma EdicaoInvalidaIff(f: EditUserForm)
    ensures EdicaoInvalida(f) <==>
      || Trim(f.name) == []
      || Trim(f.turma) == []
      || Trim(f.curso) == []
      || (f.genero != "M" && f.genero != "F")
  {
    TrimEmptyIff(f.name);
    TrimEmptyIff(f.turma);
    TrimEmptyIff(f.curso);
  }

  /** The year and the role list never make an edit invalid. */
  lemma EdicaoAnoLivre(f: EditUserForm, ano: int, roles: seq<string>)
    ensures EdicaoInvalida(f.(ano := ano, roles := roles)) == EdicaoInvalida(f)
  {
  }

  /** A form that passes the create test also passes the edit test with the same fields. */
  lemma CriacaoValidaEdicaoValida(f: CreateUserForm)
    requires !CriacaoInvalida(f)
    ensures !EdicaoInvalida(EditUserForm(f.name, f.turma, f.ano, f.curso, f.genero, f.roles))
  {
  }

  /** The length test counts bytes: two accented letters already make four. */
  lemma SenhaContaBytes()
    ensures |"çã"| == 2
    ensures !SenhaInvalida(ChangePasswordForm("1001", "çã"))
    ensures SenhaInvalida(ChangePasswordForm("1001", "abc"))
  {
    assert "çã"[1..] == "ã" && "ã"[1..] == [];
    assert Utf8Len("çã") == Utf8Width('ç') + Utf8Width('ã') == 4;
    assert !IsWhitespace("1001"[0]);
    assert Utf8Len("abc") == 1 + Utf8Len("bc");
    assert Utf8Len("bc") == 1 + Utf8Len("c");
  }

  /** `handle_create_user`; `passwordHash` stands for the hash `create_user` makes of `form.password`. */
  method HandleCreateUser(store: UserStore, form: CreateUserForm, passwordHash: string) returns (d: Destino)
    modifies store
    ensures CriacaoInvalida(form) ==> d == ListaErro && unchanged(store)
    ensures !CriacaoInvalida(form) && form.id in old(store.users) ==> d == ListaErro && unchanged(store)
    ensures !CriacaoInvalida(form) && form.id !in old(store.users) ==>
      && d == ListaSucesso
      && store.users == old(store.users)[form.id := User(
           form.id, passwordHash, form.name, form.turma, form.ano, form.curso, form.genero)]
      && store.roles == ComRolesNovas(old(store.roles), form.id, form.roles)
      && store.tempRoles == old(store.tempRoles)
  {
    var idVazio := IsBlank(form.id);
    var nomeVazio := IsBlank(form.name);
    var turmaVazia := IsBlank(form.turma);
    var cursoVazio := IsBlank(form.curso);
    if idVazio || nomeVazio || Utf8Len(form.password) < SenhaMinima || turmaVazia || cursoVazio
      || (form.genero != "M" && form.genero != "F")
    {
      return ListaErro;
    }
    var r := store.CreateUser(form.id, form.name, passwordHash, form.turma, form.ano, form.curso, form.genero, form.roles);
    if r.Err? {
      return ListaErro;
    }
    return ListaSucesso;
  }

  /** `handle_change_password`; `newPasswordHash` stands for the hash of `form.newPassword`. */
  method HandleChangePassword(store: UserStore, form: ChangePasswordForm, newPasswordHash: string) returns (d: Destino)
    modifies store
    ensures SenhaInvalida(form) || form.id !in old(store.users) ==> d == ListaErro && unchanged(store)
    ensures !SenhaInvalida(form) && form.id in old(store.users) ==>
      && d == ListaSucesso
      && store.users == old(store.users)[form.id := old(store.users)[form.id].(passwordHash := newPasswordHash)]
      && store.roles == old(store.roles)
      && store.tempRoles == old(store.tempRoles)
  {
    var idVazio := IsBlank(form.id);
    if idVazio || Utf8Len(form.newPassword) < SenhaMinima {
      return ListaErro;
    }
    var r := store.UpdateUserPassword(form.id, newPasswordHash);
    if r.Err? {
      return ListaErro;
    }
    return ListaSucesso;
  }

  /**
   * `handle_edit_user`: the basic data and the roles are written by two separate calls, so when the
   * role replacement fails the updated basic data stay written and only the roles are left as they were.
   */
  method HandleEditUser(store: UserStore, userId: string, form: EditUserForm) returns (d: Destino)
    modifies store
    ensures EdicaoInvalida(form) || userId !in old(store.users) ==> d == EdicaoErro(userId) && unchanged(store)
    ensures !EdicaoInvalida(form) && userId in old(store.users) ==>
      && store.users == old(store.users)[userId := old(store.users)[userId].(
           name := form.name, turma := form.turma, ano := form.ano, curso := form.curso, genero := form.genero)]
      && store.tempRoles == old(store.tempRoles)
      && match Substituicao(old(store.roles), userId, form.roles)
         case Ok(t) => d == ListaSucesso && store.roles == t
         case Err(_) => d == EdicaoErro(userId) && store.roles == old(store.roles)
  {
    var nomeVazio := IsBlank(form.name);
    var turmaVazia := IsBlank(form.turma);
    var cursoVazio := IsBlank(form.curso);
    if nomeVazio || turmaVazia || cursoVazio || (form.genero != "M" && form.genero != "F") {
      return EdicaoErro(userId);
    }
    var r := store.UpdateUser(userId, form.name, form.turma, form.ano, form.curso, form.genero);
    if r.Err? {
      return EdicaoErro(userId);
    }
    var rr := store.SetUserRoles(userId, form.roles);
    if rr.Err? {
      return EdicaoErro(userId);
    }
    return ListaSucesso;
  }
}
