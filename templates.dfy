// The role check the user-edit page uses to tick the checkbox of each defined role.

module Templates {
  import opened Text
  import opened UserModel
  import opened UserService

  /** `AdminEditUserPage::has_role`: some current role equals `role`, ignoring ASCII case. */
  function HasRole(currentRoles: seq<string>, role: string): (r: bool)
    ensures r <==> exists i :: 0 <= i < |currentRoles| && EqIgnoreAsciiCase(currentRoles[i], role)
  {
    if currentRoles == [] then false
    else if EqIgnoreAsciiCase(currentRoles[0], role) then true
    else
      var r := HasRole(currentRoles[1..], role);
      assert forall i :: 1 <= i < |currentRoles| ==> currentRoles[i] == currentRoles[1..][i - 1];
      r
  }

  /** A user without roles has no box ticked. */
  lemma HasRoleVazio(role: string)
    ensures !HasRole([], role)
  {
  }

  /** Two role names that differ only in ASCII case give the same answer. */
  lemma HasRoleIgnoraCaixa(currentRoles: seq<string>, a: string, b: string)
    requires EqIgnoreAsciiCase(a, b)
    ensures HasRole(currentRoles, a) == HasRole(currentRoles, b)
  {
    forall i | 0 <= i < |currentRoles|
      ensures EqIgnoreAsciiCase(currentRoles[i], a) <==> EqIgnoreAsciiCase(currentRoles[i], b)
    {
      EqIgnoreAsciiCaseSymmetric(a, b);
      if EqIgnoreAsciiCase(currentRoles[i], a) {
        EqIgnoreAsciiCaseTransitive(currentRoles[i], a, b);
      }
      if EqIgnoreAsciiCase(currentRoles[i], b) {
        EqIgnoreAsciiCaseTransitive(currentRoles[i], b, a);
      }
    }
  }

  /** The example the comparison is there for. */
  lemma HasRoleAdmin(currentRoles: seq<string>)
    ensures HasRole(currentRoles, "ADMIN") == HasRole(currentRoles, "admin")
  {
    assert EqIgnoreAsciiCase("ADMIN", "admin");
    HasRoleIgnoraCaixa(currentRoles, "ADMIN", "admin");
  }

  /** Only which names occur matters: order and repetition of the list do not change the answer. */
  lemma HasRoleConjunto(a: seq<string>, b: seq<string>, role: string)
    requires forall x :: x in a <==> x in b
    ensures HasRole(a, role) == HasRole(b, role)
  {
    if HasRole(a, role) {
      var i :| 0 <= i < |a| && EqIgnoreAsciiCase(a[i], role);
      assert a[i] in b;
      var j :| 0 <= j < |b| && b[j] == a[i];
      assert EqIgnoreAsciiCase(b[j], role);
    }
    if HasRole(b, role) {
      var j :| 0 <= j < |b| && EqIgnoreAsciiCase(b[j], role);
      assert b[j] in a;
      var i :| 0 <= i < |a| && a[i] == b[j];
      assert EqIgnoreAsciiCase(a[i], role);
    }
  }

  /**
   * On the edit page, whose list is `get_user_roles` of the user, a role's box is ticked exactly
   * when the user holds that role, up to ASCII case.
   */
  lemma HasRoleMarcada(rows: seq<UserRole>, userId: string, role: string)
    ensures HasRole(GetUserRoles(rows, userId), role) <==> TemRole(rows, userId, role)
  {
    GetUserRolesSorted(rows, userId);
    RolesDoUserMembros(rows, userId);
    HasRoleConjunto(GetUserRoles(rows, userId), RolesDoUser(rows, userId), role);
    TemRoleIff(rows, userId, role);
  }
}
