/** A row of the `users` table and a row of `user_roles`. */
module UserModel {

  /**
   * A person registered in the system. `ano` is the class year the roster and the presence list
   * select by; `genero` is "M" or "F". The password is kept only as its hash.
   */
  datatype User = User(
    id: string, passwordHash: string, name: string, turma: string, ano: int, curso: string,
    genero: string)

  /** A permanent role held by a user. */
  datatype UserRole = UserRole(userId: string, role: string)

  function UserIdOf(u: User): string { u.id }
}
