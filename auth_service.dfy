/** Login: find the user by e-mail, recompute and compare the password
    hash, and only then look at the active flag. Nothing is written. */
module AuthService {
  import opened Wrappers
  import opened Models
  import opened Security
  import opened UserService

  function Authenticate(users: seq<User>, hash: Hasher, email: string, password: string): (r: Outcome<User>)
    ensures r.Ok? ==> r.value in users && r.value.email == email && r.value.isActive
    ensures r.Ok? ==> r.value.passwordHash == hash(password)
    ensures !EmailTaken(users, email) ==> r == Err(InvalidCredentials)
    ensures r.Err? ==> r.error == InvalidCredentials || r.error == AccountDeactivated
    ensures r == Err(AccountDeactivated) ==>
      exists u :: u in users && u.email == email && u.passwordHash == hash(password) && !u.isActive
  {
    match FindByEmail(users, email)
    case None => Err(InvalidCredentials)
    case Some(u) =>
      if !VerifyPassword(hash, password, u.passwordHash) then Err(InvalidCredentials)
      else if !u.isActive then Err(AccountDeactivated)
      else Ok(u)
  }

  /** For the account with this e-mail: a wrong password is refused with the
      same error as an unknown e-mail, whatever the active flag; the right
      password on an inactive account is refused as deactivated; the right
      password on an active account returns the stored user. */
  lemma AuthenticateKnownUser(users: seq<User>, hash: Hasher, password: string, i: nat)
    requires EmailsUnique(users) && i < |users|
    ensures Authenticate(users, hash, users[i].email, password) ==
      if users[i].passwordHash != hash(password) then Err(InvalidCredentials)
      else if !users[i].isActive then Err(AccountDeactivated)
      else Ok(users[i])
  {
    FindByEmailUnique(users, i);
  }

  /** A user just added with the hash of `password` and the active flag set
      can log in with `password`, and gets exactly that user back. */
  lemma LoginAfterRegister(users: seq<User>, hash: Hasher, u: User, password: string)
    requires EmailsUnique(users + [u])
    requires u.passwordHash == HashPassword(hash, password) && u.isActive
    ensures Authenticate(users + [u], hash, u.email, password) == Ok(u)
  {
    AuthenticateKnownUser(users + [u], hash, password, |users|);
  }
}
