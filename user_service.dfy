/** The identity component: user lookups by e-mail and by id, the profile
    endpoint, the list of a mentor's active mentees, and the registration
    decision (`NewUser`, with `Account` and `MentorEmailGiven`). The store
    in `Backend` only commits the row that `NewUser` decides. */
module UserService {
  import opened Wrappers
  import opened Seqs
  import opened Models
  import opened Security

  /** The first user with exactly this e-mail (case-sensitive). */
  function FindByEmail(users: seq<User>, email: string): (r: Option<User>)
    ensures r.Some? ==> r.value in users && r.value.email == email
    ensures r.None? <==> !EmailTaken(users, email)
  {
    Find(users, (u: User) => u.email == email)
  }

  /** The first user with this id. */
  function FindById(users: seq<User>, id: int): (r: Option<User>)
    ensures r.Some? ==> r.value in users && r.value.id == id
    ensures r.None? <==> !HasUser(users, id)
  {
    Find(users, (u: User) => u.id == id)
  }

  /** With unique e-mails, looking up a user's e-mail finds that very user. */
  lemma FindByEmailUnique(users: seq<User>, i: nat)
    requires EmailsUnique(users) && i < |users|
    ensures FindByEmail(users, users[i].email) == Some(users[i])
  {
    assert users[i] in users;
    var v := FindByEmail(users, users[i].email).value;
    var j :| 0 <= j < |users| && users[j] == v;
    assert !(i < j) && !(j < i);
  }

  /** With increasing ids, looking up a user's id finds that very user. */
  lemma FindByIdUnique(users: seq<User>, i: nat)
    requires UserIdsIncreasing(users) && i < |users|
    ensures FindById(users, users[i].id) == Some(users[i])
  {
    assert users[i] in users;
    var v := FindById(users, users[i].id).value;
    var j :| 0 <= j < |users| && users[j] == v;
    assert !(i < j) && !(j < i);
  }

  /** With unique e-mails, every user with this e-mail is the one the lookup finds. */
  lemma FindByEmailOwner(users: seq<User>, email: string)
    requires EmailsUnique(users)
    ensures forall u :: u in users && u.email == email ==> FindByEmail(users, email) == Some(u)
  {
    forall u | u in users && u.email == email ensures FindByEmail(users, email) == Some(u) {
      var i :| 0 <= i < |users| && users[i] == u;
      FindByEmailUnique(users, i);
    }
  }

  /** The profile endpoint: the response shape of the user with this id,
      or "User not found". */
  function GetUser(users: seq<User>, id: int): (r: Outcome<Profile>)
    ensures r.Ok? ==> r.value.id == id && exists u :: u in users && u.id == id && r.value == ProfileOf(u)
    ensures r.Err? <==> !HasUser(users, id)
    ensures r.Err? ==> r.error == NotFound(UserKind)
  {
    match FindById(users, id)
    case None => Err(NotFound(UserKind))
    case Some(u) => Ok(ProfileOf(u))
  }

  /** The first user with this id whose role is mentor. */
  function FindMentor(users: seq<User>, id: int): (r: Option<User>)
    ensures r.Some? ==> r.value in users && r.value.id == id && r.value.role == Mentor
    ensures r.None? <==> !HasMentor(users, id)
  {
    Find(users, (u: User) => u.id == id && u.role == Mentor)
  }

  /** The mentees of a mentor: fails with "Mentor not found" unless the id
      belongs to a mentor-role user; otherwise exactly the active users
      that link to it, each as often as it is stored, in table order. */
  function GetMentees(users: seq<User>, mentorId: int): (r: Outcome<seq<User>>)
    ensures r.Err? <==> !HasMentor(users, mentorId)
    ensures r.Err? ==> r.error == NotFound(MentorKind)
    ensures r.Ok? ==> forall u :: u in r.value <==> u in users && u.mentorId == Some(mentorId) && u.isActive
    ensures r.Ok? ==> forall u :: multiset(r.value)[u] ==
                                  if u.mentorId == Some(mentorId) && u.isActive then multiset(users)[u] else 0
  {
    if FindMentor(users, mentorId).None? then Err(NotFound(MentorKind))
    else Ok(Filter(users, (u: User) => u.mentorId == Some(mentorId) && u.isActive))
  }

  /** Under the store's rules, every listed mentee really is a mentee. */
  lemma MenteesAreMentees(users: seq<User>, mentorId: int)
    requires MentorLinks(users) && GetMentees(users, mentorId).Ok?
    ensures forall u :: u in GetMentees(users, mentorId).value ==> u.role == Mentee
  {
    forall u | u in GetMentees(users, mentorId).value ensures u.role == Mentee {
      assert Linked(users, u);
    }
  }

  /** A registration names a mentor only with a non-empty mentor e-mail:
      the request field is tested for truthiness. */
  predicate MentorEmailGiven(mentorEmail: Option<string>)
  {
    mentorEmail.Some? && mentorEmail.value != ""
  }

  /** The row a successful registration stores: the request's fields, the
      hashed password, the given role and mentor link, and the active flag. */
  function Account(id: int, hash: Hasher, reg: Registration, role: Role, mentorId: Option<int>): (u: User)
    ensures u.id == id && u.email == reg.email && u.role == role && u.mentorId == mentorId && u.isActive
    ensures VerifyPassword(hash, reg.password, u.passwordHash)
  {
    User(id, reg.name, reg.email, HashPassword(hash, reg.password), role, mentorId,
         reg.teamName, reg.currentPosition, reg.officeLocation, true)
  }

  /** Registration against the users table, with `id` the next primary key.
      The checks run in this order: e-mail already used, then (only when a
      mentor e-mail is given) mentor e-mail unknown, then that user not a
      mentor. Without a mentor e-mail the new user is a mentor with no link;
      with one, a mentee linked to that mentor. */
  function NewUser(users: seq<User>, hash: Hasher, id: int, reg: Registration): (r: Outcome<User>)
    requires EmailsUnique(users)
    ensures EmailTaken(users, reg.email) ==> r == Err(EmailAlreadyRegistered)
    ensures !EmailTaken(users, reg.email) && MentorEmailGiven(reg.mentorEmail) &&
            !EmailTaken(users, reg.mentorEmail.value)
            ==> r == Err(MentorEmailNotFound)
    ensures !EmailTaken(users, reg.email) && MentorEmailGiven(reg.mentorEmail) &&
            (exists m :: m in users && m.email == reg.mentorEmail.value && m.role != Mentor)
            ==> r == Err(NotAMentor)
    ensures r.Ok? <==> !EmailTaken(users, reg.email) &&
                       (MentorEmailGiven(reg.mentorEmail) ==>
                          exists m :: m in users && m.email == reg.mentorEmail.value && m.role == Mentor)
    ensures r.Ok? ==> && r.value.id == id && r.value.name == reg.name && r.value.email == reg.email
                      && r.value.passwordHash == HashPassword(hash, reg.password)
                      && r.value.teamName == reg.teamName && r.value.currentPosition == reg.currentPosition
                      && r.value.officeLocation == reg.officeLocation && r.value.isActive
    ensures r.Ok? && !MentorEmailGiven(reg.mentorEmail) ==> r.value.role == Mentor && r.value.mentorId == None
    ensures r.Ok? && MentorEmailGiven(reg.mentorEmail) ==>
              r.value.role == Mentee &&
              exists m :: m in users && m.email == reg.mentorEmail.value && m.role == Mentor &&
                          r.value.mentorId == Some(m.id)
    ensures r.Ok? ==> Linked(users, r.value)
  {
    if FindByEmail(users, reg.email).Some? then Err(EmailAlreadyRegistered)
    else if !MentorEmailGiven(reg.mentorEmail) then Ok(Account(id, hash, reg, Mentor, None))
    else
      FindByEmailOwner(users, reg.mentorEmail.value);
      match FindByEmail(users, reg.mentorEmail.value)
      case None => Err(MentorEmailNotFound)
      case Some(m) =>
        if m.role != Mentor then Err(NotAMentor)
        else Ok(Account(id, hash, reg, Mentee, Some(m.id)))
  }

  /** A registration that succeeds keeps the store's invariant once its
      account is appended under the next key. */
  lemma NewUserKeepsInvariant(users: seq<User>, reports: seq<Report>, nextUserId: int, nextReportId: int,
                              hash: Hasher, reg: Registration)
    requires StoreInvariant(users, reports, nextUserId, nextReportId)
    ensures var r := NewUser(users, hash, nextUserId, reg);
            r.Ok? ==> StoreInvariant(users + [r.value], reports, nextUserId + 1, nextReportId)
  {
    var r := NewUser(users, hash, nextUserId, reg);
    if r.Ok? {
      AddUserKeepsInvariant(users, reports, nextUserId, nextReportId, r.value);
    }
  }
}
