/** The two tables of the back end (users and weekly reports), the request
    and response records around them, the errors, and the integrity rules
    the store keeps: unique keys, unique e-mail, one report per mentee per
    week and year, and every mentor link pointing at a mentor. */
module Models {
  import opened Wrappers
  import opened Seqs

  /** The `user_type` column: "mentor" or "mentee". */
  datatype Role = Mentor | Mentee

  /** A row of the users table. `mentorId` is the nullable self-reference. */
  datatype User = User(
    id: int,
    name: string,
    email: string,
    passwordHash: string,
    role: Role,
    mentorId: Option<int>,
    teamName: string,
    currentPosition: string,
    officeLocation: string,
    isActive: bool)

  /** A row of the weekly-reports table; `submissionDate` is set by the store. */
  datatype Report = Report(
    id: int,
    menteeId: int,
    mentorId: int,
    weekNumber: int,
    year: int,
    accomplishments: string,
    blockers: string,
    aspirations: string,
    submissionDate: int)

  /** The registration request body. */
  datatype Registration = Registration(
    name: string,
    email: string,
    password: string,
    teamName: string,
    currentPosition: string,
    officeLocation: string,
    mentorEmail: Option<string>)

  /** The five fields a caller supplies when creating or updating a report. */
  datatype ReportInput = ReportInput(
    weekNumber: int,
    year: int,
    accomplishments: string,
    blockers: string,
    aspirations: string)

  /** A report as returned to callers: the stored row and the name of its mentee. */
  datatype ReportView = ReportView(report: Report, menteeName: string)

  /** A user as returned to callers, the `UserResponse` fields: every column
      except the password hash, the active flag and the timestamps. */
  datatype Profile = Profile(
    id: int,
    name: string,
    email: string,
    role: Role,
    teamName: string,
    currentPosition: string,
    officeLocation: string,
    mentorId: Option<int>)

  /** What was not found, for the "... not found" errors. */
  datatype Kind = UserKind | MentorKind | MenteeKind | ReportKind

  datatype Error =
    | EmailAlreadyRegistered          // "Email already registered"
    | MentorEmailNotFound             // "Mentor email not found"
    | NotAMentor                      // "Specified user is not a mentor"
    | InvalidCredentials              // "Invalid email or password"
    | AccountDeactivated              // "Account is deactivated"
    | NotFound(kind: Kind)            // "User/Mentor/Mentee/Report not found"
    | DuplicateWeek(weekNumber: int, year: int)  // "Report already exists for week W, Y"
    | IntegrityError                  // the store's unique constraint refused a commit

  type Outcome<T> = Result<T, Error>

  function ProfileOf(u: User): Profile
  {
    Profile(u.id, u.name, u.email, u.role, u.teamName, u.currentPosition, u.officeLocation, u.mentorId)
  }

  /** The user response reveals nothing of the password hash or the active
      flag: two rows that differ only there look the same to callers. */
  lemma ProfileHidesSecrets(u: User, passwordHash: string, isActive: bool)
    ensures ProfileOf(u.(passwordHash := passwordHash, isActive := isActive)) == ProfileOf(u)
  {
  }

  /** The five caller-supplied fields of a stored report. */
  function InputOf(r: Report): ReportInput
  {
    ReportInput(r.weekNumber, r.year, r.accomplishments, r.blockers, r.aspirations)
  }

  /** Two reports that the unique (mentee, week, year) constraint forbids together. */
  predicate SameWeek(a: Report, b: Report)
  {
    a.menteeId == b.menteeId && a.weekNumber == b.weekNumber && a.year == b.year
  }

  // ---- facts about the tables, used in contracts --------------------------

  ghost predicate EmailTaken(users: seq<User>, email: string)
  {
    exists u :: u in users && u.email == email
  }

  ghost predicate HasUser(users: seq<User>, id: int)
  {
    exists u :: u in users && u.id == id
  }

  ghost predicate HasMentor(users: seq<User>, id: int)
  {
    exists u :: u in users && u.id == id && u.role == Mentor
  }

  ghost predicate HasMentee(users: seq<User>, id: int)
  {
    exists u :: u in users && u.id == id && u.role == Mentee
  }

  ghost predicate HasReport(reports: seq<Report>, id: int)
  {
    exists x :: x in reports && x.id == id
  }

  ghost predicate WeekTaken(reports: seq<Report>, menteeId: int, weekNumber: int, year: int)
  {
    exists x :: x in reports && x.menteeId == menteeId && x.weekNumber == weekNumber && x.year == year
  }

  // ---- the store's integrity rules ----------------------------------------

  /** Primary keys in insertion order, so no two users share an id. */
  ghost predicate UserIdsIncreasing(users: seq<User>)
  {
    forall i, j :: 0 <= i < j < |users| ==> users[i].id < users[j].id
  }

  ghost predicate UserIdsBelow(users: seq<User>, next: int)
  {
    forall u :: u in users ==> u.id < next
  }

  /** The unique index on the e-mail column. */
  ghost predicate EmailsUnique(users: seq<User>)
  {
    forall i, j :: 0 <= i < j < |users| ==> users[i].email != users[j].email
  }

  /** A mentor has no mentor link; a mentee's link names a mentor-role user. */
  ghost predicate Linked(users: seq<User>, u: User)
  {
    match u.role
    case Mentor => u.mentorId.None?
    case Mentee => u.mentorId.Some? && HasMentor(users, u.mentorId.value)
  }

  ghost predicate MentorLinks(users: seq<User>)
  {
    forall u :: u in users ==> Linked(users, u)
  }

  ghost predicate ReportIdsIncreasing(reports: seq<Report>)
  {
    forall i, j :: 0 <= i < j < |reports| ==> reports[i].id < reports[j].id
  }

  ghost predicate ReportIdsBelow(reports: seq<Report>, next: int)
  {
    forall x :: x in reports ==> x.id < next
  }

  /** The unique (mentee_id, week_number, year) constraint. */
  ghost predicate WeeksUnique(reports: seq<Report>)
  {
    forall i, j :: 0 <= i < j < |reports| ==> !SameWeek(reports[i], reports[j])
  }

  /** A report names an existing mentee, and the mentor it carries is that mentee's mentor. */
  ghost predicate FiledByMentee(users: seq<User>, x: Report)
  {
    exists u :: u in users && u.id == x.menteeId && u.role == Mentee && u.mentorId == Some(x.mentorId)
  }

  ghost predicate ReportLinks(users: seq<User>, reports: seq<Report>)
  {
    forall x :: x in reports ==> FiledByMentee(users, x)
  }

  /** The key SQLite gives a new row of a plain integer primary key (no
      AUTOINCREMENT): one more than the largest key in the table, or 1 when
      the table is empty. With keys in increasing order the largest is the
      last one (`NextUserKeyIsMaxPlusOne`). */
  function NextUserKey(users: seq<User>): int
  {
    if users == [] then 1 else users[|users| - 1].id + 1
  }

  /** The key SQLite gives a new weekly report, as for users. A key freed by
      deleting the newest report is handed out again. */
  function NextReportKey(reports: seq<Report>): int
  {
    if reports == [] then 1 else reports[|reports| - 1].id + 1
  }

  /** With increasing keys, the next user key is above every key and one
      more than the largest. */
  lemma NextUserKeyIsMaxPlusOne(users: seq<User>)
    requires UserIdsIncreasing(users)
    ensures UserIdsBelow(users, NextUserKey(users))
    ensures users == [] ==> NextUserKey(users) == 1
    ensures users != [] ==> exists u :: u in users && u.id == NextUserKey(users) - 1
  {
    if users != [] {
      var last := users[|users| - 1];
      assert last in users;
      forall u | u in users ensures u.id < NextUserKey(users) {
        var k :| 0 <= k < |users| && users[k] == u;
        if k < |users| - 1 { assert users[k].id < last.id; }
      }
    }
  }

  /** With increasing keys, the next report key is above every key and one
      more than the largest. */
  lemma NextReportKeyIsMaxPlusOne(reports: seq<Report>)
    requires ReportIdsIncreasing(reports)
    ensures ReportIdsBelow(reports, NextReportKey(reports))
    ensures reports == [] ==> NextReportKey(reports) == 1
    ensures reports != [] ==> exists x :: x in reports && x.id == NextReportKey(reports) - 1
  {
    if reports != [] {
      var last := reports[|reports| - 1];
      assert last in reports;
      forall x | x in reports ensures x.id < NextReportKey(reports) {
        var k :| 0 <= k < |reports| && reports[k] == x;
        if k < |reports| - 1 { assert reports[k].id < last.id; }
      }
    }
  }

  ghost predicate StoreInvariant(users: seq<User>, reports: seq<Report>, nextUserId: int, nextReportId: int)
  {
    && UserIdsIncreasing(users) && UserIdsBelow(users, nextUserId) && nextUserId == NextUserKey(users)
    && EmailsUnique(users) && MentorLinks(users)
    && ReportIdsIncreasing(reports) && ReportIdsBelow(reports, nextReportId) && nextReportId == NextReportKey(reports)
    && WeeksUnique(reports) && ReportLinks(users, reports)
  }

  // ---- each kind of write keeps the rules ---------------------------------

  /** Inserting a user with a fresh id, an unused e-mail and a valid link. */
  lemma AddUserKeepsInvariant(users: seq<User>, reports: seq<Report>, nextUserId: int, nextReportId: int, u: User)
    requires StoreInvariant(users, reports, nextUserId, nextReportId)
    requires u.id == nextUserId && !EmailTaken(users, u.email) && Linked(users, u)
    ensures StoreInvariant(users + [u], reports, nextUserId + 1, nextReportId)
  {
    var users' := users + [u];
    forall v | v in users' ensures Linked(users', v) {
      assert Linked(users, v);
      if v.role == Mentee {
        var m :| m in users && m.id == v.mentorId.value && m.role == Mentor;
        assert m in users';
      }
    }
    forall x | x in reports ensures FiledByMentee(users', x) {
      var m :| m in users && m.id == x.menteeId && m.role == Mentee && m.mentorId == Some(x.mentorId);
      assert m in users';
    }
    forall i, j | 0 <= i < j < |users'| ensures users'[i].email != users'[j].email {
      if j == |users| { assert users'[i] in users; }
    }
    forall i, j | 0 <= i < j < |users'| ensures users'[i].id < users'[j].id {
      if j == |users| { assert users'[i] in users; }
    }
  }

  /** Inserting a report with a fresh id, a free week and a mentee link. */
  lemma AddReportKeepsInvariant(users: seq<User>, reports: seq<Report>, nextUserId: int, nextReportId: int, x: Report)
    requires StoreInvariant(users, reports, nextUserId, nextReportId)
    requires x.id == nextReportId && !WeekTaken(reports, x.menteeId, x.weekNumber, x.year)
    requires FiledByMentee(users, x)
    ensures StoreInvariant(users, reports + [x], nextUserId, nextReportId + 1)
  {
    var reports' := reports + [x];
    forall i, j | 0 <= i < j < |reports'| ensures !SameWeek(reports'[i], reports'[j]) && reports'[i].id < reports'[j].id {
      if j == |reports| { assert reports'[i] in reports; }
    }
  }

  /** Rewriting report `i` in place, keeping its key and links and not clashing with another report. */
  lemma ReplaceReportKeepsInvariant(users: seq<User>, reports: seq<Report>, nextUserId: int, nextReportId: int, i: nat, x: Report)
    requires StoreInvariant(users, reports, nextUserId, nextReportId)
    requires i < |reports| && x.id == reports[i].id
    requires x.menteeId == reports[i].menteeId && x.mentorId == reports[i].mentorId
    requires forall j :: 0 <= j < |reports| && j != i ==> !SameWeek(reports[j], x)
    ensures StoreInvariant(users, reports[i := x], nextUserId, nextReportId)
  {
    var reports' := reports[i := x];
    assert reports[i] in reports;
    forall y | y in reports' ensures FiledByMentee(users, y) && y.id < nextReportId {
      var k :| 0 <= k < |reports'| && reports'[k] == y;
      if k != i { assert reports[k] in reports; }
    }
  }

  /** Deleting report `i`; the next key is recomputed from what is left. */
  lemma RemoveReportKeepsInvariant(users: seq<User>, reports: seq<Report>, nextUserId: int, nextReportId: int, i: nat)
    requires StoreInvariant(users, reports, nextUserId, nextReportId)
    requires i < |reports|
    ensures StoreInvariant(users, reports[..i] + reports[i + 1..], nextUserId, NextReportKey(reports[..i] + reports[i + 1..]))
  {
    var reports' := reports[..i] + reports[i + 1..];
    RemoveAt(reports, i);
    assert ReportIdsIncreasing(reports') && WeeksUnique(reports') by {
      forall a, b | 0 <= a < b < |reports'|
        ensures reports'[a].id < reports'[b].id && !SameWeek(reports'[a], reports'[b])
      {
        var a', b' := if a < i then a else a + 1, if b < i then b else b + 1;
        assert reports'[a] == reports[a'] && reports'[b] == reports[b'];
      }
    }
    NextReportKeyIsMaxPlusOne(reports');
  }
}
