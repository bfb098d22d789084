/** Concrete runs of the store, predicted from the endpoint contracts alone:
    a mentor and a mentee sign up, the mentee logs in and files a report,
    the same week is refused, the mentor sees the report under the mentee's
    name, the report is updated, moved onto a taken week, and deleted. */
module Scenarios {
  import opened Wrappers
  import opened Models
  import opened Security
  import opened UserService
  import opened AuthService
  import opened ReportService
  import opened Backend

  /** Registers mentor Alice (id 1). */
  method MentorSignsUp(hash: Hasher) returns (s: Store)
    ensures fresh(s) && s.Valid() && s.hash == hash && s.reports == [] && s.nextReportId == 1
    ensures s.nextUserId == 2 && |s.users| == 1
    ensures s.users[0].id == 1 && s.users[0].role == Mentor && s.users[0].mentorId == None
    ensures s.users[0].email == "alice@x.com" && s.users[0].name == "Alice"
  {
    s := new Store(hash);
    var alice := s.Register(Registration("Alice", "alice@x.com", "hunter2", "Eng", "Lead", "NYC", None));
    assert alice.Ok?;
  }

  /** Registers mentor Alice (id 1) and her mentee Bob (id 2). */
  method SignUp(hash: Hasher) returns (s: Store)
    ensures fresh(s) && s.Valid() && s.hash == hash && s.reports == [] && s.nextReportId == 1
    ensures s.nextUserId == 3 && |s.users| == 2
    ensures s.users[0].id == 1 && s.users[0].role == Mentor && s.users[0].mentorId == None
    ensures s.users[0].email == "alice@x.com" && s.users[0].name == "Alice"
    ensures s.users[1].id == 2 && s.users[1].role == Mentee && s.users[1].mentorId == Some(1)
    ensures s.users[1].email == "bob@x.com" && s.users[1].name == "Bob"
    ensures s.users[1].passwordHash == hash("secret") && s.users[1].isActive
  {
    s := MentorSignsUp(hash);
    assert s.users[0] in s.users;
    var bob := s.Register(Registration("Bob", "bob@x.com", "secret", "Eng", "Dev", "NYC", Some("alice@x.com")));
    assert bob.Ok?;
  }

  /** A second registration with Bob's e-mail is refused. */
  method TakenEmail(hash: Hasher)
  {
    var s := SignUp(hash);
    assert s.users[1] in s.users;
    var again := s.Register(Registration("Bob", "bob@x.com", "other", "Eng", "Dev", "NYC", None));
    assert again == Err(EmailAlreadyRegistered);
  }

  /** Naming a mentee as one's mentor is refused. */
  method MenteeAsMentor(hash: Hasher)
  {
    var s := SignUp(hash);
    assert s.users[1] in s.users;
    assert "carol@x.com"[0] != "alice@x.com"[0] && "carol@x.com"[0] != "bob@x.com"[0];
    var stray := s.Register(Registration("Carol", "carol@x.com", "pw", "Eng", "Dev", "NYC", Some("bob@x.com")));
    assert stray == Err(NotAMentor);
  }

  /** Naming an unknown mentor e-mail is refused. */
  method UnknownMentor(hash: Hasher)
  {
    var s := SignUp(hash);
    assert forall u :: u in s.users ==> u == s.users[0] || u == s.users[1];
    assert "dan@x.com"[0] != "alice@x.com"[0] && "dan@x.com"[0] != "bob@x.com"[0];
    assert "eve@x.com"[0] != "alice@x.com"[0] && "eve@x.com"[0] != "bob@x.com"[0];
    var lost := s.Register(Registration("Dan", "dan@x.com", "pw", "Eng", "Dev", "NYC", Some("eve@x.com")));
    assert lost == Err(MentorEmailNotFound);
  }

  /** Bob logs in with his password; a wrong one is refused. */
  method LogIn(hash: Hasher)
    requires hash("wrong") != hash("secret")
  {
    var s := SignUp(hash);
    AuthenticateKnownUser(s.users, hash, "secret", 1);
    assert Authenticate(s.users, hash, "bob@x.com", "secret") == Ok(s.users[1]);
    AuthenticateKnownUser(s.users, hash, "wrong", 1);
    assert Authenticate(s.users, hash, "bob@x.com", "wrong") == Err(InvalidCredentials);
  }

  /** Bob files week 10 of 2024; the report carries Alice as mentor. */
  method FileOne(hash: Hasher) returns (s: Store, x: Report)
    ensures fresh(s) && s.Valid() && s.reports == [x] && |s.users| == 2 && s.nextReportId == 2
    ensures s.users[0].id == 1 && s.users[0].role == Mentor
    ensures s.users[1].id == 2 && s.users[1].name == "Bob" && s.users[1].role == Mentee
    ensures x.id == 1 && x.menteeId == 2 && x.mentorId == 1 && x.weekNumber == 10 && x.year == 2024
  {
    s := SignUp(hash);
    assert s.users[1] in s.users;
    var created := s.CreateReport(2, ReportInput(10, 2024, "shipped", "none", "learn"), 100);
    assert created.Ok?;
    x := created.value.report;
  }

  /** The same week again is refused. */
  method SameWeekTwice(hash: Hasher)
  {
    var s, x := FileOne(hash);
    assert s.users[1] in s.users && x in s.reports;
    var twice := s.CreateReport(2, ReportInput(10, 2024, "again", "none", "learn"), 101);
    assert twice == Err(DuplicateWeek(10, 2024));
  }

  /** Alice sees the one report, under Bob's name. */
  method MentorSeesReport(hash: Hasher)
  {
    var s, x := FileOne(hash);
    assert s.users[0] in s.users;
    var byMentor := s.MentorReports(1);
    MentorRowsExact(s.users, s.reports, s.nextUserId, s.nextReportId, 1);
    var rows := MentorRows(s.users, s.reports, 1);
    assert multiset(rows) == multiset{x};
    assert |rows| == |multiset(rows)| == 1;
    assert rows[0] in multiset(rows);
    var v := byMentor.value[0];
    assert Rows(byMentor.value)[0] == v.report == x;
    assert v in byMentor.value;
    assert forall u :: u in s.users && u.id == 2 ==> u == s.users[1];
    assert v.menteeName == "Bob";
  }

  /** Bob's latest reports list the one report. */
  method Latest(hash: Hasher)
  {
    var s, x := FileOne(hash);
    assert s.users[1] in s.users;
    var latest := s.LatestReports(2);
    assert MenteeReports(s.reports, 2) == [x];
    assert |latest.value| == 1 && latest.value[0].report == x;
  }

  /** Bob files weeks 10 and 11 of 2024. */
  method FileTwo(hash: Hasher) returns (s: Store, x: Report, y: Report)
    ensures fresh(s) && s.Valid() && s.reports == [x, y]
    ensures |s.users| == 2 && s.users[1].id == 2 && s.users[1].role == Mentee
    ensures x.id == 1 && x.menteeId == 2 && x.weekNumber == 10 && x.year == 2024
    ensures y.id == 2 && y.menteeId == 2 && y.weekNumber == 11 && y.year == 2024
  {
    s, x := FileOne(hash);
    assert s.users[1] in s.users && x in s.reports;
    var second := s.CreateReport(2, ReportInput(11, 2024, "fixed", "none", "grow"), 200);
    assert second.Ok?;
    y := second.value.report;
  }

  /** Moving week 10 onto the already filed week 11 is refused by the store. */
  method Collide(hash: Hasher)
  {
    var s, x, y := FileTwo(hash);
    assert FindReportIndex([x, y], 1) == Some(0);
    assert SameWeek(y, Revise(x, ReportInput(11, 2024, "moved", "none", "learn")));
    var moved := s.UpdateReport(1, ReportInput(11, 2024, "moved", "none", "learn"));
    assert moved == Err(IntegrityError) && s.reports == [x, y];
  }

  /** Editing week 10 keeps its id; a later fetch shows the new text. */
  method Edit(hash: Hasher)
  {
    var s, x, y := FileTwo(hash);
    assert FindReportIndex([x, y], 1) == Some(0);
    var x' := Revise(x, ReportInput(10, 2024, "shipped more", "none", "learn"));
    assert !SameWeek(y, x');
    var edited := s.UpdateReport(1, ReportInput(10, 2024, "shipped more", "none", "learn"));
    assert edited.Ok? && s.reports == [x', y];
    FetchAfterReplace([x, y], 0, x');
    assert FindReport(s.reports, 1) == Some(x') && x'.accomplishments == "shipped more";
  }

  /** Deleting report 1 leaves report 2; deleting it again is "Report not found". */
  method DeleteTwice(hash: Hasher)
  {
    var s, x, y := FileTwo(hash);
    assert FindReportIndex([x, y], 1) == Some(0);
    var gone := s.DeleteReport(1);
    assert gone.Ok? && s.reports == [y];
    var again := s.DeleteReport(1);
    assert again == Err(NotFound(ReportKind));
  }

  /** Deleting the newest report frees its key: the next report filed gets
      key 2 again, as SQLite hands out the largest key plus one. */
  method ReuseKey(hash: Hasher)
  {
    var s, x, y := FileTwo(hash);
    assert FindReportIndex([x, y], 2) == Some(1);
    var gone := s.DeleteReport(2);
    assert s.reports == [x] && s.nextReportId == 2;
    assert s.users[1] in s.users;
    var third := s.CreateReport(2, ReportInput(12, 2024, "next", "none", "grow"), 300);
    assert x in s.reports;
    assert third.Ok? && third.value.report.id == 2;
  }
}
