/** The read-only side of the report component: the queries behind report
    creation, the two listings (latest two of a mentee, all of a mentor)
    with their ordering, and the field replacement an update performs.
    The writes themselves live in `Backend`. */
module ReportService {
  import opened Wrappers
  import opened Seqs
  import opened Models
  import opened UserService

  // ---- ordering -----------------------------------------------------------

  /** The two `ORDER BY ... DESC` clauses of the listings. */
  datatype Order = ByWeek | BySubmission

  /** `a` may be listed before `b`: (year, week) or submission time, descending. */
  predicate Precedes(o: Order, a: Report, b: Report)
  {
    match o
    case ByWeek => a.year > b.year || (a.year == b.year && a.weekNumber >= b.weekNumber)
    case BySubmission => a.submissionDate >= b.submissionDate
  }

  ghost predicate SortedBy(o: Order, s: seq<Report>)
  {
    forall i, j :: 0 <= i < j < |s| ==> Precedes(o, s[i], s[j])
  }

  lemma PrecedesTotal(o: Order, a: Report, b: Report)
    ensures Precedes(o, a, b) || Precedes(o, b, a)
  {
  }

  lemma PrecedesTransitive(o: Order, a: Report, b: Report, c: Report)
    requires Precedes(o, a, b) && Precedes(o, b, c)
    ensures Precedes(o, a, c)
  {
  }

  /** Putting in front an element that precedes all others keeps a list sorted. */
  lemma SortedCons(o: Order, x: Report, s: seq<Report>)
    requires SortedBy(o, s)
    requires forall y :: y in s ==> Precedes(o, x, y)
    ensures SortedBy(o, [x] + s)
  {
    forall i, j | 0 <= i < j < |[x] + s| ensures Precedes(o, ([x] + s)[i], ([x] + s)[j]) {
      assert ([x] + s)[j] == s[j - 1];
      if i > 0 { assert ([x] + s)[i] == s[i - 1]; } else { assert s[j - 1] in s; }
    }
  }

  /** An element that precedes the head of a sorted list precedes all of it. */
  lemma PrecedesHead(o: Order, x: Report, s: seq<Report>)
    requires SortedBy(o, s) && |s| > 0 && Precedes(o, x, s[0])
    ensures forall y :: y in s ==> Precedes(o, x, y)
  {
    forall y | y in s ensures Precedes(o, x, y) {
      var k :| 0 <= k < |s| && s[k] == y;
      if k > 0 { PrecedesTransitive(o, x, s[0], y); }
    }
  }

  /** When `x` goes after the head, the head precedes everything inserted behind it. */
  lemma HeadPrecedesRest(o: Order, x: Report, s: seq<Report>, rest: seq<Report>)
    requires SortedBy(o, s) && |s| > 0 && !Precedes(o, x, s[0])
    requires multiset(rest) == multiset(s[1..]) + multiset{x}
    ensures forall y :: y in rest ==> Precedes(o, s[0], y)
  {
    forall y | y in rest ensures Precedes(o, s[0], y) {
      assert y in multiset(rest);
      if y == x {
        PrecedesTotal(o, x, s[0]);
      } else {
        assert y in multiset(s[1..]);
        var k :| 0 <= k < |s[1..]| && s[1..][k] == y;
        assert s[k + 1] == y;
      }
    }
  }

  /** One step of insertion sort. */
  function Insert(o: Order, x: Report, s: seq<Report>): (r: seq<Report>)
    requires SortedBy(o, s)
    ensures SortedBy(o, r)
    ensures multiset(r) == multiset(s) + multiset{x}
    decreases |s|
  {
    if |s| == 0 then [x]
    else if Precedes(o, x, s[0]) then
      PrecedesHead(o, x, s);
      SortedCons(o, x, s);
      [x] + s
    else
      assert s == [s[0]] + s[1..];
      var rest := Insert(o, x, s[1..]);
      HeadPrecedesRest(o, x, s, rest);
      SortedCons(o, s[0], rest);
      [s[0]] + rest
  }

  /** Insertion sort: a sorted permutation of its input. */
  function Sort(o: Order, s: seq<Report>): (r: seq<Report>)
    ensures SortedBy(o, r)
    ensures multiset(r) == multiset(s)
    decreases |s|
  {
    if |s| == 0 then []
    else
      assert s == [s[0]] + s[1..];
      Insert(o, s[0], Sort(o, s[1..]))
  }

  /** Two lists that are permutations of each other have the same length and elements. */
  lemma SameElements(a: seq<Report>, b: seq<Report>)
    requires multiset(a) == multiset(b)
    ensures |a| == |b|
    ensures forall x :: x in a <==> x in b
  {
    assert |a| == |multiset(a)| && |b| == |multiset(b)|;
    forall x ensures x in a <==> x in b {
      assert x in a <==> x in multiset(a);
      assert x in b <==> x in multiset(b);
    }
  }

  /** A prefix of a sorted list is sorted. */
  lemma SortedPrefix(o: Order, s: seq<Report>, k: nat)
    requires SortedBy(o, s) && k <= |s|
    ensures SortedBy(o, s[..k])
  {
    forall i, j | 0 <= i < j < k ensures Precedes(o, s[..k][i], s[..k][j]) {
      assert s[..k][i] == s[i] && s[..k][j] == s[j];
    }
  }

  /** In a sorted list, the first `k` precede every element after them. */
  lemma PrefixPrecedesRest(o: Order, s: seq<Report>, k: nat)
    requires SortedBy(o, s) && k <= |s|
    ensures forall x, y :: x in s && x !in s[..k] && y in s[..k] ==> Precedes(o, y, x)
  {
    forall x, y | x in s && x !in s[..k] && y in s[..k] ensures Precedes(o, y, x) {
      var j :| 0 <= j < |s| && s[j] == x;
      var i :| 0 <= i < k && s[..k][i] == y;
      assert s[i] == y;
    }
  }

  // ---- latest two reports of a mentee -------------------------------------

  /** All reports filed by this mentee, in table order. */
  function MenteeReports(reports: seq<Report>, menteeId: int): (r: seq<Report>)
    ensures forall x :: x in r <==> x in reports && x.menteeId == menteeId
    ensures forall x :: multiset(r)[x] == if x.menteeId == menteeId then multiset(reports)[x] else 0
  {
    Filter(reports, (x: Report) => x.menteeId == menteeId)
  }

  /** The mentee's reports ordered by (year, week) descending, limited to two:
      never more than two, exactly two whenever the mentee has two, each one
      the mentee's, in order, and no report of the mentee left out ranks
      above one that was kept. */
  function LatestTwo(reports: seq<Report>, menteeId: int): (r: seq<Report>)
    ensures |r| == if |MenteeReports(reports, menteeId)| < 2 then |MenteeReports(reports, menteeId)| else 2
    ensures forall x :: x in r ==> x in reports && x.menteeId == menteeId
    ensures multiset(r) <= multiset(MenteeReports(reports, menteeId))
    ensures SortedBy(ByWeek, r)
    ensures forall x, y :: x in reports && x.menteeId == menteeId && x !in r && y in r ==> Precedes(ByWeek, y, x)
  {
    var mine := MenteeReports(reports, menteeId);
    var sorted := Sort(ByWeek, mine);
    SameElements(sorted, mine);
    var k := if |sorted| < 2 then |sorted| else 2;
    assert sorted == sorted[..k] + sorted[k..];
    assert multiset(sorted) == multiset(sorted[..k]) + multiset(sorted[k..]);
    SortedPrefix(ByWeek, sorted, k);
    PrefixPrecedesRest(ByWeek, sorted, k);
    sorted[..k]
  }

  /** The stored rows of a listing, without the names. */
  function Rows(views: seq<ReportView>): seq<Report>
  {
    seq(|views|, k requires 0 <= k < |views| => views[k].report)
  }

  /** Every view of a listing shows one of its rows. */
  lemma RowsCover(views: seq<ReportView>)
    ensures forall v :: v in views ==> v.report in Rows(views)
  {
    forall v | v in views ensures v.report in Rows(views) {
      var k :| 0 <= k < |views| && views[k] == v;
      assert Rows(views)[k] == v.report;
    }
  }

  /** Each row labelled with one name: the rows are kept, in order, and every
      view carries that name. */
  function Label(rows: seq<Report>, name: string): (r: seq<ReportView>)
    ensures Rows(r) == rows
    ensures forall v :: v in r ==> v.menteeName == name
  {
    var r := seq(|rows|, k requires 0 <= k < |rows| => ReportView(rows[k], name));
    assert Rows(r) == rows;
    r
  }

  /** Latest reports: "Mentee not found" when no user at all has this id
      (any role is accepted); otherwise the latest two rows, each labelled
      with that user's name. */
  function LatestReports(users: seq<User>, reports: seq<Report>, menteeId: int): (r: Outcome<seq<ReportView>>)
    ensures r.Err? <==> !HasUser(users, menteeId)
    ensures r.Err? ==> r.error == NotFound(MenteeKind)
    ensures r.Ok? ==> Rows(r.value) == LatestTwo(reports, menteeId) && |r.value| <= 2
    ensures r.Ok? ==> exists u :: u in users && u.id == menteeId &&
                                  forall v :: v in r.value ==> v.menteeName == u.name
  {
    match FindById(users, menteeId)
    case None => Err(NotFound(MenteeKind))
    case Some(u) => Ok(Label(LatestTwo(reports, menteeId), u.name))
  }

  // ---- all reports of a mentor --------------------------------------------

  /** Inner-join filter: the report carries this mentor and its mentee row exists. */
  predicate ForMentor(users: seq<User>, mentorId: int, x: Report): (b: bool)
    ensures b <==> x.mentorId == mentorId && HasUser(users, x.menteeId)
  {
    x.mentorId == mentorId && FindById(users, x.menteeId).Some?
  }

  /** The rows of a mentor's listing: exactly the reports that carry this
      mentor id (and join with a mentee), newest submission first. */
  function MentorRows(users: seq<User>, reports: seq<Report>, mentorId: int): (r: seq<Report>)
    ensures SortedBy(BySubmission, r)
    ensures forall x :: multiset(r)[x] == if ForMentor(users, mentorId, x) then multiset(reports)[x] else 0
    ensures forall x :: x in r <==> x in reports && ForMentor(users, mentorId, x)
  {
    var rows := Sort(BySubmission, Filter(reports, (x: Report) => ForMentor(users, mentorId, x)));
    assert forall x :: x in rows <==> x in multiset(rows);
    rows
  }

  /** The name a joined row is labelled with. */
  function MenteeName(users: seq<User>, x: Report): (name: string)
    requires FindById(users, x.menteeId).Some?
    ensures exists u :: u in users && u.id == x.menteeId && u.name == name
  {
    FindById(users, x.menteeId).value.name
  }

  /** Each row labelled with the name of its own mentee: the rows are kept,
      in order, and every view names a user with the view's mentee id. */
  function Enrich(users: seq<User>, rows: seq<Report>): (r: seq<ReportView>)
    requires forall k :: 0 <= k < |rows| ==> FindById(users, rows[k].menteeId).Some?
    ensures Rows(r) == rows
    ensures forall v :: v in r ==> exists u :: u in users && u.id == v.report.menteeId && u.name == v.menteeName
  {
    var r := seq(|rows|, k requires 0 <= k < |rows| => ReportView(rows[k], MenteeName(users, rows[k])));
    assert Rows(r) == rows;
    r
  }

  /** Mentor reports: "Mentor not found" unless the id is a mentor-role
      user; otherwise the mentor's rows, each labelled with its own
      mentee's name. */
  function MentorReports(users: seq<User>, reports: seq<Report>, mentorId: int): (r: Outcome<seq<ReportView>>)
    ensures r.Err? <==> !HasMentor(users, mentorId)
    ensures r.Err? ==> r.error == NotFound(MentorKind)
    ensures r.Ok? ==> Rows(r.value) == MentorRows(users, reports, mentorId)
    ensures r.Ok? ==> forall v :: v in r.value ==>
                        v.report.mentorId == mentorId &&
                        exists u :: u in users && u.id == v.report.menteeId && u.name == v.menteeName
  {
    if FindMentor(users, mentorId).None? then Err(NotFound(MentorKind))
    else
      var rows := MentorRows(users, reports, mentorId);
      assert forall k :: 0 <= k < |rows| ==> FindById(users, rows[k].menteeId).Some? by {
        forall k | 0 <= k < |rows| ensures FindById(users, rows[k].menteeId).Some? {
          assert rows[k] in rows;
        }
      }
      var views := Enrich(users, rows);
      RowsCover(views);
      Ok(views)
  }

  /** In a consistent store the join drops nothing: a mentor's rows are
      exactly the reports whose stored mentor id is that mentor. */
  lemma MentorRowsExact(users: seq<User>, reports: seq<Report>, nextUserId: int, nextReportId: int, mentorId: int)
    requires StoreInvariant(users, reports, nextUserId, nextReportId)
    ensures forall x :: multiset(MentorRows(users, reports, mentorId))[x] ==
                        if x.mentorId == mentorId then multiset(reports)[x] else 0
  {
    forall x | x in reports ensures FindById(users, x.menteeId).Some? {
      assert FiledByMentee(users, x);
    }
    forall x ensures multiset(MentorRows(users, reports, mentorId))[x] ==
                     if x.mentorId == mentorId then multiset(reports)[x] else 0 {
      if x !in reports { assert multiset(reports)[x] == 0; }
    }
  }

  /** In a consistent store a mentor's rows are the reports of the mentees
      that link to that mentor. */
  lemma MentorRowsAreMenteesReports(users: seq<User>, reports: seq<Report>, nextUserId: int, nextReportId: int, mentorId: int)
    requires StoreInvariant(users, reports, nextUserId, nextReportId)
    ensures forall x :: x in MentorRows(users, reports, mentorId) ==>
                        exists u :: u in users && u.id == x.menteeId && u.role == Mentee && u.mentorId == Some(mentorId)
  {
    forall x | x in MentorRows(users, reports, mentorId)
      ensures exists u :: u in users && u.id == x.menteeId && u.role == Mentee && u.mentorId == Some(mentorId)
    {
      assert FiledByMentee(users, x);
    }
  }

  // ---- the queries behind create, update and delete -----------------------

  /** The first user with this id whose role is mentee. */
  function FindMentee(users: seq<User>, id: int): (r: Option<User>)
    ensures r.Some? ==> r.value in users && r.value.id == id && r.value.role == Mentee
    ensures r.None? <==> !HasMentee(users, id)
  {
    Find(users, (u: User) => u.id == id && u.role == Mentee)
  }

  /** An existing report of this mentee for this week and year. */
  function FindWeek(reports: seq<Report>, menteeId: int, weekNumber: int, year: int): (r: Option<Report>)
    ensures r.Some? ==> && r.value in reports && r.value.menteeId == menteeId
                        && r.value.weekNumber == weekNumber && r.value.year == year
    ensures r.None? <==> !WeekTaken(reports, menteeId, weekNumber, year)
  {
    Find(reports, (x: Report) => x.menteeId == menteeId && x.weekNumber == weekNumber && x.year == year)
  }

  /** Position of the report with this id. */
  function FindReportIndex(reports: seq<Report>, id: int): (r: Option<nat>)
    ensures r.Some? ==> r.value < |reports| && reports[r.value].id == id
    ensures r.None? <==> !HasReport(reports, id)
  {
    FindIndex(reports, (x: Report) => x.id == id)
  }

  /** The report with this id. */
  function FindReport(reports: seq<Report>, id: int): (r: Option<Report>)
    ensures r.Some? ==> r.value in reports && r.value.id == id
    ensures r.None? <==> !HasReport(reports, id)
  {
    Find(reports, (x: Report) => x.id == id)
  }

  /** Report creation against the two tables, with `id` the next primary key
      and `now` the store's clock: "Mentee not found" unless the id is a
      mentee-role user, then the duplicate-week check; otherwise the new row,
      carrying the mentee's mentor, labelled with the mentee's name. A mentee
      row without a mentor link would fail the NOT NULL mentor column at
      commit. */
  function NewReport(users: seq<User>, reports: seq<Report>, id: int, menteeId: int,
                     input: ReportInput, now: int): (r: Outcome<ReportView>)
    ensures !HasMentee(users, menteeId) ==> r == Err(NotFound(MenteeKind))
    ensures HasMentee(users, menteeId) && WeekTaken(reports, menteeId, input.weekNumber, input.year)
            ==> r == Err(DuplicateWeek(input.weekNumber, input.year))
    ensures MentorLinks(users) ==>
              (r.Ok? <==> HasMentee(users, menteeId) && !WeekTaken(reports, menteeId, input.weekNumber, input.year))
    ensures r.Ok? ==> && r.value.report.id == id && r.value.report.menteeId == menteeId
                      && InputOf(r.value.report) == input && r.value.report.submissionDate == now
    ensures r.Ok? ==> exists m :: m in users && m.id == menteeId && m.role == Mentee &&
                                  m.mentorId == Some(r.value.report.mentorId) && m.name == r.value.menteeName
  {
    match FindMentee(users, menteeId)
    case None => Err(NotFound(MenteeKind))
    case Some(m) =>
      if FindWeek(reports, menteeId, input.weekNumber, input.year).Some? then
        Err(DuplicateWeek(input.weekNumber, input.year))
      else if m.mentorId.None? then
        assert !MentorLinks(users) by { assert !Linked(users, m); }
        Err(IntegrityError)
      else
        Ok(ReportView(Report(id, menteeId, m.mentorId.value, input.weekNumber, input.year,
                             input.accomplishments, input.blockers, input.aspirations, now), m.name))
  }

  /** Full replacement of the five caller-supplied fields; the id, both
      user links and the submission time are kept. */
  function Revise(x: Report, input: ReportInput): (r: Report)
    ensures InputOf(r) == input
    ensures r.id == x.id && r.menteeId == x.menteeId && r.mentorId == x.mentorId
    ensures r.submissionDate == x.submissionDate
  {
    x.(weekNumber := input.weekNumber, year := input.year,
       accomplishments := input.accomplishments, blockers := input.blockers,
       aspirations := input.aspirations)
  }

  /** After report `i` is rewritten in place, fetching its id yields the new row. */
  lemma FetchAfterReplace(reports: seq<Report>, i: nat, x: Report)
    requires ReportIdsIncreasing(reports) && i < |reports| && x.id == reports[i].id
    ensures FindReport(reports[i := x], x.id) == Some(x)
    ensures forall j :: 0 <= j < |reports| && j != i ==> reports[i := x][j] == reports[j]
  {
    var reports' := reports[i := x];
    assert reports'[i] == x;
    var v := FindReport(reports', x.id).value;
    var j :| 0 <= j < |reports'| && reports'[j] == v;
  }

  /** Removing position `i` takes out that one row and keeps every other. */
  lemma RemoveOne(reports: seq<Report>, i: nat)
    requires i < |reports|
    ensures multiset(reports[..i] + reports[i + 1..]) == multiset(reports) - multiset{reports[i]}
  {
    assert reports == reports[..i] + [reports[i]] + reports[i + 1..];
  }

  /** Removing position `i` removes exactly the report with that id: every
      other report stays, and no report with that id is left. */
  lemma RemoveExactly(reports: seq<Report>, i: nat)
    requires ReportIdsIncreasing(reports) && i < |reports|
    ensures forall x :: x in reports[..i] + reports[i + 1..] <==> x in reports && x.id != reports[i].id
  {
    var before, after := reports[..i], reports[i + 1..];
    forall x | x in before + after ensures x in reports && x.id != reports[i].id {
      if x in before {
        var k :| 0 <= k < i && before[k] == x;
        assert reports[k] == x;
      } else {
        var k :| 0 <= k < |after| && after[k] == x;
        assert reports[i + 1 + k] == x;
      }
    }
    forall x | x in reports && x.id != reports[i].id ensures x in before + after {
      var k :| 0 <= k < |reports| && reports[k] == x;
      if k < i { assert before[k] == x; } else { assert after[k - i - 1] == x; }
    }
  }
}
