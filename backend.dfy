/** The store the endpoints work on: the two tables, the next key of
    each (the largest key plus one, recomputed after a delete) and the
    password hash, with one method per endpoint that writes (register,
    create, update, delete a report) and one per endpoint that builds its
    response in a loop (latest reports, mentor reports). Every write checks
    first and changes the tables only when it succeeds. */
module Backend {
  import opened Wrappers
  import opened Seqs
  import opened Models
  import opened Security
  import opened UserService
  import opened ReportService

  class Store {
    const hash: Hasher
    var users: seq<User>
    var reports: seq<Report>
    var nextUserId: int
    var nextReportId: int

    ghost predicate Valid()
      reads this
    {
      StoreInvariant(users, reports, nextUserId, nextReportId)
    }

    /** Empty tables; ids start at 1. */
    constructor (hash: Hasher)
      ensures Valid() && this.hash == hash
      ensures users == [] && reports == [] && nextUserId == 1 && nextReportId == 1
    {
      this.hash := hash;
      users, reports := [], [];
      nextUserId, nextReportId := 1, 1;
    }

    /** Registration: the outcome `NewUser` decides, committed on success
        as one new row with the next id. */
    method Register(reg: Registration) returns (r: Outcome<User>)
      requires Valid()
      modifies this
      ensures Valid()
      ensures r == NewUser(old(users), hash, old(nextUserId), reg)
      ensures reports == old(reports) && nextReportId == old(nextReportId)
      ensures r.Err? ==> users == old(users) && nextUserId == old(nextUserId)
      ensures r.Ok? ==> users == old(users) + [r.value] && nextUserId == old(nextUserId) + 1
    {
      NewUserKeepsInvariant(users, reports, nextUserId, nextReportId, hash, reg);
      r := NewUser(users, hash, nextUserId, reg);
      if r.Ok? {
        users := users + [r.value];
        nextUserId := nextUserId + 1;
      }
    }

    /** Report creation: the outcome `NewReport` decides with the store's
        clock `now`, committed on success as one new row with the next id. */
    method CreateReport(menteeId: int, input: ReportInput, now: int) returns (r: Outcome<ReportView>)
      requires Valid()
      modifies this
      ensures Valid()
      ensures r == NewReport(old(users), old(reports), old(nextReportId), menteeId, input, now)
      ensures r != Err(IntegrityError)
      ensures users == old(users) && nextUserId == old(nextUserId)
      ensures r.Err? ==> reports == old(reports) && nextReportId == old(nextReportId)
      ensures r.Ok? ==> reports == old(reports) + [r.value.report] && nextReportId == old(nextReportId) + 1
    {
      r := NewReport(users, reports, nextReportId, menteeId, input, now);
      if r.Ok? {
        AddReportKeepsInvariant(users, reports, nextUserId, nextReportId, r.value.report);
        reports := reports + [r.value.report];
        nextReportId := nextReportId + 1;
      }
    }

    /** The latest-reports endpoint, building its response row by row. */
    method LatestReports(menteeId: int) returns (r: Outcome<seq<ReportView>>)
      ensures r == ReportService.LatestReports(users, reports, menteeId)
    {
      var mentee := FindById(users, menteeId);
      if mentee.None? {
        return Err(NotFound(MenteeKind));
      }
      var rows := LatestTwo(reports, menteeId);
      ghost var labelled := Label(rows, mentee.value.name);
      assert |labelled| == |Rows(labelled)| == |rows|;
      var views: seq<ReportView> := [];
      for i := 0 to |rows|
        invariant views == labelled[..i]
      {
        assert labelled[i].report == Rows(labelled)[i] && labelled[i] in labelled;
        PrefixStep(labelled, i);
        views := views + [ReportView(rows[i], mentee.value.name)];
      }
      assert labelled[..|rows|] == labelled;
      r := Ok(views);
    }

    /** The mentor-reports endpoint, building its response row by row from
        the joined (report, mentee name) pairs. */
    method MentorReports(mentorId: int) returns (r: Outcome<seq<ReportView>>)
      ensures r == ReportService.MentorReports(users, reports, mentorId)
    {
      var mentor := FindMentor(users, mentorId);
      if mentor.None? {
        return Err(NotFound(MentorKind));
      }
      var rows := MentorRows(users, reports, mentorId);
      assert forall k :: 0 <= k < |rows| ==> FindById(users, rows[k].menteeId).Some? by {
        forall k | 0 <= k < |rows| ensures FindById(users, rows[k].menteeId).Some? {
          assert rows[k] in rows;
        }
      }
      ghost var joined := Enrich(users, rows);
      var views: seq<ReportView> := [];
      for i := 0 to |rows|
        invariant views == joined[..i]
      {
        PrefixStep(joined, i);
        var mentee := FindById(users, rows[i].menteeId);
        views := views + [ReportView(rows[i], mentee.value.name)];
      }
      assert joined[..|rows|] == joined;
      r := Ok(views);
    }

    /** Report update: "Report not found" for an unknown id; otherwise the
        five fields are replaced in place. The service does not check the
        week again, so a replacement that would give the mentee two reports
        for one week is refused by the table's unique constraint: the commit
        fails and nothing changes. */
    method UpdateReport(reportId: int, input: ReportInput) returns (r: Outcome<ReportView>)
      requires Valid()
      modifies this
      ensures Valid()
      ensures users == old(users) && nextUserId == old(nextUserId) && nextReportId == old(nextReportId)
      ensures r.Err? ==> reports == old(reports)
      ensures match FindReportIndex(old(reports), reportId)
              case None => r == Err(NotFound(ReportKind))
              case Some(i) =>
                var x := Revise(old(reports)[i], input);
                if exists j :: 0 <= j < |old(reports)| && j != i && SameWeek(old(reports)[j], x)
                then r == Err(IntegrityError)
                else && r.Ok? && r.value.report == x && reports == old(reports)[i := x]
                     && exists m :: m in users && m.id == x.menteeId && m.name == r.value.menteeName
    {
      var found := FindReportIndex(reports, reportId);
      if found.None? {
        return Err(NotFound(ReportKind));
      }
      var i := found.value;
      var x := Revise(reports[i], input);
      if exists j :: 0 <= j < |reports| && j != i && SameWeek(reports[j], x) {
        return Err(IntegrityError);
      }
      assert reports[i] in reports && FiledByMentee(users, reports[i]);
      var mentee := FindById(users, x.menteeId);
      ReplaceReportKeepsInvariant(users, reports, nextUserId, nextReportId, i, x);
      reports := reports[i := x];
      r := Ok(ReportView(x, mentee.value.name));
    }

    /** Report deletion: "Report not found" for an unknown id; otherwise
        that one row is removed and every other row stays. The next report
        key is one more than the largest key left, so deleting the newest
        report frees its key for the next one filed. */
    method DeleteReport(reportId: int) returns (r: Outcome<()>)
      requires Valid()
      modifies this
      ensures Valid()
      ensures users == old(users) && nextUserId == old(nextUserId) && nextReportId == NextReportKey(reports)
      ensures match FindReportIndex(old(reports), reportId)
              case None => r == Err(NotFound(ReportKind)) && reports == old(reports) && nextReportId == old(nextReportId)
              case Some(i) => r == Ok(()) && reports == old(reports)[..i] + old(reports)[i + 1..]
      ensures r.Ok? ==> forall x :: x in reports <==> x in old(reports) && x.id != reportId
      ensures r.Ok? ==> !HasReport(reports, reportId)
    {
      var found := FindReportIndex(reports, reportId);
      if found.None? {
        return Err(NotFound(ReportKind));
      }
      var i := found.value;
      RemoveReportKeepsInvariant(users, reports, nextUserId, nextReportId, i);
      RemoveExactly(reports, i);
      reports := reports[..i] + reports[i + 1..];
      nextReportId := NextReportKey(reports);
      r := Ok(());
    }
  }
}
