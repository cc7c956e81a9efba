/**
 * The `main` blueprint: the index redirect and the dashboard, which shows the distribution of student
 * grades to a signed-in user who has passed every sign-in stage.
 */
module MainRoutes {
  import opened Wrappers
  import opened Text
  import opened Models
  import opened Forms
  import opened Web
  import opened AuthRoutes

  /** The chart's labels, in order. */
  const DashboardLabels: seq<string> := ["A", "B", "C", "D", "F"]

  /** `index`: every visit to the root is sent to the login page. */
  function Index(): (r: Response)
    ensures r.Redirect? && r.to == LoginView && r.flash.None?
  {
    Redirect(LoginView, None)
  }

  /** `[s.grade for s in students if s.grade]`: the grades that are set and non-empty, in query order. */
  function GradesOf(students: seq<Student>): (g: seq<string>)
    ensures |g| <= |students|
    ensures forall k :: 0 <= k < |g| ==> g[k] != ""
  {
    if students == [] then []
    else
      var grade := students[0].grade;
      if grade.Some? && grade.value != "" then [grade.value] + GradesOf(students[1..]) else GradesOf(students[1..])
  }

  /** `Counter(grades).get(x, 0)`. */
  function Occurrences(xs: seq<string>, x: string): (c: nat)
    ensures c <= |xs|
  {
    if xs == [] then 0 else (if xs[0] == x then 1 else 0) + Occurrences(xs[1..], x)
  }

  /** `[counts.get(k, 0) for k in labels]`. */
  function Histogram(students: seq<Student>): (data: seq<nat>)
    ensures |data| == |DashboardLabels|
  {
    var grades := GradesOf(students);
    seq(|DashboardLabels|, i requires 0 <= i < |DashboardLabels| => Occurrences(grades, DashboardLabels[i]))
  }

  /** The number of students whose grade is `mark`, counted directly over the rows. */
  function WithGrade(students: seq<Student>, mark: string): nat {
    if students == [] then 0
    else (if students[0].grade == Some(mark) then 1 else 0) + WithGrade(students[1..], mark)
  }

  /** The number of students with a non-empty grade outside the chart's labels. */
  function Unlabelled(students: seq<Student>): nat {
    if students == [] then 0
    else
      var grade := students[0].grade;
      (if grade.Some? && grade.value != "" && grade.value !in DashboardLabels then 1 else 0) + Unlabelled(students[1..])
  }

  /** For a non-empty mark, counting in the filtered grade list is counting the rows with that grade. */
  lemma {:induction false} OccurrencesCountRows(students: seq<Student>, mark: string)
    requires mark != ""
    ensures Occurrences(GradesOf(students), mark) == WithGrade(students, mark)
  {
    if students != [] {
      OccurrencesCountRows(students[1..], mark);
      var grade := students[0].grade;
      if grade.Some? && grade.value != "" {
        assert ([grade.value] + GradesOf(students[1..]))[1..] == GradesOf(students[1..]);
      }
    }
  }

  /** Each bar of the chart is the number of students with that grade; no-grade and empty-grade rows count nowhere. */
  lemma HistogramCountsStudents(students: seq<Student>)
    ensures forall i :: 0 <= i < |DashboardLabels| ==> Histogram(students)[i] == WithGrade(students, DashboardLabels[i])
  {
    forall i | 0 <= i < |DashboardLabels|
      ensures Histogram(students)[i] == WithGrade(students, DashboardLabels[i])
    {
      OccurrencesCountRows(students, DashboardLabels[i]);
    }
  }

  function Sum(xs: seq<nat>): nat {
    if xs == [] then 0 else xs[0] + Sum(xs[1..])
  }

  lemma SumOfFive(xs: seq<nat>)
    requires |xs| == 5
    ensures Sum(xs) == xs[0] + xs[1] + xs[2] + xs[3] + xs[4]
  {
    assert xs[4..][1..] == [];
    assert Sum(xs[4..]) == xs[4];
    assert xs[3..][1..] == xs[4..];
    assert Sum(xs[3..]) == xs[3] + xs[4];
    assert xs[2..][1..] == xs[3..];
    assert Sum(xs[2..]) == xs[2] + xs[3] + xs[4];
    assert xs[1..][1..] == xs[2..];
    assert Sum(xs[1..]) == xs[1] + xs[2] + xs[3] + xs[4];
  }

  /**
   * The bars add up to the number of graded students less those whose grade is not one of the labels:
   * the total is at most the number of graded students, with equality exactly when every grade is a label.
   */
  lemma {:induction false} HistogramTotal(students: seq<Student>)
    ensures Sum(Histogram(students)) + Unlabelled(students) == |GradesOf(students)|
    ensures Sum(Histogram(students)) <= |GradesOf(students)|
    ensures Sum(Histogram(students)) == |GradesOf(students)| <==> Unlabelled(students) == 0
  {
    HistogramCountsStudents(students);
    var h := Histogram(students);
    SumOfFive(h);
    if students != [] {
      var tail := students[1..];
      HistogramTotal(tail);
      HistogramCountsStudents(tail);
      var t := Histogram(tail);
      SumOfFive(t);
      var grade := students[0].grade;
      if grade.Some? && grade.value != "" {
        assert GradesOf(students) == [grade.value] + GradesOf(tail);
      }
    }
  }

  /**
   * `dashboard` behind `@login_required`: a visitor who is not signed in goes to the login page, one
   * without `bio_ok` to the biometric step, and everyone else sees the chart.
   */
  function Dashboard(s: Session, users: seq<User>, students: seq<Student>): (r: Response)
    ensures CurrentUser(s, users).None? ==> r == Redirect(LoginView, Some(LoginRequiredMessage))
    ensures CurrentUser(s, users).Some? && !s.bioOk ==> r == Redirect(BiometricView, None)
    ensures r.Render? <==> CurrentUser(s, users).Some? && s.bioOk
    ensures r.Render? ==>
              && r.page.DashboardPage? && r.page.labels == DashboardLabels && |r.page.data| == |DashboardLabels|
              && forall i :: 0 <= i < |DashboardLabels| ==> r.page.data[i] == WithGrade(students, DashboardLabels[i])
  {
    if CurrentUser(s, users).None? then Redirect(LoginView, Some(LoginRequiredMessage))
    else if !s.bioOk then Redirect(BiometricView, None)
    else
      HistogramCountsStudents(students);
      Render(DashboardPage(DashboardLabels, Histogram(students)), None)
  }

  /**
   * The whole sign-in sequence from a fresh session: password, the code that was issued (entered within
   * five minutes), then the biometric POST, reaches the dashboard; after the password alone, or the code
   * too, the dashboard still turns the visitor away.
   */
  lemma SignInReachesDashboard(users: seq<User>, h: Hasher, f: LoginForm, students: seq<Student>,
                               t: int, draw: nat, now: int)
    requires IdsAreRowNumbers(users)
    requires LoginFormValid(f) && draw < OtpRange && now <= t + OtpLifetime
    requires Authenticate(users, h, Strip(f.username), f.password).Some?
    ensures var s1 := LoginStep(EmptySession, users, h, Post(true, f), t, draw).session;
            var s2 := OtpStep(s1, users, Post(true, OtpCode(draw)), now).session;
            var s3 := BiometricStep(s2, users, true).session;
            && Dashboard(s1, users, students) == Redirect(LoginView, Some(LoginRequiredMessage))
            && Dashboard(s2, users, students) == Redirect(BiometricView, None)
            && Dashboard(s3, users, students) == Render(DashboardPage(DashboardLabels, Histogram(students)), None)
  {
    var u := Authenticate(users, h, Strip(f.username), f.password).value;
    var j :| 0 <= j < |users| && users[j] == u;
    FindByIdRowNumbers(users, u.id);
    var code := OtpCode(draw);
    OtpCodeStripped(code);
    assert OtpFormValid(code);
  }
}
