/** The administrative handlers of controllers/adminController.js that carry
    logic: result upload, notification fan-out and broadcast, admission
    update, the duplicate-email guard of faculty creation, the reference
    guard of course creation, and the pagination arithmetic of the content
    listing. The document store is a class whose collections are sequences
    in insertion order; every notification record and email attempt the
    handlers write goes, in order, into its `outbox`. */
module Admin {
  import opened Common
  import opened Grading
  import opened Dispatch

  datatype Student = Student(id: Id, rollNumber: string, email: string)

  /** A faculty account; its password hash is not part of this model. */
  datatype FacultyMember = FacultyMember(id: Id, name: string, email: string, mobile: string, department: string,
                                         designation: string, qualification: string, experience: string, role: string)

  datatype Department = Department(id: Id, name: string)

  datatype Category = Category(id: Id, name: string)

  datatype Course = Course(id: Id, name: string, departmentId: Id, categoryId: Id, feeStructure: string, formUrl: string)

  datatype Admission = Admission(id: Id, studentId: Id, courseId: Id, status: string)

  /** What a handler answers: 200 with data, 400, 404 with the handler's own
      message, or 500 from the surrounding `catch`. */
  datatype Response<T> = Ok(data: T) | BadRequest(error: string) | NotFound(error: string) | ServerError

  const MissingResultFields := "Roll number, semester, and total marks are required"
  const UnknownRollNumber := "Student not found with this roll number"
  const DuplicateResult := "Result already exists for this student and semester"
  const AdmissionMissing := "Admission not found"
  const FacultyExists := "Faculty already exists"
  const CourseRefsMissing := "Department or Category not found"
  const FeeSentence := "Please pay the full fee."

  //  uploadResults

  /** The body of a result upload; any field may be absent. */
  datatype ResultUpload = ResultUpload(rollNumber: Option<string>, semester: Option<int>,
                                       subjects: Option<seq<SubjectInput>>, totalMarks: Option<int>)

  predicate FieldsPresent(body: ResultUpload) {
    TruthyString(body.rollNumber) && TruthyInt(body.semester) && TruthyInt(body.totalMarks)
  }

  /** `Student.findOne({ rollNumber })`. */
  function StudentByRoll(students: seq<Student>, roll: string): Option<nat> {
    FindFirst(students, (s: Student) => s.rollNumber == roll)
  }

  /** `Result.findOne({ rollNumber, semester })`. */
  function ResultByKey(results: seq<ResultValue>, roll: string, semester: int): Option<nat> {
    FindFirst(results, (v: ResultValue) => v.rollNumber == roll && v.semester == semester)
  }

  predicate HasResult(results: seq<ResultValue>, roll: string, semester: int) {
    exists k :: 0 <= k < |results| && results[k].rollNumber == roll && results[k].semester == semester
  }

  /** No two stored results share a roll number and a semester. */
  predicate UniqueResults(results: seq<ResultValue>) {
    forall i, j :: 0 <= i < j < |results| ==>
      !(results[i].rollNumber == results[j].rollNumber && results[i].semester == results[j].semester)
  }

  /** Where the guard chain of `uploadResults` leaves a request. */
  datatype UploadGuard = MissingFields | NoStudent | Duplicate | Accepted(student: Student)

  /** The guard chain: field validation, then the student lookup, then the
      duplicate check. */
  function UploadCheck(students: seq<Student>, results: seq<ResultValue>, body: ResultUpload): (g: UploadGuard)
    ensures g == MissingFields <==> !FieldsPresent(body)
    ensures g == NoStudent <==>
      FieldsPresent(body) && forall k :: 0 <= k < |students| ==> students[k].rollNumber != body.rollNumber.value
    ensures g == Duplicate <==>
      FieldsPresent(body) && (exists k :: 0 <= k < |students| && students[k].rollNumber == body.rollNumber.value) &&
      HasResult(results, body.rollNumber.value, body.semester.value)
    ensures g.Accepted? ==>
      FieldsPresent(body) && g.student in students && g.student.rollNumber == body.rollNumber.value &&
      !HasResult(results, body.rollNumber.value, body.semester.value)
  {
    if !FieldsPresent(body) then MissingFields
    else match StudentByRoll(students, body.rollNumber.value)
      case None => NoStudent
      case Some(k) =>
        if ResultByKey(results, body.rollNumber.value, body.semester.value).Some? then Duplicate
        else Accepted(students[k])
  }

  /** Validation comes before any lookup: a request with a falsy field, a
      total of 0 included, is rejected whatever the store holds. */
  lemma ValidationFirst(s1: seq<Student>, r1: seq<ResultValue>, s2: seq<Student>, r2: seq<ResultValue>, body: ResultUpload)
    requires !FieldsPresent(body) || body.totalMarks == Some(0)
    ensures UploadCheck(s1, r1, body) == UploadCheck(s2, r2, body) == MissingFields
  {
  }

  /** The document the handler saves: the upload's fields, `subjects`
      defaulting to none, the actor as uploader, and the hook applied. */
  function StoredResult(body: ResultUpload, actor: Id, now: int): (v: ResultValue)
    requires FieldsPresent(body)
    ensures v.rollNumber == body.rollNumber.value && v.semester == body.semester.value
    ensures v.totalMarks == body.totalMarks.value && v.maxMarks == RecordDefaultMax
    ensures v.uploadedBy == actor && v.uploadedAt == now
    ensures |v.subjects| == |body.subjects.GetOr([])|
    ensures v.percentage == Some(Percent(body.totalMarks.value, RecordDefaultMax))
    ensures v.status != Pending
    ensures v.status == Fail <==> v.grade == Some("F")
  {
    var initial := NewResult(body.rollNumber.value, body.semester.value, body.subjects.GetOr([]),
                           body.totalMarks.value, actor, now);
    ComputedFailIffF(initial);
    Derive(initial)
  }

  /** Appending an accepted upload keeps the results unique. */
  lemma AcceptedKeepsUnique(students: seq<Student>, results: seq<ResultValue>, body: ResultUpload, actor: Id, now: int)
    requires UniqueResults(results)
    requires UploadCheck(students, results, body).Accepted?
    ensures UniqueResults(results + [StoredResult(body, actor, now)])
  {
    var v := StoredResult(body, actor, now);
    var rs := results + [v];
    forall i, j | 0 <= i < j < |rs|
      ensures !(rs[i].rollNumber == rs[j].rollNumber && rs[i].semester == rs[j].semester)
    {
      if j == |results| {
        assert rs[i] == results[i];
      } else {
        assert rs[i] == results[i] && rs[j] == results[j];
      }
    }
  }

  /** Once an upload succeeded, the same roll number and semester is a duplicate. */
  lemma SecondUploadConflicts(students: seq<Student>, results: seq<ResultValue>, body: ResultUpload, actor: Id, now: int)
    requires UploadCheck(students, results, body).Accepted?
    ensures UploadCheck(students, results + [StoredResult(body, actor, now)], body) == Duplicate
  {
    var rs := results + [StoredResult(body, actor, now)];
    assert rs[|results|].rollNumber == body.rollNumber.value && rs[|results|].semester == body.semester.value;
    var k := StudentByRoll(students, body.rollNumber.value).value;
    assert students[k].rollNumber == body.rollNumber.value;
  }

  /** A result that validates stores each subject with the name and marks
      supplied, in order; a subject without a maximum gets 100. */
  lemma StoredSubjects(body: ResultUpload, actor: Id, now: int, i: nat)
    requires FieldsPresent(body) && SubjectsSavable(body.subjects.GetOr([]))
    requires i < |body.subjects.GetOr([])|
    ensures var given := body.subjects.GetOr([])[i];
      var kept := StoredResult(body, actor, now).subjects[i];
      kept.name == given.name.value && kept.name != "" && kept.marks == given.marks.value &&
      kept.maxMarks == given.maxMarks.GetOr(100)
  {
    var given := body.subjects.GetOr([])[i];
    assert SubjectSavable(given);
  }

  function ResultMail(to: string, semester: int, totalMarks: int): Email {
    Email(to, "Result Uploaded",
          "Your result for semester " + IntToString(semester) + " is uploaded. Total marks: " + IntToString(totalMarks))
  }

  function ResultNotice(studentId: Id, semester: int): Notification {
    Notification(studentId, "Student", "Result uploaded for semester " + IntToString(semester), "in-app")
  }

  lemma {:induction false} NatToStringInjective(a: nat, b: nat)
    requires NatToString(a) == NatToString(b)
    ensures a == b
    decreases a
  {
    if a >= 10 && b >= 10 {
      var sa, sb := NatToString(a), NatToString(b);
      assert sa[..|sa| - 1] == NatToString(a / 10);
      assert sb[..|sb| - 1] == NatToString(b / 10);
      NatToStringInjective(a / 10, b / 10);
      assert DigitChar(a % 10) == sa[|sa| - 1] == DigitChar(b % 10);
    }
  }

  lemma IntToStringInjective(a: int, b: int)
    requires IntToString(a) == IntToString(b)
    ensures a == b
  {
    if a < 0 && b < 0 {
      assert IntToString(a)[1..] == NatToString(-a);
      assert IntToString(b)[1..] == NatToString(-b);
      NatToStringInjective(-a, -b);
    } else if a >= 0 && b >= 0 {
      NatToStringInjective(a, b);
    }
  }

  /** The in-app message names the semester: different semesters give different messages. */
  lemma ResultNoticeNamesSemester(a: Id, s1: int, b: Id, s2: int)
    requires ResultNotice(a, s1).message == ResultNotice(b, s2).message
    ensures s1 == s2
  {
    var prefix := "Result uploaded for semester ";
    assert (prefix + IntToString(s1))[|prefix|..] == IntToString(s1);
    assert (prefix + IntToString(s2))[|prefix|..] == IntToString(s2);
    IntToStringInjective(s1, s2);
  }

  /** Broadcast reports of different sizes read differently. */
  lemma BroadcastReportNamesCount(c1: nat, c2: nat)
    requires BroadcastReport(c1) == BroadcastReport(c2)
    ensures c1 == c2
  {
    var prefix, n1, n2 := "Notification sent to ", NatToString(c1), NatToString(c2);
    var r1, r2 := BroadcastReport(c1), BroadcastReport(c2);
    assert r1 == prefix + n1 + " users" && r2 == prefix + n2 + " users";
    assert |n1| == |n2|;
    assert r1[|prefix|..|prefix| + |n1|] == n1;
    assert r2[|prefix|..|prefix| + |n2|] == n2;
    NatToStringInjective(c1, c2);
  }

  //  updateAdmission

  function AdmissionBody(course: string, status: string): string {
    "Your admission for " + course + " is " + status + ". " + (if status == "approved" then FeeSentence else "")
  }

  function AdmissionMail(to: string, course: string, status: string): Email {
    Email(to, "Admission Update", AdmissionBody(course, status))
  }

  function AdmissionNotice(studentId: Id, status: string): Notification {
    Notification(studentId, "Student", "Admission " + status, "in-app")
  }

  /** The body ends with the payment instruction exactly when the status is `approved`. */
  lemma AdmissionBodyFee(course: string, status: string)
    ensures EndsWith(AdmissionBody(course, status), FeeSentence) <==> status == "approved"
  {
    var head := "Your admission for " + course + " is " + status + ". ";
    var body := AdmissionBody(course, status);
    if status == "approved" {
      assert body == head + FeeSentence;
      assert body[|body| - |FeeSentence|..] == FeeSentence;
    } else {
      assert body == head;
      assert body[|body| - 1] == ' ';
      assert FeeSentence[|FeeSentence| - 1] == '.';
      if |FeeSentence| <= |body| {
        assert body[|body| - |FeeSentence|..][|FeeSentence| - 1] == ' ';
      }
    }
  }

  /** The in-app message after `Admission ` is the status itself. */
  lemma AdmissionNoticeNamesStatus(id: Id, status: string)
    ensures AdmissionNotice(id, status).message[|"Admission "|..] == status
    ensures AdmissionNotice(id, status).channel == "in-app" && AdmissionNotice(id, status).userModel == "Student"
  {
  }

  function AdmissionById(admissions: seq<Admission>, id: Id): Option<nat> {
    FindFirst(admissions, (a: Admission) => a.id == id)
  }

  function StudentById(students: seq<Student>, id: Id): Option<nat> {
    FindFirst(students, (s: Student) => s.id == id)
  }

  function CourseById(courses: seq<Course>, id: Id): Option<nat> {
    FindFirst(courses, (c: Course) => c.id == id)
  }

  //  addFaculty

  function FacultyByEmail(faculty: seq<FacultyMember>, email: string): Option<nat> {
    FindFirst(faculty, (f: FacultyMember) => f.email == email)
  }

  predicate UniqueEmails(faculty: seq<FacultyMember>) {
    forall i, j :: 0 <= i < j < |faculty| ==> faculty[i].email != faculty[j].email
  }

  function WelcomeMail(email: string, name: string): Email {
    Email(email, "Faculty Account Created",
          "Hello " + name + ", your faculty account has been created. You can login with your email and password.")
  }

  /** An account registered under an address makes that address taken. */
  lemma RegisteredEmailTaken(faculty: seq<FacultyMember>, f: FacultyMember)
    ensures FacultyByEmail(faculty + [f], f.email).Some?
  {
    assert (faculty + [f])[|faculty|].email == f.email;
  }

  /** Adding an account whose address is not taken keeps addresses unique. */
  lemma FreshEmailKeepsUnique(faculty: seq<FacultyMember>, f: FacultyMember)
    requires UniqueEmails(faculty) && FacultyByEmail(faculty, f.email).None?
    ensures UniqueEmails(faculty + [f])
  {
    var fs := faculty + [f];
    forall i, j | 0 <= i < j < |fs|
      ensures fs[i].email != fs[j].email
    {
      assert fs[i] == faculty[i];
    }
  }

  //  addCourse

  function DepartmentByName(departments: seq<Department>, name: string): Option<nat> {
    FindFirst(departments, (d: Department) => d.name == name)
  }

  function CategoryByName(categories: seq<Category>, name: string): Option<nat> {
    FindFirst(categories, (c: Category) => c.name == name)
  }

  predicate KnownDepartment(departments: seq<Department>, id: Id) {
    exists k :: 0 <= k < |departments| && departments[k].id == id
  }

  predicate KnownCategory(categories: seq<Category>, id: Id) {
    exists k :: 0 <= k < |categories| && categories[k].id == id
  }

  /** Every course refers to a department and a category that exist. */
  predicate CoursesReferToKnown(courses: seq<Course>, departments: seq<Department>, categories: seq<Category>) {
    forall i :: 0 <= i < |courses| ==>
      KnownDepartment(departments, courses[i].departmentId) && KnownCategory(categories, courses[i].categoryId)
  }

  //  getAllContent

  /** Ceiling of the exact quotient `n / d`, as `Math.ceil(n / d)` computes it. */
  function CeilDiv(n: int, d: int): (c: int)
    requires d != 0
    ensures (c - 1) as real < n as real / d as real <= c as real
  {
    var q, r := n / d, n % d;
    assert n as real == d as real * q as real + r as real;
    if d < 0 then q
    else if r == 0 then q
    else q + 1
  }

  /** The pagination block of the content listing. */
  datatype Pagination = Pagination(total: nat, page: int, limit: int, pages: Option<int>, skip: int)

  /** `page` defaults to 1 and `limit` to 10; `skip` is `(page - 1) * limit`;
      `pages` is the ceiling of `total / limit`, which has no number when
      `limit` is 0 (the division gives Infinity or NaN). */
  function Paginate(total: nat, page: Option<int>, limit: Option<int>): (p: Pagination)
    ensures p.total == total && p.page == page.GetOr(1) && p.limit == limit.GetOr(10)
    ensures p.skip == (p.page - 1) * p.limit
    ensures p.pages.None? <==> p.limit == 0
    ensures p.pages.Some? ==> (p.pages.value - 1) as real < total as real / p.limit as real <= p.pages.value as real
  {
    var pg, lim := page.GetOr(1), limit.GetOr(10);
    Pagination(total, pg, lim, if lim == 0 then None else Some(CeilDiv(total, lim)), (pg - 1) * lim)
  }

  /** The real bounds of a ceiling, multiplied out by a positive divisor. */
  lemma CeilBounds(t: int, l: int, n: int)
    requires l > 0 && (n - 1) as real < t as real / l as real <= n as real
    ensures (n - 1) * l < t <= n * l
  {
    var q, lr := t as real / l as real, l as real;
    assert q * lr == t as real;
    assert (n - 1) as real * lr < q * lr;
    assert q * lr <= n as real * lr;
    assert ((n - 1) * l) as real == (n - 1) as real * lr;
    assert (n * l) as real == n as real * lr;
  }

  /** With a positive limit, the pages hold exactly the total: every page
      from 1 to `pages` starts inside the collection and every later page
      starts past its end. */
  lemma PagesCoverTotal(total: nat, page: int, limit: int)
    requires limit > 0
    ensures var p := Paginate(total, Some(page), Some(limit));
      p.pages.Some? && p.pages.value >= 0 &&
      (p.pages.value - 1) * limit < total <= p.pages.value * limit &&
      (1 <= page <= p.pages.value ==> 0 <= p.skip < total) &&
      (page > p.pages.value ==> p.skip >= total)
  {
    var p := Paginate(total, Some(page), Some(limit));
    var n := p.pages.value;
    CeilBounds(total, limit, n);
    if 1 <= page <= n {
      MulMonotone(page - 1, n - 1, limit);
      MulMonotone(0, page - 1, limit);
    }
    if page > n {
      MulMonotone(n, page - 1, limit);
    }
  }

  lemma MulMonotone(a: int, b: int, c: int)
    requires a <= b && c >= 0
    ensures a * c <= b * c
  {
    assert b * c - a * c == (b - a) * c;
  }

  //  The store and its handlers

  class AdminStore {
    var students: seq<Student>
    var faculty: seq<FacultyMember>
    var departments: seq<Department>
    var categories: seq<Category>
    var courses: seq<Course>
    var admissions: seq<Admission>
    var results: seq<ResultValue>
    var outbox: seq<Effect>

    constructor (students: seq<Student>, faculty: seq<FacultyMember>, departments: seq<Department>,
                 categories: seq<Category>, courses: seq<Course>, admissions: seq<Admission>,
                 results: seq<ResultValue>)
      ensures this.students == students && this.faculty == faculty && this.departments == departments
      ensures this.categories == categories && this.courses == courses && this.admissions == admissions
      ensures this.results == results && this.outbox == []
    {
      this.students := students;
      this.faculty := faculty;
      this.departments := departments;
      this.categories := categories;
      this.courses := courses;
      this.admissions := admissions;
      this.results := results;
      this.outbox := [];
    }

    /** The collection a recipient id is looked up in: Faculty exactly when
        `userModel` is `Faculty`, otherwise Student. */
    function Directory(userModel: string): seq<Contact>
      reads this
    {
      if userModel == "Faculty" then
        var fs := faculty;
        seq(|fs|, k requires 0 <= k < |fs| => Contact(fs[k].id, fs[k].email))
      else
        var ss := students;
        seq(|ss|, k requires 0 <= k < |ss| => Contact(ss[k].id, ss[k].email))
    }

    /** `uploadResults`: a rejected request writes nothing, and neither does
        an accepted one whose subjects fail the schema's `required` checks
        (`save` rejects it). Otherwise the graded result is stored, then the
        student's email is attempted, then, if that was delivered, the in-app
        record is written. A failed email leaves the result stored and no
        record. */
    method UploadResults(body: ResultUpload, actor: Id, now: int, mailer: Mailer) returns (r: Response<ResultValue>)
      modifies this`results, this`outbox
      ensures UploadCheck(students, old(results), body) == MissingFields ==>
        r == BadRequest(MissingResultFields) && results == old(results) && outbox == old(outbox)
      ensures UploadCheck(students, old(results), body) == NoStudent ==>
        r == NotFound(UnknownRollNumber) && results == old(results) && outbox == old(outbox)
      ensures UploadCheck(students, old(results), body) == Duplicate ==>
        r == BadRequest(DuplicateResult) && results == old(results) && outbox == old(outbox)
      ensures UploadCheck(students, old(results), body).Accepted? && !SubjectsSavable(body.subjects.GetOr([])) ==>
        r == ServerError && results == old(results) && outbox == old(outbox)
      ensures UploadCheck(students, old(results), body).Accepted? && SubjectsSavable(body.subjects.GetOr([])) ==>
        var student := UploadCheck(students, old(results), body).student;
        var v := StoredResult(body, actor, now);
        var sent := mailer(|old(outbox)|);
        results == old(results) + [v] &&
        outbox == old(outbox) + [Mailed(ResultMail(student.email, body.semester.value, body.totalMarks.value), sent)] +
                  (if sent then [Notified(ResultNotice(student.id, body.semester.value))] else []) &&
        r == (if sent then Ok(v) else ServerError)
      ensures UniqueResults(old(results)) ==> UniqueResults(results)
    {
      if !(TruthyString(body.rollNumber) && TruthyInt(body.semester) && TruthyInt(body.totalMarks)) {
        return BadRequest(MissingResultFields);
      }
      var roll, semester, total := body.rollNumber.value, body.semester.value, body.totalMarks.value;
      var found := StudentByRoll(students, roll);
      if found.None? {
        return NotFound(UnknownRollNumber);
      }
      var student := students[found.value];
      if ResultByKey(results, roll, semester).Some? {
        return BadRequest(DuplicateResult);
      }
      if !SubjectsSavable(body.subjects.GetOr([])) {
        return ServerError;
      }
      var doc := new ResultDoc(roll, semester, body.subjects.GetOr([]), total, actor, now);
      doc.PreSave();
      var saved := doc.Value();
      assert saved == StoredResult(body, actor, now);
      if UniqueResults(results) {
        AcceptedKeepsUnique(students, results, body, actor, now);
      }
      results := results + [saved];
      var sent := mailer(|outbox|);
      outbox := outbox + [Mailed(ResultMail(student.email, semester, total), sent)];
      if !sent {
        return ServerError;
      }
      outbox := outbox + [Notified(ResultNotice(student.id, semester))];
      return Ok(saved);
    }

    /** `sendNotification`: the outbox is extended exactly as `Fanout`
        describes, and the records are returned when no email failed. */
    method SendNotification(userIds: seq<Id>, req: Request, mailer: Mailer) returns (r: Response<seq<Notification>>)
      modifies this`outbox
      ensures var run := Fanout(old(outbox), userIds, req, Directory(req.userModel), mailer);
        outbox == run.outbox && r == (if run.completed then Ok(InApps(userIds, req)) else ServerError)
    {
      var dir := Directory(req.userModel);
      var notifications: seq<Notification> := [];
      var i := 0;
      while i < |userIds|
        invariant 0 <= i <= |userIds|
        invariant notifications == InApps(userIds[..i], req)
        invariant Fanout(outbox, userIds[i..], req, dir, mailer) == Fanout(old(outbox), userIds, req, dir, mailer)
      {
        assert userIds[i..][1..] == userIds[i + 1..];
        var note := Notification(userIds[i], req.userModel, req.message, "in-app");
        outbox := outbox + [Notified(note)];
        notifications := notifications + [note];
        AddressIsFirstMatch(dir, userIds[i]);
        if req.channel == "email" || req.channel == "both" {
          var user := FindFirst(dir, (c: Contact) => c.id == userIds[i]);
          if user.Some? && dir[user.value].email != "" {
            var sent := mailer(|outbox|);
            outbox := outbox + [Mailed(Email(dir[user.value].email, SubjectLine(req), req.message), sent)];
            if !sent {
              return ServerError;
            }
          }
        }
        assert userIds[..i + 1] == userIds[..i] + [userIds[i]];
        InAppsAppend(userIds[..i], [userIds[i]], req);
        assert InApps([userIds[i]], req) == [note];
        i := i + 1;
      }
      assert userIds[..i] == userIds;
      return Ok(notifications);
    }

    /** `broadcastNotification`: the outbox is extended exactly as
        `Broadcast` describes for the snapshot of the chosen collection, and
        the reported count is the snapshot's size. */
    method BroadcastNotification(req: Request, mailer: Mailer) returns (r: Response<string>)
      modifies this`outbox
      ensures var users := Directory(req.userModel);
        var run := Broadcast(old(outbox), users, req, mailer);
        outbox == run.outbox && r == (if run.completed then Ok(BroadcastReport(|users|)) else ServerError)
    {
      var users := Directory(req.userModel);
      var userIds := Ids(users);
      var i := 0;
      while i < |userIds|
        invariant 0 <= i <= |userIds|
        invariant outbox == old(outbox) + Announce(users[..i], req)
      {
        outbox := outbox + [Notified(Notification(userIds[i], req.userModel, req.message, "in-app"))];
        assert Announce(users[..i + 1], req) == Announce(users[..i], req) + [Notified(InApp(users[i].id, req))];
        i := i + 1;
      }
      assert users[..i] == users;
      if req.channel == "email" || req.channel == "both" {
        ghost var noted := outbox;
        var j := 0;
        while j < |users|
          invariant 0 <= j <= |users|
          invariant MailEach(outbox, users[j..], SubjectLine(req), req.message, mailer) ==
                    MailEach(noted, users, SubjectLine(req), req.message, mailer)
        {
          assert users[j..][1..] == users[j + 1..];
          if users[j].email != "" {
            var sent := mailer(|outbox|);
            outbox := outbox + [Mailed(Email(users[j].email, SubjectLine(req), req.message), sent)];
            if !sent {
              return ServerError;
            }
          }
          j := j + 1;
        }
      }
      return Ok(BroadcastReport(|userIds|));
    }

    /** `updateAdmission`: an unknown admission changes nothing; otherwise the
        new status is stored, and then, when the student and the course can
        be read, the student's email is attempted and, if delivered, the
        in-app record written. */
    method UpdateAdmission(id: Id, status: string, mailer: Mailer) returns (r: Response<Admission>)
      modifies this`admissions, this`outbox
      ensures AdmissionById(old(admissions), id).None? ==>
        r == NotFound(AdmissionMissing) && admissions == old(admissions) && outbox == old(outbox)
      ensures AdmissionById(old(admissions), id).Some? ==>
        var k := AdmissionById(old(admissions), id).value;
        var updated := old(admissions)[k].(status := status);
        var s := StudentById(students, updated.studentId);
        var c := CourseById(courses, updated.courseId);
        admissions == old(admissions)[k := updated] &&
        (s.None? || c.None? ==> r == ServerError && outbox == old(outbox)) &&
        (s.Some? && c.Some? ==>
          var sent := mailer(|old(outbox)|);
          outbox == old(outbox) + [Mailed(AdmissionMail(students[s.value].email, courses[c.value].name, status), sent)] +
                    (if sent then [Notified(AdmissionNotice(updated.studentId, status))] else []) &&
          r == (if sent then Ok(updated) else ServerError))
    {
      var found := AdmissionById(admissions, id);
      if found.None? {
        return NotFound(AdmissionMissing);
      }
      var k := found.value;
      var admission := admissions[k].(status := status);
      admissions := admissions[k := admission];
      var s := StudentById(students, admission.studentId);
      var c := CourseById(courses, admission.courseId);
      if s.None? || c.None? {
        return ServerError;
      }
      var sent := mailer(|outbox|);
      outbox := outbox + [Mailed(AdmissionMail(students[s.value].email, courses[c.value].name, status), sent)];
      if !sent {
        return ServerError;
      }
      outbox := outbox + [Notified(AdmissionNotice(admission.studentId, status))];
      return Ok(admission);
    }

    /** `addFaculty`: an address already registered is refused with nothing
        saved; otherwise the account is saved, then the welcome email is
        attempted. Registered addresses stay unique. */
    method AddFaculty(name: string, email: string, mobile: string, department: string, designation: string,
                      qualification: string, experience: string, newId: Id, mailer: Mailer)
      returns (r: Response<FacultyMember>)
      modifies this`faculty, this`outbox
      ensures FacultyByEmail(old(faculty), email).Some? ==>
        r == BadRequest(FacultyExists) && faculty == old(faculty) && outbox == old(outbox)
      ensures FacultyByEmail(old(faculty), email).None? ==>
        var f := FacultyMember(newId, name, email, mobile, department, designation, qualification, experience, "faculty");
        var sent := mailer(|old(outbox)|);
        faculty == old(faculty) + [f] && outbox == old(outbox) + [Mailed(WelcomeMail(email, name), sent)] &&
        r == (if sent then Ok(f) else ServerError)
      ensures UniqueEmails(old(faculty)) ==> UniqueEmails(faculty)
    {
      if FacultyByEmail(faculty, email).Some? {
        return BadRequest(FacultyExists);
      }
      var f := FacultyMember(newId, name, email, mobile, department, designation, qualification, experience, "faculty");
      if UniqueEmails(faculty) {
        FreshEmailKeepsUnique(faculty, f);
      }
      faculty := faculty + [f];
      var sent := mailer(|outbox|);
      outbox := outbox + [Mailed(WelcomeMail(email, name), sent)];
      if !sent {
        return ServerError;
      }
      return Ok(f);
    }

    /** `addCourse`: the department and the category are looked up by name;
        if either is missing nothing is saved, otherwise the course is saved
        with their ids. Courses keep referring to known ones. */
    method AddCourse(name: string, departmentName: string, categoryName: string, feeStructure: string,
                     formUrl: string, newId: Id) returns (r: Response<Course>)
      modifies this`courses
      ensures DepartmentByName(departments, departmentName).None? || CategoryByName(categories, categoryName).None? ==>
        r == NotFound(CourseRefsMissing) && courses == old(courses)
      ensures DepartmentByName(departments, departmentName).Some? && CategoryByName(categories, categoryName).Some? ==>
        var c := Course(newId, name, departments[DepartmentByName(departments, departmentName).value].id,
                        categories[CategoryByName(categories, categoryName).value].id, feeStructure, formUrl);
        courses == old(courses) + [c] && r == Ok(c)
      ensures CoursesReferToKnown(old(courses), departments, categories) ==> CoursesReferToKnown(courses, departments, categories)
    {
      var department := DepartmentByName(departments, departmentName);
      var category := CategoryByName(categories, categoryName);
      if department.None? || category.None? {
        return NotFound(CourseRefsMissing);
      }
      var c := Course(newId, name, departments[department.value].id, categories[category.value].id, feeStructure, formUrl);
      ghost var before := courses;
      courses := courses + [c];
      assert KnownDepartment(departments, c.departmentId);
      assert KnownCategory(categories, c.categoryId);
      assert forall i :: 0 <= i < |before| ==> courses[i] == before[i];
      return Ok(c);
    }
  }
}
