/** The result document and its pre-save hook (models/Result.js): the hook
    turns the total and maximum marks into a percentage, a letter grade and a
    pass/fail status, and gives every subject a letter grade from the same
    seven-step ladder. Marks are integers and the percentage is computed in
    exact rational arithmetic. */
module Grading {
  import opened Common

  datatype Grade = APlus | A | BPlus | B | C | D | F

  /** The text the schema stores in a `grade` field. */
  function Letter(g: Grade): string {
    match g
    case APlus => "A+"
    case A => "A"
    case BPlus => "B+"
    case B => "B"
    case C => "C"
    case D => "D"
    case F => "F"
  }

  /** Position on the ladder, F lowest; used to compare letters. */
  function Rank(g: Grade): nat {
    match g
    case F => 0
    case D => 1
    case C => 2
    case B => 3
    case BPlus => 4
    case A => 5
    case APlus => 6
  }

  /** The lowest percentage a letter is given for (F has no floor). */
  function Floor(g: Grade): real {
    match g
    case APlus => 90.0
    case A => 80.0
    case BPlus => 70.0
    case B => 60.0
    case C => 50.0
    case D => 40.0
    case F => 0.0
  }

  /** A percentage reaches a letter's band: every percentage reaches F. */
  predicate Reaches(p: real, g: Grade) {
    g == F || p >= Floor(g)
  }

  datatype Status = Pass | Fail | Pending

  /** Schema defaults: the record's and each subject's `maxMarks`. */
  const RecordDefaultMax: int := 500
  const SubjectDefaultMax: int := 100

  /** `(obtained / max) * 100`, exactly. */
  function Percent(obtained: int, max: int): real
    requires max != 0
  {
    (obtained as real / max as real) * 100.0
  }

  /** The shared threshold ladder with inclusive lower bounds. */
  function Ladder(p: real): Grade {
    if p >= 90.0 then APlus
    else if p >= 80.0 then A
    else if p >= 70.0 then BPlus
    else if p >= 60.0 then B
    else if p >= 50.0 then C
    else if p >= 40.0 then D
    else F
  }

  function StatusFor(p: real): Status {
    if p >= 40.0 then Pass else Fail
  }

  datatype Subject = Subject(name: string, marks: int, maxMarks: int, grade: Option<string>)

  /** A subject as a request supplies it: any field may be absent. */
  datatype SubjectInput = SubjectInput(name: Option<string>, marks: Option<int>, maxMarks: Option<int>, grade: Option<string>)

  /** Casting a request subject into the schema fills in the default maximum.
      An absent name or mark stays unset; the hook reads unset marks as falsy,
      which is what 0 stands for here. */
  function NewSubject(s: SubjectInput): Subject {
    Subject(s.name.GetOr(""), s.marks.GetOr(0), s.maxMarks.GetOr(SubjectDefaultMax), s.grade)
  }

  /** The schema's `required` checks on a subject: the name is a non-empty
      string and the marks are present (0 counts as present). */
  predicate SubjectSavable(s: SubjectInput) {
    TruthyString(s.name) && s.marks.Some?
  }

  /** Every subject passes the schema's `required` checks, so `save` validates. */
  predicate SubjectsSavable(subjects: seq<SubjectInput>) {
    forall i :: 0 <= i < |subjects| ==> SubjectSavable(subjects[i])
  }

  datatype ResultValue = ResultValue(
    rollNumber: string,
    semester: int,
    subjects: seq<Subject>,
    totalMarks: int,
    maxMarks: int,
    percentage: Option<real>,
    grade: Option<string>,
    status: Status,
    uploadedBy: Id,
    uploadedAt: int)

  /** A freshly constructed result document: the schema defaults apply and no
      derived field is set yet. */
  function NewResult(rollNumber: string, semester: int, subjects: seq<SubjectInput>,
                     totalMarks: int, uploadedBy: Id, uploadedAt: int): ResultValue
  {
    ResultValue(rollNumber, semester, seq(|subjects|, i requires 0 <= i < |subjects| => NewSubject(subjects[i])),
                totalMarks, RecordDefaultMax, None, None, Pending, uploadedBy, uploadedAt)
  }

  /** One iteration of the hook's per-subject loop. */
  function GradeSubject(s: Subject): Subject {
    if s.marks != 0 && s.maxMarks != 0 then s.(grade := Some(Letter(Ladder(Percent(s.marks, s.maxMarks)))))
    else s
  }

  /** What the pre-save hook leaves behind, as a function of the document before it. */
  function Derive(v: ResultValue): ResultValue {
    var top :=
      if v.totalMarks != 0 && v.maxMarks != 0 then
        var p := Percent(v.totalMarks, v.maxMarks);
        v.(percentage := Some(p), grade := Some(Letter(Ladder(p))), status := StatusFor(p))
      else v;
    top.(subjects := seq(|v.subjects|, i requires 0 <= i < |v.subjects| => GradeSubject(v.subjects[i])))
  }

  /** A result document whose fields the hook updates in place. */
  class ResultDoc {
    var rollNumber: string
    var semester: int
    var subjects: array<Subject>
    var totalMarks: int
    var maxMarks: int
    var percentage: Option<real>
    var grade: Option<string>
    var status: Status
    var uploadedBy: Id
    var uploadedAt: int

    function Value(): ResultValue
      reads this, subjects
    {
      ResultValue(rollNumber, semester, subjects[..], totalMarks, maxMarks, percentage, grade, status,
                  uploadedBy, uploadedAt)
    }

    /** `new Result({...})`: the caller's fields plus the schema defaults. */
    constructor (rollNumber: string, semester: int, subjects: seq<SubjectInput>, totalMarks: int,
                 uploadedBy: Id, uploadedAt: int)
      ensures fresh(this.subjects)
      ensures this.maxMarks == RecordDefaultMax && this.status == Pending
      ensures this.percentage == None && this.grade == None
      ensures Value() == NewResult(rollNumber, semester, subjects, totalMarks, uploadedBy, uploadedAt)
    {
      this.rollNumber := rollNumber;
      this.semester := semester;
      this.subjects := new Subject[|subjects|](i requires 0 <= i < |subjects| => NewSubject(subjects[i]));
      this.totalMarks := totalMarks;
      this.maxMarks := RecordDefaultMax;
      this.percentage := None;
      this.grade := None;
      this.status := Pending;
      this.uploadedBy := uploadedBy;
      this.uploadedAt := uploadedAt;
    }

    /** The `pre('save')` hook. */
    method PreSave()
      modifies this, subjects
      ensures subjects == old(subjects)
      ensures Value() == Derive(old(Value()))
    {
      if totalMarks != 0 && maxMarks != 0 {
        var p := Percent(totalMarks, maxMarks);
        percentage := Some(p);
        grade := Some(Letter(Ladder(p)));
        status := if p >= 40.0 then Pass else Fail;
      }
      var a, i := subjects, 0;
      label Graded:
      while i < a.Length
        invariant 0 <= i <= a.Length && unchanged@Graded(this)
        invariant forall k :: 0 <= k < i ==> a[k] == GradeSubject(old(a[k]))
        invariant forall k :: i <= k < a.Length ==> a[k] == old(a[k])
      {
        var s := a[i];
        if s.marks != 0 && s.maxMarks != 0 {
          var sp := Percent(s.marks, s.maxMarks);
          a[i] := s.(grade := Some(Letter(Ladder(sp))));
        }
        i := i + 1;
      }
      assert a[..] == Derive(old(Value())).subjects;
    }

    /** Saving the same document twice leaves it as one save does. */
    method PreSaveTwice()
      modifies this, subjects
      ensures subjects == old(subjects)
      ensures Value() == Derive(old(Value()))
    {
      PreSave();
      PreSave();
      DeriveIdempotent(old(Value()));
    }
  }

  //  Properties of the ladder

  /** The ladder gives the highest letter whose band the percentage reaches. */
  lemma LadderIsHighestReached(p: real, g: Grade)
    ensures Ladder(p) == g <==> Reaches(p, g) && forall h: Grade :: Rank(h) > Rank(g) ==> !Reaches(p, h)
  {
    var l := Ladder(p);
    assert Reaches(p, l);
    forall h: Grade | Rank(h) > Rank(l) ensures !Reaches(p, h) { }
    if l != g && Reaches(p, g) {
      assert Rank(g) < Rank(l) by { RankInjective(g, l); }
    }
  }

  lemma RankInjective(g: Grade, h: Grade)
    ensures Rank(g) == Rank(h) <==> g == h
  {
  }

  /** A higher percentage never yields a lower letter. */
  lemma LadderMonotone(p: real, q: real)
    requires p <= q
    ensures Rank(Ladder(p)) <= Rank(Ladder(q))
  {
  }

  /** The status fails exactly when the letter is F. */
  lemma FailIffF(p: real)
    ensures StatusFor(p) == Fail <==> Ladder(p) == F
    ensures StatusFor(p) == Pass <==> Rank(Ladder(p)) >= Rank(D)
  {
  }

  /** For a positive maximum, reaching `k` percent is an integer comparison. */
  lemma PercentAtLeast(t: int, m: int, k: int)
    requires m > 0
    ensures Percent(t, m) >= k as real <==> 100 * t >= k * m
  {
    var q := t as real / m as real;
    assert q * (m as real) == t as real;
  }

  /** The ladder on marks, stated with integer cross-multiplication only. */
  function GradeByMarks(t: int, m: int): Grade {
    if 10 * t >= 9 * m then APlus
    else if 10 * t >= 8 * m then A
    else if 10 * t >= 7 * m then BPlus
    else if 10 * t >= 6 * m then B
    else if 10 * t >= 5 * m then C
    else if 10 * t >= 4 * m then D
    else F
  }

  lemma LadderByMarks(t: int, m: int)
    requires m > 0
    ensures Ladder(Percent(t, m)) == GradeByMarks(t, m)
    ensures StatusFor(Percent(t, m)) == (if 10 * t >= 4 * m then Pass else Fail)
  {
    PercentAtLeast(t, m, 90);
    PercentAtLeast(t, m, 80);
    PercentAtLeast(t, m, 70);
    PercentAtLeast(t, m, 60);
    PercentAtLeast(t, m, 50);
    PercentAtLeast(t, m, 40);
  }

  /** Over the same positive maximum, more marks never give a lower letter. */
  lemma GradeMonotoneInMarks(t1: int, t2: int, m: int)
    requires m > 0 && t1 <= t2
    ensures Rank(Ladder(Percent(t1, m))) <= Rank(Ladder(Percent(t2, m)))
  {
    LadderByMarks(t1, m);
    LadderByMarks(t2, m);
  }

  //  Properties of the hook

  /** Percentage, grade and status are rewritten only when both totals are
      non-zero, a negative maximum included; then they follow the ladder on
      the percentage, and with a positive maximum the integer ladder. */
  lemma DerivedSummary(v: ResultValue)
    ensures v.totalMarks != 0 && v.maxMarks != 0 ==>
      var p := Percent(v.totalMarks, v.maxMarks);
      Derive(v).percentage == Some(p) && Derive(v).grade == Some(Letter(Ladder(p))) &&
      Derive(v).status == StatusFor(p)
    ensures v.totalMarks != 0 && v.maxMarks > 0 ==>
      Derive(v).percentage.Some? &&
      Derive(v).grade == Some(Letter(GradeByMarks(v.totalMarks, v.maxMarks))) &&
      Derive(v).status == (if 10 * v.totalMarks >= 4 * v.maxMarks then Pass else Fail)
    ensures v.totalMarks == 0 || v.maxMarks == 0 ==>
      Derive(v).percentage == v.percentage && Derive(v).grade == v.grade && Derive(v).status == v.status
  {
    if v.totalMarks != 0 && v.maxMarks > 0 {
      LadderByMarks(v.totalMarks, v.maxMarks);
    }
  }

  /** `pending` survives the hook exactly when it was there and a total is zero. */
  lemma PendingIffTotalsMissing(v: ResultValue)
    ensures Derive(v).status == Pending <==> v.status == Pending && (v.totalMarks == 0 || v.maxMarks == 0)
  {
  }

  /** When the hook computes a status, it is `fail` exactly when the grade is F. */
  lemma ComputedFailIffF(v: ResultValue)
    requires v.totalMarks != 0 && v.maxMarks != 0
    ensures Derive(v).status != Pending
    ensures Derive(v).status == Fail <==> Derive(v).grade == Some("F")
  {
    var p := Percent(v.totalMarks, v.maxMarks);
    FailIffF(p);
    assert Letter(Ladder(p)) == "F" <==> Ladder(p) == F;
  }

  /** The hook changes only the derived fields: every other field, and each
      subject's name and marks, the subjects' number and order, stay put. */
  lemma DeriveChangesOnlyDerived(v: ResultValue)
    ensures Derive(v).(percentage := v.percentage, grade := v.grade, status := v.status, subjects := v.subjects) == v
    ensures |Derive(v).subjects| == |v.subjects|
    ensures forall i :: 0 <= i < |v.subjects| ==> Derive(v).subjects[i].(grade := v.subjects[i].grade) == v.subjects[i]
  {
  }

  /** A subject with zero marks or zero maximum keeps whatever grade it had;
      any other subject is graded by the same ladder as the whole record. */
  lemma SubjectGrading(v: ResultValue, i: nat)
    requires i < |v.subjects|
    ensures |Derive(v).subjects| == |v.subjects|
    ensures v.subjects[i].marks == 0 || v.subjects[i].maxMarks == 0 ==> Derive(v).subjects[i].grade == v.subjects[i].grade
    ensures v.subjects[i].marks != 0 && v.subjects[i].maxMarks != 0 ==>
      Derive(v).subjects[i].grade == Derive(v.(totalMarks := v.subjects[i].marks, maxMarks := v.subjects[i].maxMarks)).grade
  {
  }

  /** The derived fields depend only on the others, so a second run changes nothing. */
  lemma DeriveIdempotent(v: ResultValue)
    ensures Derive(Derive(v)) == Derive(v)
  {
    var once := Derive(v);
    assert forall i :: 0 <= i < |once.subjects| ==> GradeSubject(once.subjects[i]) == once.subjects[i];
  }

  /** Schema defaults of a new document. */
  lemma NewResultDefaults(rollNumber: string, semester: int, subjects: seq<SubjectInput>, totalMarks: int,
                          actor: Id, at: int, i: nat)
    requires i < |subjects| && subjects[i].maxMarks.None?
    ensures NewResult(rollNumber, semester, subjects, totalMarks, actor, at).maxMarks == 500
    ensures NewResult(rollNumber, semester, subjects, totalMarks, actor, at).status == Pending
    ensures NewResult(rollNumber, semester, subjects, totalMarks, actor, at).subjects[i].maxMarks == 100
  {
  }

  /** The boundary cases: 450/500 is A+, 200/500 is a D pass, 199/500 an F fail. */
  lemma BoundaryExamples(roll: string, sem: int, actor: Id, at: int)
    ensures Derive(NewResult(roll, sem, [], 450, actor, at)).percentage == Some(90.0)
    ensures Derive(NewResult(roll, sem, [], 450, actor, at)).grade == Some("A+")
    ensures Derive(NewResult(roll, sem, [], 450, actor, at)).status == Pass
    ensures Derive(NewResult(roll, sem, [], 200, actor, at)).percentage == Some(40.0)
    ensures Derive(NewResult(roll, sem, [], 200, actor, at)).grade == Some("D")
    ensures Derive(NewResult(roll, sem, [], 200, actor, at)).status == Pass
    ensures Derive(NewResult(roll, sem, [], 199, actor, at)).grade == Some("F")
    ensures Derive(NewResult(roll, sem, [], 199, actor, at)).status == Fail
  {
  }
}
