/** The course table behind the `/api/courses` routes: each route handler is a method of
    `CourseTable` that receives the already-authenticated caller and answers with an HTTP
    status, changing the table as the handler does. */
module CourseRoute {
  import opened Seqs

  type UserId = string
  type CourseId = string

  /** The role string carried by the caller's account: the two known roles, or any other
      string kept as it is. */
  datatype RoleName = Instructor | Student | OtherRole(name: string)

  /** A role as the code compares it: `OtherRole` never spells one of the two known roles,
      which only their own constructors stand for. */
  type Role = r: RoleName | r.OtherRole? ==> r.name != "instructor" && r.name != "student"
    witness Instructor

  /** The authenticated caller (`req.user`). */
  datatype Principal = Principal(id: UserId, role: Role)

  /** A stored course document; `image` is the base64 image string, never inspected. */
  datatype Course = Course(
    title: string,
    description: string,
    price: int,
    image: string,
    instructor: UserId,
    students: seq<UserId>)

  /** A course as it is sent to clients: the document together with its `_id`. */
  datatype Record = Record(id: CourseId, course: Course)

  /** The null of `findOne` and of the pages' state cells. */
  datatype Option<T> = None | Some(value: T)

  /** The fields a client posts to create a course. */
  datatype CourseBody = CourseBody(title: string, description: string, price: int, image: string)

  const StatusOk := 200
  const StatusBadRequest := 400
  const StatusForbidden := 403
  const StatusNotFound := 404
  const StatusServerError := 500

  /** The document `new Course({...})` builds: the posted fields, the caller as instructor,
      and the schema's empty roster. */
  function NewCourse(body: CourseBody, owner: UserId): (c: Course)
    ensures c.title == body.title && c.description == body.description
    ensures c.price == body.price && c.image == body.image
    ensures c.instructor == owner && c.students == []
  {
    Course(body.title, body.description, body.price, body.image, owner, [])
  }

  /** `r` is exactly what the table holds under `r.id`. */
  predicate Stored(table: map<CourseId, Course>, r: Record)
  {
    r.id in table && table[r.id] == r.course
  }

  /** No course appears twice in a listing. */
  predicate DistinctIds(rs: seq<Record>)
  {
    forall i, j :: 0 <= i < j < |rs| ==> rs[i].id != rs[j].id
  }

  /** The filter objects the GET routes pass to `Course.find`: `{}`, `{ instructor: id }`,
      `{ students: id }` and `{ title: name }`. */
  datatype Query = AllCourses | ByInstructor(instructorId: UserId) | ByStudent(studentId: UserId)
                 | ByTitle(title: string)

  /** Whether a stored course matches the filter. A filter on the array field `students`
      matches when any element equals the id; the title filter is exact and case-sensitive. */
  predicate Selects(q: Query, c: Course)
  {
    match q
    case AllCourses => true
    case ByInstructor(u) => c.instructor == u
    case ByStudent(u) => u in c.students
    case ByTitle(name) => c.title == name
  }

  /** `found` is an answer to `q` against `table`: every stored course the filter matches, each
      exactly once with its id, and nothing else. */
  ghost predicate Answers(table: map<CourseId, Course>, q: Query, found: seq<Record>)
  {
    DistinctIds(found) && forall r :: r in found <==> Stored(table, r) && Selects(q, r.course)
  }

  /** Deleting entries from a listing keeps its ids distinct. */
  lemma {:induction false} SubsequenceDistinct(a: seq<Record>, b: seq<Record>)
    requires IsSubsequence(a, b) && DistinctIds(b)
    ensures DistinctIds(a)
    decreases |b|
  {
    if a != [] {
      assert DistinctIds(b[1..]) by {
        forall i, j | 0 <= i < j < |b[1..]| ensures b[1..][i].id != b[1..][j].id {
          assert b[1..][i] == b[i + 1] && b[1..][j] == b[j + 1];
        }
      }
      if a[0] == b[0] && IsSubsequence(a[1..], b[1..]) {
        SubsequenceDistinct(a[1..], b[1..]);
        SubsequenceMembers(a[1..], b[1..]);
        forall i, j | 0 <= i < j < |a| ensures a[i].id != a[j].id {
          assert a[j] == a[1..][j - 1];
          if i == 0 {
            assert a[j] in a[1..];
            assert a[j] in b[1..];
            var k :| 0 <= k < |b[1..]| && b[1..][k] == a[j];
            assert b[k + 1] == a[j];
          } else {
            assert a[i] == a[1..][i - 1];
          }
        }
      } else {
        SubsequenceDistinct(a, b[1..]);
      }
    }
  }

  /** The first two entries of a listing are in it. */
  lemma FirstTwoListed(rs: seq<Record>)
    requires |rs| >= 2
    ensures rs[0] in rs && rs[1] in rs
  {
  }

  /** A listing without repeated ids whose courses all carry the same id has at most one entry. */
  lemma SingleIdListing(rs: seq<Record>, id: CourseId)
    requires DistinctIds(rs)
    requires forall r :: r in rs ==> r.id == id
    ensures |rs| <= 1
  {
    if |rs| >= 2 {
      // A helper call and then `assert false`: asserting the membership inline here would be
      // proved from the contradictory branch condition, which the verifier reports.
      FirstTwoListed(rs);
      assert false;
    }
  }

  /** The roster after `students.indexOf(u)` and, when found, `students.splice(index, 1)`. */
  function RemoveFirst(students: seq<UserId>, u: UserId): (r: seq<UserId>)
    ensures u !in students ==> r == students
    ensures u in students ==>
      |r| == |students| - 1 &&
      multiset(r) == multiset(students) - multiset{u} &&
      exists i :: 0 <= i < |students| && students[i] == u && u !in students[..i] &&
        r == students[..i] + students[i + 1..]
  {
    var i := IndexOf(students, u);
    if i == -1 then students
    else
      SpliceMultiset(students, i);
      assert Splice(students, i) == students[..i] + students[i + 1..];
      Splice(students, i)
  }

  /** Enrolling and then unenrolling gives back the same students, counted with multiplicity;
      when the student was not enrolled before, it gives back the very same roster. */
  lemma EnrollThenUnenroll(students: seq<UserId>, u: UserId)
    ensures multiset(RemoveFirst(students + [u], u)) == multiset(students)
    ensures u !in students ==> RemoveFirst(students + [u], u) == students
  {
  }

  /** Enroll has no duplicate check: enrolling twice records the student twice, and a
      single unenroll afterwards leaves the student enrolled. */
  lemma {:induction false} EnrollTwice(students: seq<UserId>, u: UserId)
    ensures Count(students + [u] + [u], u) == Count(students, u) + 2
    ensures u in RemoveFirst(students + [u] + [u], u)
  {
    var s := students + [u] + [u];
    assert multiset(s) == multiset(students) + multiset{u, u};
    assert multiset(RemoveFirst(s, u))[u] == multiset(students)[u] + 1;
  }

  /** What a mutating handler yields: the status it answers and the table it leaves. */
  datatype Outcome = Outcome(status: int, table: map<CourseId, Course>)

  /** POST `/`: validation first, then the student check (both answer 400), then the save of a
      new course owned by the caller under the identifier the store assigns; a save under an
      identifier already in use fails with a duplicate-key error, answered 500. */
  function CreateOutcome(table: map<CourseId, Course>, who: Principal, body: CourseBody,
                         valid: bool, newId: CourseId): (o: Outcome)
    ensures !valid ==> o == Outcome(StatusBadRequest, table)
    ensures valid && who.role == Student ==> o == Outcome(StatusBadRequest, table)
    ensures valid && who.role != Student && newId in table ==> o == Outcome(StatusServerError, table)
    ensures valid && who.role != Student && newId !in table ==>
      o.status == StatusOk && o.table.Keys == table.Keys + {newId} && |o.table| == |table| + 1 &&
      (forall k :: k in table ==> o.table[k] == table[k]) &&
      o.table[newId] == NewCourse(body, who.id)
  {
    if !valid then Outcome(StatusBadRequest, table)
    else if who.role == Student then Outcome(StatusBadRequest, table)
    else if newId in table then Outcome(StatusServerError, table)
    else Outcome(StatusOk, table[newId := NewCourse(body, who.id)])
  }

  /** POST `/enroll/:id`: the caller's id is pushed onto the roster, with no role check and no
      duplicate check; a missing course is dereferenced as null, answered 500. */
  function EnrollOutcome(table: map<CourseId, Course>, who: Principal, id: CourseId): (o: Outcome)
    ensures id !in table ==> o == Outcome(StatusServerError, table)
    ensures id in table ==>
      o.status == StatusOk && o.table.Keys == table.Keys &&
      (forall k :: k in table && k != id ==> o.table[k] == table[k]) &&
      o.table[id] == table[id].(students := table[id].students + [who.id])
    ensures id in table ==>
      |o.table[id].students| == |table[id].students| + 1 &&
      Count(o.table[id].students, who.id) == Count(table[id].students, who.id) + 1
  {
    if id !in table then Outcome(StatusServerError, table)
    else Outcome(StatusOk, table[id := table[id].(students := table[id].students + [who.id])])
  }

  /** DELETE `/enroll/:id`: the first occurrence of the caller's id is spliced out of the
      roster, or 404 when it is absent; no role check; a missing course is dereferenced as
      null, answered 500. */
  function UnenrollOutcome(table: map<CourseId, Course>, who: Principal, id: CourseId): (o: Outcome)
    ensures id !in table ==> o == Outcome(StatusServerError, table)
    ensures id in table && who.id !in table[id].students ==> o == Outcome(StatusNotFound, table)
    ensures id in table && who.id in table[id].students ==>
      o.status == StatusOk && o.table.Keys == table.Keys &&
      (forall k :: k in table && k != id ==> o.table[k] == table[k]) &&
      o.table[id] == table[id].(students := RemoveFirst(table[id].students, who.id))
    ensures id in table && who.id in table[id].students ==>
      |o.table[id].students| == |table[id].students| - 1 &&
      Count(o.table[id].students, who.id) == Count(table[id].students, who.id) - 1
  {
    if id !in table then Outcome(StatusServerError, table)
    else if who.id !in table[id].students then Outcome(StatusNotFound, table)
    else Outcome(StatusOk, table[id := table[id].(students := RemoveFirst(table[id].students, who.id))])
  }

  /** DELETE `/:id`: 400 when the course does not exist; otherwise the course is removed when
      the caller is its instructor, and 403 when not. No role check. */
  function DeleteOutcome(table: map<CourseId, Course>, who: Principal, id: CourseId): (o: Outcome)
    ensures id !in table ==> o == Outcome(StatusBadRequest, table)
    ensures id in table && table[id].instructor == who.id ==>
      o.status == StatusOk && id !in o.table && o.table.Keys == table.Keys - {id} &&
      forall k :: k in o.table ==> o.table[k] == table[k]
    ensures id in table && table[id].instructor != who.id ==> o == Outcome(StatusForbidden, table)
  {
    if id !in table then Outcome(StatusBadRequest, table)
    else if table[id].instructor == who.id then Outcome(StatusOk, table - {id})
    else Outcome(StatusForbidden, table)
  }

  class CourseTable {
    /** The course collection, keyed by `_id`. */
    var courses: map<CourseId, Course>

    constructor (initial: map<CourseId, Course>)
      ensures courses == initial
    {
      courses := initial;
    }

    /** `Course.find(q)`: every stored course the filter matches, each exactly once, in no
        promised order. */
    method Scan(q: Query) returns (found: seq<Record>)
      ensures Answers(courses, q, found)
    {
      found := [];
      var left := courses.Keys;
      while left != {}
        invariant left <= courses.Keys
        invariant forall r :: r in found <==> Stored(courses, r) && r.id !in left && Selects(q, r.course)
        invariant DistinctIds(found)
        decreases left
      {
        var k :| k in left;
        if Selects(q, courses[k]) {
          found := found + [Record(k, courses[k])];
        }
        left := left - {k};
      }
    }

    /** GET `/`: every course in the table. */
    method ListAll() returns (found: seq<Record>)
      ensures Answers(courses, AllCourses, found)
    {
      found := Scan(AllCourses);
    }

    /** GET `/instructor/:id`: the courses whose instructor is `instructorId`. */
    method ListByInstructor(instructorId: UserId) returns (found: seq<Record>)
      ensures Answers(courses, ByInstructor(instructorId), found)
    {
      found := Scan(ByInstructor(instructorId));
    }

    /** GET `/student/:id`: the courses whose roster holds `studentId` at least once. */
    method ListByStudent(studentId: UserId) returns (found: seq<Record>)
      ensures Answers(courses, ByStudent(studentId), found)
    {
      found := Scan(ByStudent(studentId));
    }

    /** GET `/findByName/:name`: the courses whose title is exactly `name` (case-sensitive). */
    method FindByName(name: string) returns (found: seq<Record>)
      ensures Answers(courses, ByTitle(name), found)
    {
      found := Scan(ByTitle(name));
    }

    /** GET `/:id`: the course with that id, or null. */
    function FindOne(id: CourseId): (r: Option<Record>)
      reads this
      ensures r.Some? <==> id in courses
      ensures r.Some? ==> r.value.id == id && Stored(courses, r.value)
    {
      if id in courses then Some(Record(id, courses[id])) else None
    }

    /** POST `/`, as `CreateOutcome` describes it; the new course is then found under its id. */
    method Create(who: Principal, body: CourseBody, courseValidation: CourseBody -> bool,
                  newId: CourseId) returns (status: int)
      modifies this
      ensures Outcome(status, courses) == CreateOutcome(old(courses), who, body, courseValidation(body), newId)
      ensures status == StatusOk ==> FindOne(newId) == Some(Record(newId, NewCourse(body, who.id)))
    {
      if !courseValidation(body) {
        return StatusBadRequest;
      }
      if who.role == Student {
        return StatusBadRequest;
      }
      if newId in courses {
        return StatusServerError;
      }
      courses := courses[newId := NewCourse(body, who.id)];
      status := StatusOk;
    }

    /** POST `/enroll/:id`, as `EnrollOutcome` describes it. */
    method Enroll(who: Principal, id: CourseId) returns (status: int)
      modifies this
      ensures Outcome(status, courses) == EnrollOutcome(old(courses), who, id)
    {
      if id !in courses {
        return StatusServerError;
      }
      var course := courses[id];
      courses := courses[id := course.(students := course.students + [who.id])];
      status := StatusOk;
    }

    /** DELETE `/enroll/:id`, as `UnenrollOutcome` describes it: `indexOf`, then `splice`. */
    method Unenroll(who: Principal, id: CourseId) returns (status: int)
      modifies this
      ensures Outcome(status, courses) == UnenrollOutcome(old(courses), who, id)
    {
      if id !in courses {
        return StatusServerError;
      }
      var course := courses[id];
      var index := IndexOf(course.students, who.id);
      if index != -1 {
        courses := courses[id := course.(students := Splice(course.students, index))];
        status := StatusOk;
      } else {
        status := StatusNotFound;
      }
    }

    /** DELETE `/:id`, as `DeleteOutcome` describes it; the lookup then answers null. */
    method Delete(who: Principal, id: CourseId) returns (status: int)
      modifies this
      ensures Outcome(status, courses) == DeleteOutcome(old(courses), who, id)
      ensures status == StatusOk ==> FindOne(id) == None
    {
      if id !in courses {
        return StatusBadRequest;
      }
      if courses[id].instructor == who.id {
        courses := courses - {id};
        status := StatusOk;
      } else {
        status := StatusForbidden;
      }
    }
  }

  /** A listing that holds no course is empty. */
  lemma EmptyListing(rs: seq<Record>)
    requires forall r :: r !in rs
    ensures rs == []
  {
    forall r | true ensures multiset(rs)[r] == 0 {
      assert r !in rs;
      assert r !in multiset(rs);
    }
    assert multiset(rs) == multiset{};
  }

  /** An instructor creates a course and finds it in their listing; a student enrolls and finds
      it in theirs, unenrolls and finds their listing empty; the instructor deletes the course
      and the point lookup then answers null. */
  method LifecycleScenario(teacher: Principal, learner: Principal, body: CourseBody,
                           courseValidation: CourseBody -> bool, id: CourseId)
    returns (created: int, mine: seq<Record>, joined: seq<Record>, left: seq<Record>,
             deleted: int, after: Option<Record>)
    requires courseValidation(body)
    requires teacher.role == Instructor && learner.role == Student
    ensures created == StatusOk && deleted == StatusOk
    ensures mine == [Record(id, NewCourse(body, teacher.id))]
    ensures joined == [Record(id, NewCourse(body, teacher.id).(students := [learner.id]))]
    ensures left == []
    ensures after == None
  {
    var table := new CourseTable(map[]);
    created := table.Create(teacher, body, courseValidation, id);
    var course := NewCourse(body, teacher.id);
    assert table.courses == map[id := course];
    mine := table.ListByInstructor(teacher.id);
    assert Record(id, course) in mine;
    SingleIdListing(mine, id);
    var status := table.Enroll(learner, id);
    var course' := course.(students := [learner.id]);
    assert course.students + [learner.id] == [learner.id];
    assert table.courses == map[id := course'];
    joined := table.ListByStudent(learner.id);
    assert Record(id, course') in joined;
    SingleIdListing(joined, id);
    status := table.Unenroll(learner, id);
    assert table.courses == map[id := course];
    left := table.ListByStudent(learner.id);
    EmptyListing(left);
    deleted := table.Delete(teacher, id);
    after := table.FindOne(id);
  }

  /** Two enrolls and then one unenroll of the same student all answer 200; the course stays
      and the student's count on its roster ends one higher. */
  lemma EnrollTwiceUnenrollOnce(table: map<CourseId, Course>, who: Principal, id: CourseId)
    requires id in table
    ensures var o1 := EnrollOutcome(table, who, id);
      var o2 := EnrollOutcome(o1.table, who, id);
      var o3 := UnenrollOutcome(o2.table, who, id);
      o1.status == StatusOk && o2.status == StatusOk && o3.status == StatusOk &&
      o3.table.Keys == table.Keys &&
      Count(o3.table[id].students, who.id) == Count(table[id].students, who.id) + 1
  {
    var o1 := EnrollOutcome(table, who, id);
    var o2 := EnrollOutcome(o1.table, who, id);
    assert o2.table[id].students == table[id].students + [who.id] + [who.id];
    EnrollTwice(table[id].students, who.id);
  }

  /** Enrolling twice and unenrolling once leaves the student enrolled: the course is still in
      their listing. */
  method RepeatEnrollScenario(table: CourseTable, learner: Principal, id: CourseId)
    returns (first: int, second: int, cancelled: int, still: seq<Record>)
    requires id in table.courses
    modifies table
    ensures first == StatusOk && second == StatusOk && cancelled == StatusOk
    ensures table.courses.Keys == old(table.courses).Keys
    ensures Count(table.courses[id].students, learner.id) == Count(old(table.courses)[id].students, learner.id) + 1
    ensures Record(id, table.courses[id]) in still
  {
    EnrollTwiceUnenrollOnce(table.courses, learner, id);
    first := table.Enroll(learner, id);
    second := table.Enroll(learner, id);
    cancelled := table.Unenroll(learner, id);
    still := table.ListByStudent(learner.id);
    assert Stored(table.courses, Record(id, table.courses[id]));
  }

  /** Enroll as intended: the caller's id is added only when it is not on the roster yet, so
      joining is idempotent and no student is ever listed twice. */
  function EnrollOnceOutcome(table: map<CourseId, Course>, who: Principal, id: CourseId): (o: Outcome)
    ensures id !in table ==> o == Outcome(StatusServerError, table)
    ensures id in table ==>
      o.status == StatusOk && o.table.Keys == table.Keys &&
      (forall k :: k in table && k != id ==> o.table[k] == table[k]) &&
      Count(o.table[id].students, who.id) == if who.id in table[id].students then Count(table[id].students, who.id) else 1
    ensures id in table ==>
      forall u :: u != who.id ==> Count(o.table[id].students, u) == Count(table[id].students, u)
    ensures id in table && who.id in table[id].students ==> o == Outcome(StatusOk, table)
    ensures id in table && who.id !in table[id].students ==>
      o.table[id] == table[id].(students := table[id].students + [who.id])
  {
    if id !in table then Outcome(StatusServerError, table)
    else if who.id in table[id].students then Outcome(StatusOk, table)
    else
      var s := table[id].students;
      assert multiset(s + [who.id]) == multiset(s) + multiset{who.id};
      Outcome(StatusOk, table[id := table[id].(students := s + [who.id])])
  }

  /** The corrected enroll is idempotent: joining a second time changes nothing more. */
  lemma EnrollOnceIdempotent(table: map<CourseId, Course>, who: Principal, id: CourseId)
    ensures var o := EnrollOnceOutcome(table, who, id);
      EnrollOnceOutcome(o.table, who, id) == o
  {
  }

  /** No roster in the table lists a student more than once. */
  ghost predicate SingleEnrollment(table: map<CourseId, Course>)
  {
    forall k, u :: k in table ==> Count(table[k].students, u) <= 1
  }

  /** Every handler of the corrected server keeps each student at most once on each roster. */
  lemma CorrectedHandlersKeepSingleEnrollment(table: map<CourseId, Course>, who: Principal,
                                              body: CourseBody, valid: bool, id: CourseId)
    requires SingleEnrollment(table)
    ensures SingleEnrollment(EnrollOnceOutcome(table, who, id).table)
    ensures SingleEnrollment(UnenrollOutcome(table, who, id).table)
    ensures SingleEnrollment(CreateOutcome(table, who, body, valid, id).table)
    ensures SingleEnrollment(DeleteOutcome(table, who, id).table)
  {
    EnrollOnceKeepsSingleEnrollment(table, who, id);
    UnenrollKeepsSingleEnrollment(table, who, id);
    var c := CreateOutcome(table, who, body, valid, id).table;
    forall k, u | k in c ensures Count(c[k].students, u) <= 1 {
      if k !in table {
        assert c[k].students == [];
      }
    }
  }

  lemma EnrollOnceKeepsSingleEnrollment(table: map<CourseId, Course>, who: Principal, id: CourseId)
    requires SingleEnrollment(table)
    ensures SingleEnrollment(EnrollOnceOutcome(table, who, id).table)
  {
    var o := EnrollOnceOutcome(table, who, id).table;
    forall k, u | k in o ensures Count(o[k].students, u) <= 1 {
      assert k in table;
      assert Count(table[k].students, u) <= 1;
      if k == id && u != who.id {
        assert Count(o[id].students, u) == Count(table[id].students, u);
      }
    }
  }

  lemma UnenrollKeepsSingleEnrollment(table: map<CourseId, Course>, who: Principal, id: CourseId)
    requires SingleEnrollment(table)
    ensures SingleEnrollment(UnenrollOutcome(table, who, id).table)
  {
    var o := UnenrollOutcome(table, who, id).table;
    forall k, u | k in o ensures Count(o[k].students, u) <= 1 {
      assert k in table;
      if k == id && who.id in table[id].students {
        assert multiset(o[id].students) == multiset(table[id].students) - multiset{who.id};
        assert Count(table[k].students, u) <= 1;
      }
    }
  }

  /** The as-written enroll breaks that invariant: enrolling a student who is already on the
      roster lists them twice. */
  lemma EnrollBreaksSingleEnrollment(table: map<CourseId, Course>, who: Principal, id: CourseId)
    requires SingleEnrollment(table)
    requires id in table && who.id in table[id].students
    ensures !SingleEnrollment(EnrollOutcome(table, who, id).table)
  {
    var o := EnrollOutcome(table, who, id).table;
    assert Count(o[id].students, who.id) == 2;
  }
}
