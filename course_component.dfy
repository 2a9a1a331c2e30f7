/** The course page: it shows an instructor the courses they teach and a student the courses
    they are enrolled in, and lets each remove a course (an instructor deletes it, a student
    unenrolls), dropping it from the page's list when the server accepts. The page's
    `courseData` state cell is the field of `CoursePage`. */
module CourseComponent {
  import opened Seqs
  import opened CourseRoute
  import opened CourseService

  /** The listing `fetchCourses` asks for: none without a user, the by-instructor listing for an
      instructor and the by-student listing for a student, both for the user's own id. For any
      other role no request is made (its `response.data` throws and is caught). */
  function FetchRequest(user: Option<Principal>): (q: Option<Query>)
    ensures user.None? ==> q.None?
    ensures user.Some? && user.value.role == Instructor ==> q == Some(ByInstructor(user.value.id))
    ensures user.Some? && user.value.role == Student ==> q == Some(ByStudent(user.value.id))
    ensures user.Some? && user.value.role.OtherRole? ==> q.None?
  {
    match user
    case None => None
    case Some(p) =>
      match p.role
      case Instructor => Some(ByInstructor(p.id))
      case Student => Some(ByStudent(p.id))
      case OtherRole(_) => None
  }

  /** The request `cancel` sends for a course, chosen by role. */
  datatype Action = DeleteCourse(courseId: CourseId) | CancelEnroll(courseId: CourseId) | NoPermissionAlert

  /** An instructor deletes the course, a student unenrolls from it, and any other role only
      gets an alert, with no request. */
  function CancelAction(role: Role, courseId: CourseId): (a: Action)
    ensures role == Instructor <==> a == DeleteCourse(courseId)
    ensures role == Student <==> a == CancelEnroll(courseId)
    ensures role.OtherRole? <==> a == NoPermissionAlert
  {
    match role
    case Instructor => DeleteCourse(courseId)
    case Student => CancelEnroll(courseId)
    case OtherRole(_) => NoPermissionAlert
  }

  /** `courseData.filter(course => course._id !== courseId)`: the list without any course of
      that id, the others in their order. */
  function WithoutCourse(data: seq<Record>, courseId: CourseId): (r: seq<Record>)
    ensures forall x :: x in r <==> x in data && x.id != courseId
    ensures forall x :: multiset(r)[x] == if x.id != courseId then multiset(data)[x] else 0
    ensures IsSubsequence(r, data)
    ensures |r| <= |data|
  {
    Filter(data, (x: Record) => x.id != courseId)
  }

  /** Removing a course that is not in the list leaves the list as it is. */
  lemma WithoutAbsentCourse(data: seq<Record>, courseId: CourseId)
    requires forall x :: x in data ==> x.id != courseId
    ensures WithoutCourse(data, courseId) == data
  {
    FilterKeepsAll(data, (x: Record) => x.id != courseId);
  }

  /** An instructor's page after a delete: when the reply resolves, dropping the course from
      the by-instructor listing the page holds leaves exactly the server's new listing; when the
      server refuses, its table and the page's list stay as they were, still in agreement. */
  lemma DeleteKeepsPageInSync(table: map<CourseId, Course>, who: Principal, data: seq<Record>,
                              courseId: CourseId, hasToken: bool, message: string)
    requires Answers(table, ByInstructor(who.id), data)
    ensures var o := DeleteOutcome(table, who, courseId);
      ServiceReply(hasToken, o.status, message).Resolved? ==>
        Answers(o.table, ByInstructor(who.id), WithoutCourse(data, courseId))
    ensures var o := DeleteOutcome(table, who, courseId);
      hasToken && ServiceReply(hasToken, o.status, message).Rejected? ==>
        Answers(o.table, ByInstructor(who.id), data)
  {
    var o := DeleteOutcome(table, who, courseId);
    if ServiceReply(hasToken, o.status, message).Resolved? {
      assert courseId in table && table[courseId].instructor == who.id;
      SubsequenceDistinct(WithoutCourse(data, courseId), data);
    }
  }

  /** A student's page after an unenroll, on a table that lists no student twice on a roster:
      when the reply resolves, dropping the course from the by-student listing the page holds
      leaves exactly the server's new listing; when the server refuses, nothing changed. */
  lemma UnenrollKeepsPageInSync(table: map<CourseId, Course>, who: Principal, data: seq<Record>,
                                courseId: CourseId, hasToken: bool, message: string)
    requires SingleEnrollment(table)
    requires Answers(table, ByStudent(who.id), data)
    ensures var o := UnenrollOutcome(table, who, courseId);
      ServiceReply(hasToken, o.status, message).Resolved? ==>
        Answers(o.table, ByStudent(who.id), WithoutCourse(data, courseId))
    ensures var o := UnenrollOutcome(table, who, courseId);
      hasToken && ServiceReply(hasToken, o.status, message).Rejected? ==>
        Answers(o.table, ByStudent(who.id), data)
  {
    var o := UnenrollOutcome(table, who, courseId);
    if ServiceReply(hasToken, o.status, message).Resolved? {
      assert courseId in table && who.id in table[courseId].students;
      assert Count(table[courseId].students, who.id) <= 1;
      assert who.id !in o.table[courseId].students;
      SubsequenceDistinct(WithoutCourse(data, courseId), data);
    }
  }

  /** Without that invariant the two disagree: for a student listed twice on a roster the
      unenroll is accepted and the page drops the course, yet the student is still on the
      roster, so the server's new by-student listing still holds it. */
  lemma UnenrollTwiceEnrolledDiverges(table: map<CourseId, Course>, who: Principal,
                                      data: seq<Record>, courseId: CourseId, message: string)
    requires Answers(table, ByStudent(who.id), data)
    requires courseId in table && Count(table[courseId].students, who.id) >= 2
    ensures var o := UnenrollOutcome(table, who, courseId);
      ServiceReply(true, o.status, message).Resolved? &&
      courseId in o.table && who.id in o.table[courseId].students &&
      !Answers(o.table, ByStudent(who.id), WithoutCourse(data, courseId))
  {
    var o := UnenrollOutcome(table, who, courseId);
    var kept := Record(courseId, o.table[courseId]);
    assert Count(o.table[courseId].students, who.id) >= 1;
    assert Stored(o.table, kept) && Selects(ByStudent(who.id), kept.course);
    assert kept !in WithoutCourse(data, courseId);
  }

  class CoursePage {
    /** `courseData`: the courses shown, or null before anything is loaded. */
    var courseData: Option<seq<Record>>

    /** The initial state cell. */
    constructor ()
      ensures courseData == None
    {
      courseData := None;
    }

    /** `fetchCourses()`: the reply to the page's listing request replaces the list; without a
        request, or with a rejected reply, the list stays as it was. */
    method FetchCourses(user: Option<Principal>, serve: Query -> Reply<seq<Record>>)
      modifies this
      ensures FetchRequest(user).None? ==> courseData == old(courseData)
      ensures FetchRequest(user).Some? && serve(FetchRequest(user).value).Rejected? ==>
        courseData == old(courseData)
      ensures FetchRequest(user).Some? && serve(FetchRequest(user).value).Resolved? ==>
        courseData == Some(serve(FetchRequest(user).value).data)
    {
      var request := FetchRequest(user);
      if request.None? {
        return;
      }
      var response := serve(request.value);
      if response.Resolved? {
        courseData := Some(response.data);
      }
    }

    /** `cancel` for course `courseId`: the role picks the request; once the server accepts it the
        course is dropped from the list, and on a rejection (or for a role with no request) the
        list stays. A list that was never loaded stays unloaded (its `filter` throws and is
        caught). */
    method Cancel(user: Principal, courseId: CourseId, serve: Action -> Reply<string>)
      returns (action: Action)
      modifies this
      ensures action == CancelAction(user.role, courseId)
      ensures action == NoPermissionAlert ==> courseData == old(courseData)
      ensures action != NoPermissionAlert && serve(action).Rejected? ==> courseData == old(courseData)
      ensures action != NoPermissionAlert && serve(action).Resolved? ==>
        courseData == if old(courseData).Some? then Some(WithoutCourse(old(courseData).value, courseId))
                      else old(courseData)
    {
      action := CancelAction(user.role, courseId);
      if action == NoPermissionAlert {
        return;
      }
      var reply := serve(action);
      if reply.Resolved? && courseData.Some? {
        courseData := Some(WithoutCourse(courseData.value, courseId));
      }
    }
  }
}
