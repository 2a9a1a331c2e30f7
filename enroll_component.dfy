/** The enrollment page: it loads the ids of the caller's enrolled courses and the list of all
    courses, filters that list by the search box, and shows for each course either the enroll
    or the cancel button. The page's React state cells are the fields of `EnrollPage`. */
module EnrollComponent {
  import opened Seqs
  import opened Text
  import opened CourseRoute
  import opened CourseService

  /** `enrolledResponse.data.map(course => course._id)`: the ids of the listed courses, in order. */
  function EnrolledIds(enrolled: seq<Record>): (ids: seq<CourseId>)
    ensures |ids| == |enrolled|
    ensures forall i :: 0 <= i < |enrolled| ==> ids[i] == enrolled[i].id
    ensures forall id :: id in ids <==> exists r :: r in enrolled && r.id == id
  {
    if enrolled == [] then []
    else
      var rest := EnrolledIds(enrolled[1..]);
      assert forall r :: r in enrolled <==> r == enrolled[0] || r in enrolled[1..];
      [enrolled[0].id] + rest
  }

  /** What `handleSearch` shows for `input` once the courses are loaded: everything for a blank
      input, otherwise the courses whose lowercased title contains the lowercased (untrimmed)
      input, in their loaded order and as often as they were loaded. */
  function SearchResult(data: seq<Record>, input: string): (r: seq<Record>)
    ensures IsBlankInput(input) ==> r == data
    ensures !IsBlankInput(input) ==>
      forall x :: x in r <==> x in data && Includes(Lower(x.course.title), Lower(input))
    ensures !IsBlankInput(input) ==>
      forall x :: multiset(r)[x] ==
        if Includes(Lower(x.course.title), Lower(input)) then multiset(data)[x] else 0
    ensures IsSubsequence(r, data)
  {
    if IsBlankInput(input) then
      SubsequenceOfItself(data);
      data
    else
      Filter(data, (x: Record) => Includes(Lower(x.course.title), Lower(input)))
  }

  /** The search is case-insensitive: two inputs that lowercase alike give the same result. */
  lemma SearchIgnoresCase(data: seq<Record>, a: string, b: string)
    requires Lower(a) == Lower(b)
    ensures SearchResult(data, a) == SearchResult(data, b)
  {
    LowerKeepsBlank(a);
    LowerKeepsBlank(b);
    if !IsBlankInput(a) {
      FilterCongruent(data, (x: Record) => Includes(Lower(x.course.title), Lower(a)),
                            (x: Record) => Includes(Lower(x.course.title), Lower(b)));
    }
  }

  /** Typing more narrows the result: every course shown after characters are appended to the
      input was shown before. */
  lemma SearchNarrows(data: seq<Record>, a: string, more: string)
    ensures forall x :: x in SearchResult(data, a + more) ==> x in SearchResult(data, a)
  {
    var b := a + more;
    if !IsBlankInput(a) {
      assert !AllWhitespace(b) by {
        var k :| 0 <= k < |a| && !IsJsWhitespace(a[k]);
        assert b[k] == a[k];
      }
      assert Lower(a) <= Lower(b)[0..];
      forall x | x in SearchResult(data, b) ensures x in SearchResult(data, a) {
        IncludesTransitive(Lower(x.course.title), Lower(b), Lower(a));
      }
    } else if !IsBlankInput(b) {
      assert forall x :: x in SearchResult(data, b) ==> x in data;
    }
  }

  /** The two buttons a course card can show. */
  datatype Button = EnrollButton | CancelButton

  /** The buttons rendered on the card of course `id`: the enroll button under
      `!courseEnrollId.includes(id)`, then the cancel button under `courseEnrollId.includes(id)`. */
  function Buttons(enrolledIds: seq<CourseId>, id: CourseId): (bs: seq<Button>)
    ensures |bs| == 1
    ensures bs[0] == CancelButton <==> id in enrolledIds
    ensures bs[0] == EnrollButton <==> id !in enrolledIds
  {
    (if id !in enrolledIds then [EnrollButton] else []) + (if id in enrolledIds then [CancelButton] else [])
  }

  /** With the caller's enrolled ids taken from the by-student listing of the table, a stored
      course shows the cancel button exactly when the caller is on its roster. */
  lemma ButtonsFollowRoster(table: map<CourseId, Course>, u: UserId, enrolled: seq<Record>, id: CourseId)
    requires Answers(table, ByStudent(u), enrolled)
    requires id in table
    ensures Buttons(EnrolledIds(enrolled), id) == [CancelButton] <==> u in table[id].students
    ensures Buttons(EnrolledIds(enrolled), id) == [EnrollButton] <==> u !in table[id].students
  {
    if u in table[id].students {
      assert Record(id, table[id]) in enrolled;
    }
  }

  class EnrollPage {
    /** `searchResult`: the courses shown, or null before anything is loaded. */
    var searchResult: Option<seq<Record>>
    /** `courseData`: every course, once loaded. */
    var courseData: Option<seq<Record>>
    /** `courseEnrollId`: the ids of the caller's enrolled courses. */
    var courseEnrollId: seq<CourseId>

    /** The initial state cells. */
    constructor ()
      ensures searchResult == None && courseData == None && courseEnrollId == []
    {
      searchResult := None;
      courseData := None;
      courseEnrollId := [];
    }

    /** The effect run when the user changes. Without a user it clears the search result and
        fetches nothing. Otherwise it asks for the user's enrolled courses, then for all courses,
        and sets the cells as each reply arrives; a rejected reply stops it, keeping what was set. */
    method LoadCourses(user: Option<Principal>, enrolledOf: UserId -> Reply<seq<Record>>,
                       all: Reply<seq<Record>>)
      modifies this
      ensures user.None? ==>
        searchResult == None && courseData == old(courseData) && courseEnrollId == old(courseEnrollId)
      ensures user.Some? && enrolledOf(user.value.id).Rejected? ==>
        searchResult == old(searchResult) && courseData == old(courseData) &&
        courseEnrollId == old(courseEnrollId)
      ensures user.Some? && enrolledOf(user.value.id).Resolved? ==>
        courseEnrollId == EnrolledIds(enrolledOf(user.value.id).data)
      ensures user.Some? && enrolledOf(user.value.id).Resolved? && all.Resolved? ==>
        courseData == Some(all.data) && searchResult == Some(all.data)
      ensures user.Some? && all.Rejected? ==>
        courseData == old(courseData) && searchResult == old(searchResult)
    {
      if user.None? {
        searchResult := None;
        return;
      }
      var enrolledResponse := enrolledOf(user.value.id);
      if enrolledResponse.Rejected? {
        return;
      }
      courseEnrollId := EnrolledIds(enrolledResponse.data);
      if all.Rejected? {
        return;
      }
      courseData := Some(all.data);
      searchResult := Some(all.data);
    }

    /** `handleSearch(input)`: nothing before the courses are loaded, otherwise the search result
        for the input. */
    method HandleSearch(input: string)
      modifies this`searchResult
      ensures courseData.None? ==> searchResult == old(searchResult)
      ensures courseData.Some? ==> searchResult == Some(SearchResult(courseData.value, input))
    {
      if courseData.None? {
        return;
      }
      searchResult := Some(SearchResult(courseData.value, input));
    }
  }
}
