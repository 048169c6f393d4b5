/**
 * The course service: a table of courses keyed by document id, next to the
 * set of ids of the activity documents that exist. Every operation looks a
 * document up, changes it and writes it back, so the service is a class whose
 * methods reassign the table.
 */
module Courses {
  import opened Wrappers
  import opened Http

  /** A stored course document (the `_id` is its key in the table). */
  datatype Course = Course(
    title: string,
    description: string,
    activities: seq<string>,
    created_at: string,
    created_by: string,
    image: string)

  /** A request body: every field a client may or may not send. */
  datatype CourseData = CourseData(
    title: Option<string>,
    description: Option<string>,
    activities: Option<seq<string>>,
    created_at: Option<string>,
    created_by: Option<string>,
    image: Option<string>)

  /** No id occurs twice in the list. */
  predicate NoDuplicates(s: seq<string>) {
    forall i, j :: 0 <= i < j < |s| ==> s[i] != s[j]
  }

  /** `list.filter(a => a != x)`: every occurrence of `x` dropped, the rest kept in order. */
  function Without(s: seq<string>, x: string): (r: seq<string>)
    ensures x !in r
    ensures forall y :: y != x ==> (y in r <==> y in s)
    ensures |r| <= |s|
  {
    if s == [] then []
    else (if s[0] == x then [] else [s[0]]) + Without(s[1..], x)
  }

  lemma {:induction false} WithoutAbsent(s: seq<string>, x: string)
    requires x !in s
    ensures Without(s, x) == s
  {
    if s != [] {
      WithoutAbsent(s[1..], x);
    }
  }

  /** Removing an id a second time changes nothing. */
  lemma WithoutIdempotent(s: seq<string>, x: string)
    ensures Without(Without(s, x), x) == Without(s, x)
  {
    WithoutAbsent(Without(s, x), x);
  }

  lemma {:induction false} WithoutConcat(a: seq<string>, b: seq<string>, x: string)
    ensures Without(a + b, x) == Without(a, x) + Without(b, x)
  {
    if a == [] {
      assert a + b == b;
    } else {
      assert (a + b)[1..] == a[1..] + b;
      WithoutConcat(a[1..], b, x);
    }
  }

  /** Every occurrence of every other id survives: the multiset loses exactly the copies of `x`. */
  lemma {:induction false} WithoutMultiset(s: seq<string>, x: string)
    ensures multiset(Without(s, x)) == multiset(s)[x := 0]
  {
    if s != [] {
      WithoutMultiset(s[1..], x);
      assert s == [s[0]] + s[1..];
    }
  }

  /**
   * Where an element that is not `x` ends up: it is preceded in the result
   * exactly by the kept elements that preceded it in `s`.
   */
  lemma WithoutPosition(s: seq<string>, x: string, i: int)
    requires 0 <= i < |s| && s[i] != x
    ensures |Without(s[..i], x)| < |Without(s, x)|
    ensures Without(s, x)[|Without(s[..i], x)|] == s[i]
  {
    assert s == s[..i] + ([s[i]] + s[i + 1..]);
    WithoutConcat(s[..i], [s[i]] + s[i + 1..], x);
    assert ([s[i]] + s[i + 1..])[1..] == s[i + 1..];
  }

  /** Kept entries keep their relative order. */
  lemma WithoutKeepsOrder(s: seq<string>, x: string, i: int, j: int)
    requires 0 <= i < j < |s| && s[i] != x && s[j] != x
    ensures exists p, q :: 0 <= p < q < |Without(s, x)| && Without(s, x)[p] == s[i] && Without(s, x)[q] == s[j]
  {
    WithoutPosition(s, x, i);
    WithoutPosition(s, x, j);
    assert s[..j] == s[..i] + ([s[i]] + s[i + 1..j]);
    WithoutConcat(s[..i], [s[i]] + s[i + 1..j], x);
    assert ([s[i]] + s[i + 1..j])[1..] == s[i + 1..j];
    var p, q := |Without(s[..i], x)|, |Without(s[..j], x)|;
    assert p < q;
  }

  lemma {:induction false} WithoutKeepsNoDuplicates(s: seq<string>, x: string)
    requires NoDuplicates(s)
    ensures NoDuplicates(Without(s, x))
  {
    if s != [] {
      WithoutKeepsNoDuplicates(s[1..], x);
      assert s[0] !in s[1..];
    }
  }

  /** Removing an id that was just appended to a list not holding it gives the list back. */
  lemma RemoveUndoesAppend(s: seq<string>, x: string)
    requires x !in s
    ensures Without(s + [x], x) == s
  {
    WithoutConcat(s, [x], x);
    WithoutAbsent(s, x);
    assert Without([x], x) == [];
  }

  /** Appending an id that is not yet listed keeps the list duplicate-free. */
  lemma AppendFreshKeepsNoDuplicates(s: seq<string>, x: string)
    requires NoDuplicates(s) && x !in s
    ensures NoDuplicates(s + [x])
  {
  }

  /**
   * The document built from a body on creation. The authorship fields are set
   * after the body is copied, so the caller's id and the clock win over
   * whatever the body says.
   */
  function NewCourse(data: CourseData, createdBy: string, now: string): (c: Course)
    ensures c.created_by == createdBy && c.created_at == now
  {
    Course(
      data.title.GetOr(""),
      data.description.GetOr(""),
      data.activities.GetOr([]),
      now,
      createdBy,
      data.image.GetOr(""))
  }

  /** A body cannot choose its own author or creation time. */
  lemma NewCourseIgnoresBodyAuthorship(data: CourseData, createdBy: string, now: string,
                                       claimedAt: Option<string>, claimedBy: Option<string>)
    ensures NewCourse(data.(created_at := claimedAt, created_by := claimedBy), createdBy, now)
         == NewCourse(data, createdBy, now)
  {
  }

  /** The stored document after an update: every field the body carries replaces the stored one. */
  function Merge(c: Course, data: CourseData): (m: Course)
    ensures m.title == (if data.title.Some? then data.title.value else c.title)
    ensures m.description == (if data.description.Some? then data.description.value else c.description)
    ensures m.activities == (if data.activities.Some? then data.activities.value else c.activities)
    ensures m.created_at == (if data.created_at.Some? then data.created_at.value else c.created_at)
    ensures m.created_by == (if data.created_by.Some? then data.created_by.value else c.created_by)
    ensures m.image == (if data.image.Some? then data.image.value else c.image)
  {
    Course(
      data.title.GetOr(c.title),
      data.description.GetOr(c.description),
      data.activities.GetOr(c.activities),
      data.created_at.GetOr(c.created_at),
      data.created_by.GetOr(c.created_by),
      data.image.GetOr(c.image))
  }

  /** Sending the same update body twice stores the same document as sending it once. */
  lemma MergeIdempotent(c: Course, data: CourseData)
    ensures Merge(Merge(c, data), data) == Merge(c, data)
  {
  }

  /** An update whose body carries no list leaves the list as it was. */
  lemma MergeKeepsActivities(c: Course, data: CourseData)
    requires data.activities.None?
    ensures Merge(c, data).activities == c.activities
    ensures NoDuplicates(c.activities) ==> NoDuplicates(Merge(c, data).activities)
  {
  }

  class CourseService {
    /** The course collection. */
    var courses: map<string, Course>
    /** Ids of the activity documents that exist (the activity collection). */
    var activities: set<string>

    ghost predicate ListsDuplicateFree()
      reads this
    {
      forall id :: id in courses ==> NoDuplicates(courses[id].activities)
    }

    constructor (courses: map<string, Course>, activities: set<string>)
      ensures this.courses == courses && this.activities == activities
    {
      this.courses := courses;
      this.activities := activities;
    }

    /** Stores a new course under the fresh id the database hands out. */
    method CreateCourse(data: CourseData, createdBy: string, now: string, id: string) returns (c: Course)
      requires id !in courses
      modifies this
      ensures c.created_by == createdBy && c.created_at == now
      ensures c.title == data.title.GetOr("") && c.description == data.description.GetOr("")
      ensures c.activities == data.activities.GetOr([]) && c.image == data.image.GetOr("")
      ensures courses == old(courses)[id := c] && activities == old(activities)
    {
      c := NewCourse(data, createdBy, now);
      courses := courses[id := c];
    }

    method AddActivityToCourse(courseId: string, activityId: string) returns (r: Result<Course, Error>)
      modifies this
      ensures activities == old(activities)
      ensures courseId !in old(courses) ==>
        r == Failure(HttpException(NotFound)) && courses == old(courses)
      ensures courseId in old(courses) && activityId !in activities ==>
        r == Failure(HttpException(NotFound)) && courses == old(courses)
      ensures courseId in old(courses) && activityId in activities ==>
        var was := old(courses)[courseId];
        && r == Success(was.(activities := was.activities + [activityId]))
        && courses == old(courses)[courseId := r.value]
    {
      if courseId !in courses {
        return Failure(HttpException(NotFound));
      }
      var course := courses[courseId];
      if activityId !in activities {
        return Failure(HttpException(NotFound));
      }
      course := course.(activities := course.activities + [activityId]);
      courses := courses[courseId := course];
      r := Success(course);
    }

    method GetCourseById(id: string) returns (r: Option<Course>)
      ensures r.Some? <==> id in courses
      ensures r.Some? ==> r.value == courses[id]
    {
      r := if id in courses then Some(courses[id]) else None;
    }

    method UpdateCourseById(id: string, data: CourseData) returns (r: Result<Course, Error>)
      modifies this
      ensures activities == old(activities)
      ensures id !in old(courses) ==> r == Failure(HttpException(NotFound)) && courses == old(courses)
      ensures id in old(courses) ==>
        && r == Success(Merge(old(courses)[id], data))
        && courses == old(courses)[id := r.value]
    {
      if id !in courses {
        return Failure(HttpException(NotFound));
      }
      var updated := Merge(courses[id], data);
      courses := courses[id := updated];
      r := Success(updated);
    }

    /**
     * Removes the course, then runs the cascade over the activity collection.
     * `cascaded` is the set of activity ids the cascade's filter on a `course`
     * field matches. The activity schema declares no such field, so that set
     * depends on how the database treats a filter on an undeclared path, and
     * the caller supplies it. A missing course throws before the cascade runs.
     */
    method DeleteCourseById(id: string, cascaded: set<string>) returns (r: Result<Course, Error>)
      modifies this
      ensures id !in old(courses) ==>
        r == Failure(HttpException(NotFound)) && courses == old(courses) && activities == old(activities)
      ensures id in old(courses) ==>
        && r == Success(old(courses)[id])
        && courses == old(courses) - {id}
        && activities == old(activities) - cascaded
    {
      if id !in courses {
        return Failure(HttpException(NotFound));
      }
      r := Success(courses[id]);
      courses := courses - {id};
      activities := activities - cascaded;
    }

    method RemoveActivityFromCourse(courseId: string, activityId: string) returns (r: Result<Course, Error>)
      modifies this
      ensures activities == old(activities)
      ensures courseId !in old(courses) ==>
        r == Failure(HttpException(NotFound)) && courses == old(courses)
      ensures courseId in old(courses) && activityId !in activities ==>
        r == Failure(HttpException(NotFound)) && courses == old(courses)
      ensures courseId in old(courses) && activityId in activities ==>
        var was := old(courses)[courseId];
        && r == Success(was.(activities := Without(was.activities, activityId)))
        && courses == old(courses)[courseId := r.value]
    {
      if courseId !in courses {
        return Failure(HttpException(NotFound));
      }
      var course := courses[courseId];
      if activityId !in activities {
        return Failure(HttpException(NotFound));
      }
      course := course.(activities := Without(course.activities, activityId));
      courses := courses[courseId := course];
      r := Success(course);
    }
  }
}
