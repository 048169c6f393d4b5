/**
 * The course controller: the Authorization-header parsing, the admin-role
 * test, and each handler's order of checks over the shared course service.
 * The identity provider's two HTTP calls (userinfo and the roles listing) are
 * functions handed in by the caller.
 */
module CourseApi {
  import opened Wrappers
  import opened Http
  import opened Courses

  // ---------------------------------------------------------------------------
  // Bearer token extraction

  /** `s.split(' ')`: the maximal runs between single spaces, empty runs included. */
  function Split(s: string): (parts: seq<string>)
    ensures |parts| >= 1
    ensures forall i :: 0 <= i < |parts| ==> ' ' !in parts[i]
  {
    if |s| == 0 then [""]
    else if s[0] == ' ' then [""] + Split(s[1..])
    else
      var rest := Split(s[1..]);
      [[s[0]] + rest[0]] + rest[1..]
  }

  /** `parts.join(' ')`. */
  function Join(parts: seq<string>): string
    requires |parts| >= 1
  {
    if |parts| == 1 then parts[0] else parts[0] + " " + Join(parts[1..])
  }

  /** Splitting loses nothing: joining the parts gives the header back. */
  lemma {:induction false} JoinSplit(s: string)
    ensures Join(Split(s)) == s
  {
    if |s| == 0 {
    } else if s[0] == ' ' {
      JoinSplit(s[1..]);
      assert ([""] + Split(s[1..]))[1..] == Split(s[1..]);
    } else {
      JoinSplit(s[1..]);
      var rest := Split(s[1..]);
      var parts := [[s[0]] + rest[0]] + rest[1..];
      assert Split(s) == parts;
      if |rest| == 1 {
        assert Join(parts) == [s[0]] + rest[0];
      } else {
        assert parts[1..] == rest[1..];
        assert Join(parts) == [s[0]] + (rest[0] + " " + Join(rest[1..]));
      }
      assert s == [s[0]] + s[1..];
    }
  }

  /** A word without spaces is a single part. */
  lemma {:induction false} SplitWord(w: string)
    requires ' ' !in w
    ensures Split(w) == [w]
  {
    if |w| > 0 {
      assert w[1..] == w[1..] && ' ' !in w[1..];
      SplitWord(w[1..]);
      assert [w[0]] + w[1..] == w;
    }
  }

  /** A leading word followed by a space is the first part; the rest is split on its own. */
  lemma {:induction false} SplitFirstWord(w: string, rest: string)
    requires ' ' !in w
    ensures Split(w + " " + rest) == [w] + Split(rest)
  {
    if |w| == 0 {
      assert w + " " + rest == [' '] + rest;
      assert ([' '] + rest)[1..] == rest;
    } else {
      var s := w + " " + rest;
      assert s[1..] == w[1..] + " " + rest;
      assert ' ' !in w[1..];
      SplitFirstWord(w[1..], rest);
      assert [w[0]] + w[1..] == w;
    }
  }

  /**
   * Splits the header on single spaces and yields the second part when the
   * first is exactly `Bearer`. A missing header or a one-part header gives
   * `undefined` (None).
   */
  function ExtractTokenFromHeader(authorization: Option<string>): (token: Option<string>)
    ensures authorization.None? ==> token.None?
    ensures token.Some? ==> ' ' !in token.value
  {
    match authorization
    case None => None
    case Some(h) =>
      var parts := Split(h);
      if parts[0] == "Bearer" && |parts| >= 2 then Some(parts[1]) else None
  }

  /** `Bearer <t>` and `Bearer <t> <anything>` both yield `t`: only the first two parts are read. */
  lemma ExtractBearerToken(t: string, rest: string)
    requires ' ' !in t
    ensures ExtractTokenFromHeader(Some("Bearer " + t)) == Some(t)
    ensures ExtractTokenFromHeader(Some("Bearer " + t + " " + rest)) == Some(t)
  {
    SplitWord(t);
    SplitFirstWord("Bearer", t);
    assert "Bearer " + t == "Bearer" + " " + t;
    SplitFirstWord("Bearer", t + " " + rest);
    SplitFirstWord(t, rest);
    assert "Bearer " + t + " " + rest == "Bearer" + " " + (t + " " + rest);
  }

  /** Any first word other than exactly `Bearer` (case-sensitive) gives no token. */
  lemma ExtractOtherScheme(w: string, rest: string)
    requires ' ' !in w && w != "Bearer"
    ensures ExtractTokenFromHeader(Some(w)) == None
    ensures ExtractTokenFromHeader(Some(w + " " + rest)) == None
  {
    SplitWord(w);
    SplitFirstWord(w, rest);
  }

  /** Only the first two parts are read; `bearer` is not `Bearer`. */
  lemma ExtractExamples()
    ensures ExtractTokenFromHeader(Some("Bearer a b")) == Some("a")
    ensures ExtractTokenFromHeader(Some("bearer a")) == None
  {
    ExtractBearerToken("a", "b");
    assert "Bearer a b" == "Bearer " + "a" + " " + "b";
    ExtractOtherScheme("bearer", "a");
    assert "bearer a" == "bearer" + " " + "a";
  }

  /**
   * The converse: a token comes out only of a header that is `Bearer`, one
   * space, the token (itself free of spaces), and then nothing or a space and more.
   */
  lemma ExtractedTokenShape(h: string, t: string)
    requires ExtractTokenFromHeader(Some(h)) == Some(t)
    ensures ' ' !in t
    ensures h == "Bearer " + t || exists rest :: h == "Bearer " + t + " " + rest
  {
    var parts := Split(h);
    JoinSplit(h);
    assert parts[0] == "Bearer" && parts[1] == t;
    assert Join(parts) == "Bearer" + " " + Join(parts[1..]);
    assert parts[1..][0] == t;
    if |parts| == 2 {
      assert h == "Bearer " + t;
    } else {
      assert parts[1..][1..] == parts[2..];
      var rest := Join(parts[2..]);
      assert Join(parts[1..]) == t + " " + rest;
      assert h == "Bearer " + t + " " + rest;
    }
  }

  // ---------------------------------------------------------------------------
  // Admin check

  /** An entry of the identity provider's role listing. */
  datatype Role = Role(name: string)

  /** `roles.some(role => role.name === "admin")`. */
  function HasAdminRole(roles: seq<Role>): (r: bool)
    ensures r <==> exists i :: 0 <= i < |roles| && roles[i].name == "admin"
  {
    |roles| > 0 && (roles[0].name == "admin" || HasAdminRole(roles[1..]))
  }

  /**
   * The identity provider's two calls: `userinfo` maps the extracted token
   * (possibly `undefined`) to the user's `sub`, None when the call fails;
   * `roles` lists the roles of a `sub`, None when that call fails.
   */
  datatype IdentityProvider = IdentityProvider(
    userinfo: Option<string> -> Option<string>,
    roles: string -> Option<seq<Role>>)

  /**
   * The three steps that open every mutating handler: extract the token, fetch
   * the user (a failure becomes 404), fetch the roles (a failure is not an
   * HttpException) and demand an admin role (403). Yields the user's `sub`.
   */
  function Authorize(authorization: Option<string>, idp: IdentityProvider): (r: Result<string, Error>)
    ensures r.Success? <==>
      && idp.userinfo(ExtractTokenFromHeader(authorization)).Some?
      && var roles := idp.roles(idp.userinfo(ExtractTokenFromHeader(authorization)).value);
      && roles.Some?
      && exists role :: role in roles.value && role.name == "admin"
    ensures r.Success? ==> idp.userinfo(ExtractTokenFromHeader(authorization)) == Some(r.value)
    ensures idp.userinfo(ExtractTokenFromHeader(authorization)).None? ==> r == Failure(HttpException(NotFound))
    ensures r == Failure(HttpException(Forbidden)) <==>
      && idp.userinfo(ExtractTokenFromHeader(authorization)).Some?
      && var roles := idp.roles(idp.userinfo(ExtractTokenFromHeader(authorization)).value);
      && roles.Some?
      && forall role :: role in roles.value ==> role.name != "admin"
    ensures idp.userinfo(ExtractTokenFromHeader(authorization)).Some?
            && idp.roles(idp.userinfo(ExtractTokenFromHeader(authorization)).value).None? ==>
      r == Failure(OtherError)
  {
    var token := ExtractTokenFromHeader(authorization);
    match idp.userinfo(token)
    case None => Failure(HttpException(NotFound))
    case Some(sub) =>
      match idp.roles(sub)
      case None => Failure(OtherError)
      case Some(roles) =>
        if HasAdminRole(roles) then Success(sub) else Failure(HttpException(Forbidden))
  }

  /** The handlers' title test: a missing title counts the same as an empty one. */
  function MissingTitle(data: CourseData): (r: bool)
    ensures r <==> data.title.GetOr("") == ""
  {
    data.title.None? || data.title.value == ""
  }

  // ---------------------------------------------------------------------------
  // Handlers

  /**
   * The controller; the activity service's `getActivityById` reads the same
   * activity collection as the course service, so both are `service`.
   * A handler returns the success status or the status it throws.
   */
  class CourseController {
    const service: CourseService

    constructor (service: CourseService)
      ensures this.service == service
    {
      this.service := service;
    }

    method CreateCourse(authorization: Option<string>, idp: IdentityProvider, data: CourseData,
                        now: string, id: string) returns (r: Result<HttpStatus, HttpStatus>)
      requires id !in service.courses
      modifies service
      ensures var auth := Authorize(authorization, idp);
        && (auth.Failure? ==>
              r == Failure(Rethrow(auth.error)) && service.courses == old(service.courses))
        && (auth.Success? && MissingTitle(data) ==>
              r == Failure(BadRequest) && service.courses == old(service.courses))
        && (auth.Success? && !MissingTitle(data) ==>
              && r == Success(Created)
              && service.courses == old(service.courses)[id := NewCourse(data, auth.value, now)])
      ensures service.activities == old(service.activities)
      ensures old(service.ListsDuplicateFree()) && NoDuplicates(data.activities.GetOr([])) ==>
        service.ListsDuplicateFree()
      ensures Authorize(authorization, idp).Success? && !MissingTitle(data)
              && !NoDuplicates(data.activities.GetOr([])) ==>
        !service.ListsDuplicateFree()
    {
      var auth := Authorize(authorization, idp);
      if auth.Failure? {
        return Failure(Rethrow(auth.error));
      }
      if MissingTitle(data) {
        return Failure(BadRequest);
      }
      var _ := service.CreateCourse(data, auth.value, now, id);
      assert id in service.courses && service.courses[id].activities == data.activities.GetOr([]);
      r := Success(Created);
    }

    /**
     * Course exists (404), activity not already listed (400), activity exists
     * (404), then the service appends it.
     */
    method AddActivityToCourse(authorization: Option<string>, idp: IdentityProvider,
                               courseId: string, activityId: string) returns (r: Result<HttpStatus, HttpStatus>)
      modifies service
      ensures service.activities == old(service.activities)
      ensures var auth := Authorize(authorization, idp);
        && (auth.Failure? ==>
              r == Failure(Rethrow(auth.error)) && service.courses == old(service.courses))
        && (auth.Success? && courseId !in old(service.courses) ==>
              r == Failure(NotFound) && service.courses == old(service.courses))
        && (auth.Success? && courseId in old(service.courses)
            && activityId in old(service.courses)[courseId].activities ==>
              r == Failure(BadRequest) && service.courses == old(service.courses))
        && (auth.Success? && courseId in old(service.courses)
            && activityId !in old(service.courses)[courseId].activities
            && activityId !in service.activities ==>
              r == Failure(NotFound) && service.courses == old(service.courses))
        && (auth.Success? && courseId in old(service.courses)
            && activityId !in old(service.courses)[courseId].activities
            && activityId in service.activities ==>
              var was := old(service.courses)[courseId];
              && r == Success(Ok)
              && service.courses == old(service.courses)[courseId := was.(activities := was.activities + [activityId])])
      ensures old(service.ListsDuplicateFree()) ==> service.ListsDuplicateFree()
    {
      var auth := Authorize(authorization, idp);
      if auth.Failure? {
        return Failure(Rethrow(auth.error));
      }
      var course := service.GetCourseById(courseId);
      if course.None? {
        return Failure(NotFound);
      }
      if activityId in course.value.activities {
        return Failure(BadRequest);
      }
      if activityId !in service.activities {
        return Failure(NotFound);
      }
      var added := service.AddActivityToCourse(courseId, activityId);
      if NoDuplicates(course.value.activities) {
        AppendFreshKeepsNoDuplicates(course.value.activities, activityId);
      }
      r := Success(Ok);
    }

    method GetCourseById(id: string) returns (r: Result<Course, HttpStatus>)
      ensures id !in service.courses ==> r == Failure(NotFound)
      ensures id in service.courses ==> r == Success(service.courses[id])
    {
      var course := service.GetCourseById(id);
      if course.None? {
        return Failure(NotFound);
      }
      r := Success(course.value);
    }

    /**
     * One lookup per listed id, in list order; an id whose activity document
     * is gone contributes a `null` (None) entry.
     */
    method GetActivitiesByCourseId(id: string) returns (r: Result<seq<Option<string>>, HttpStatus>)
      ensures id !in service.courses ==> r == Failure(NotFound)
      ensures id in service.courses ==>
        && r.Success?
        && |r.value| == |service.courses[id].activities|
        && forall i :: 0 <= i < |r.value| ==>
             var a := service.courses[id].activities[i];
             r.value[i] == (if a in service.activities then Some(a) else None)
    {
      var course := service.GetCourseById(id);
      if course.None? {
        return Failure(NotFound);
      }
      var ids := course.value.activities;
      var found: seq<Option<string>> := [];
      for k := 0 to |ids|
        invariant |found| == k
        invariant forall i :: 0 <= i < k ==>
          found[i] == (if ids[i] in service.activities then Some(ids[i]) else None)
      {
        var activity := if ids[k] in service.activities then Some(ids[k]) else None;
        found := found + [activity];
      }
      r := Success(found);
    }

    /** Course exists (404) before the title is checked (400). */
    method UpdateCourseById(authorization: Option<string>, idp: IdentityProvider, id: string,
                            data: CourseData) returns (r: Result<HttpStatus, HttpStatus>)
      modifies service
      ensures service.activities == old(service.activities)
      ensures var auth := Authorize(authorization, idp);
        && (auth.Failure? ==>
              r == Failure(Rethrow(auth.error)) && service.courses == old(service.courses))
        && (auth.Success? && id !in old(service.courses) ==>
              r == Failure(NotFound) && service.courses == old(service.courses))
        && (auth.Success? && id in old(service.courses) && MissingTitle(data) ==>
              r == Failure(BadRequest) && service.courses == old(service.courses))
        && (auth.Success? && id in old(service.courses) && !MissingTitle(data) ==>
              && r == Success(Ok)
              && service.courses == old(service.courses)[id := Merge(old(service.courses)[id], data)])
      ensures old(service.ListsDuplicateFree()) && (data.activities.None? || NoDuplicates(data.activities.value)) ==>
        service.ListsDuplicateFree()
      ensures Authorize(authorization, idp).Success? && id in old(service.courses) && !MissingTitle(data)
              && data.activities.Some? && !NoDuplicates(data.activities.value) ==>
        !service.ListsDuplicateFree()
    {
      var auth := Authorize(authorization, idp);
      if auth.Failure? {
        return Failure(Rethrow(auth.error));
      }
      var course := service.GetCourseById(id);
      if course.None? {
        return Failure(NotFound);
      }
      if MissingTitle(data) {
        return Failure(BadRequest);
      }
      var _ := service.UpdateCourseById(id, data);
      assert id in service.courses && service.courses[id].activities == data.activities.GetOr(course.value.activities);
      r := Success(Ok);
    }

    /** `cascaded`: the activity ids the service's cascade removes (see the service). */
    method DeleteCourseById(authorization: Option<string>, idp: IdentityProvider, id: string,
                            cascaded: set<string>) returns (r: Result<HttpStatus, HttpStatus>)
      modifies service
      ensures var auth := Authorize(authorization, idp);
        && (auth.Failure? ==>
              && r == Failure(Rethrow(auth.error))
              && service.courses == old(service.courses) && service.activities == old(service.activities))
        && (auth.Success? && id !in old(service.courses) ==>
              && r == Failure(NotFound)
              && service.courses == old(service.courses) && service.activities == old(service.activities))
        && (auth.Success? && id in old(service.courses) ==>
              && r == Success(Ok)
              && service.courses == old(service.courses) - {id}
              && service.activities == old(service.activities) - cascaded)
      ensures old(service.ListsDuplicateFree()) ==> service.ListsDuplicateFree()
    {
      var auth := Authorize(authorization, idp);
      if auth.Failure? {
        return Failure(Rethrow(auth.error));
      }
      var course := service.GetCourseById(id);
      if course.None? {
        return Failure(NotFound);
      }
      var _ := service.DeleteCourseById(id, cascaded);
      r := Success(Ok);
    }

    /** The controller checks only the course; the service then checks the activity as well. */
    method RemoveActivityFromCourse(authorization: Option<string>, idp: IdentityProvider,
                                    courseId: string, activityId: string) returns (r: Result<HttpStatus, HttpStatus>)
      modifies service
      ensures service.activities == old(service.activities)
      ensures var auth := Authorize(authorization, idp);
        && (auth.Failure? ==>
              r == Failure(Rethrow(auth.error)) && service.courses == old(service.courses))
        && (auth.Success? && courseId !in old(service.courses) ==>
              r == Failure(NotFound) && service.courses == old(service.courses))
        && (auth.Success? && courseId in old(service.courses) && activityId !in service.activities ==>
              r == Failure(NotFound) && service.courses == old(service.courses))
        && (auth.Success? && courseId in old(service.courses) && activityId in service.activities ==>
              var was := old(service.courses)[courseId];
              && r == Success(Ok)
              && courseId in service.courses
              && activityId !in service.courses[courseId].activities
              && service.courses == old(service.courses)[courseId := was.(activities := Without(was.activities, activityId))])
      ensures old(service.ListsDuplicateFree()) ==> service.ListsDuplicateFree()
    {
      var auth := Authorize(authorization, idp);
      if auth.Failure? {
        return Failure(Rethrow(auth.error));
      }
      var course := service.GetCourseById(courseId);
      if course.None? {
        return Failure(NotFound);
      }
      var removed := service.RemoveActivityFromCourse(courseId, activityId);
      if removed.Failure? {
        return Failure(Rethrow(removed.error));
      }
      if NoDuplicates(course.value.activities) {
        WithoutKeepsNoDuplicates(course.value.activities, activityId);
      }
      r := Success(Ok);
    }
  }
}
