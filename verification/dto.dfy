/** The REST DTOs: the task representation returned by every endpoint and
    the create request with its `@NotBlank` constraints. */
module Dto {
  import opened Wrappers
  import opened Domain

  /** `TaskResponse`: the JSON task representation. */
  datatype TaskResponse = TaskResponse(
    id: Option<int>,
    title: string,
    description: Option<string>,
    status: Status,
    createdAt: nat,
    updatedAt: nat)

  /** `TaskResponse.from`: a field-for-field copy of the task. */
  function From(t: Task): (r: TaskResponse)
    ensures r.id == t.id && r.status == t.status
    ensures r.title == t.title && r.description == t.description
    ensures r.createdAt == t.createdAt && r.updatedAt == t.updatedAt
  {
    TaskResponse(t.id, t.title, t.description, t.status, t.createdAt, t.updatedAt)
  }

  /** The representation loses nothing: distinct tasks give distinct responses. */
  lemma FromInjective(a: Task, b: Task)
    ensures From(a) == From(b) ==> a == b
  {
  }

  /** The response for a completed task reports DONE. */
  lemma FromCompleted(t: Task, now: nat)
    requires Complete(t, now).Success?
    ensures From(Complete(t, now).value).status == DONE
    ensures From(Complete(t, now).value).id == t.id
  {
  }

  /** `CreateTaskRequest`; a missing JSON member is None (Java null). */
  datatype CreateTaskRequest = CreateTaskRequest(
    title: Option<string>,
    description: Option<string>,
    userId: Option<string>)

  const TitleRequired := "Title is required"
  const UserIdRequired := "User ID is required"

  /** `String.trim` strips every character at or below U+0020 from both ends. */
  predicate Visible(c: char) {
    c > ' '
  }

  function TrimStart(s: string): string
    decreases |s|
  {
    if |s| > 0 && !Visible(s[0]) then TrimStart(s[1..]) else s
  }

  function TrimEnd(s: string): string
    decreases |s|
  {
    if |s| > 0 && !Visible(s[|s| - 1]) then TrimEnd(s[..|s| - 1]) else s
  }

  function Trim(s: string): string {
    TrimEnd(TrimStart(s))
  }

  /** `@NotBlank`: not null, and something is left after trimming. */
  predicate NotBlank(v: Option<string>) {
    v.Some? && |Trim(v.value)| > 0
  }

  ghost predicate HasVisible(s: string) {
    exists i :: 0 <= i < |s| && Visible(s[i])
  }

  lemma {:induction false} TrimEndEmpty(s: string)
    ensures |TrimEnd(s)| > 0 <==> HasVisible(s)
    decreases |s|
  {
    if |s| > 0 && !Visible(s[|s| - 1]) {
      var p := s[..|s| - 1];
      TrimEndEmpty(p);
      if HasVisible(s) {
        var i :| 0 <= i < |s| && Visible(s[i]);
        assert p[i] == s[i];
      }
      if HasVisible(p) {
        var i :| 0 <= i < |p| && Visible(p[i]);
        assert s[i] == p[i];
      }
    } else if |s| > 0 {
      assert Visible(s[|s| - 1]);
    }
  }

  lemma {:induction false} TrimStartKeepsVisible(s: string)
    ensures HasVisible(TrimStart(s)) <==> HasVisible(s)
    decreases |s|
  {
    if |s| > 0 && !Visible(s[0]) {
      var p := s[1..];
      TrimStartKeepsVisible(p);
      if HasVisible(s) {
        var i :| 0 <= i < |s| && Visible(s[i]);
        assert i > 0 && p[i - 1] == s[i];
      }
      if HasVisible(p) {
        var i :| 0 <= i < |p| && Visible(p[i]);
        assert s[i + 1] == p[i];
      }
    }
  }

  /** A value passes `@NotBlank` exactly when it is present and has a
      character above U+0020 somewhere. */
  lemma NotBlankIff(v: Option<string>)
    ensures NotBlank(v) <==> v.Some? && HasVisible(v.value)
  {
    if v.Some? {
      TrimStartKeepsVisible(v.value);
      TrimEndEmpty(TrimStart(v.value));
    }
  }

  /** The constraint messages bean validation reports for a request. */
  function Violations(req: CreateTaskRequest): (v: set<string>)
    ensures TitleRequired in v <==> !NotBlank(req.title)
    ensures UserIdRequired in v <==> !NotBlank(req.userId)
    ensures v <= {TitleRequired, UserIdRequired}
  {
    (if NotBlank(req.title) then {} else {TitleRequired})
    + (if NotBlank(req.userId) then {} else {UserIdRequired})
  }

  predicate IsValid(req: CreateTaskRequest) {
    Violations(req) == {}
  }

  /** A request is valid exactly when title and userId are both present and
      not blank; the description, null or empty included, never matters. */
  lemma IsValidIff(req: CreateTaskRequest, description: Option<string>)
    ensures IsValid(req) <==>
      && req.title.Some? && HasVisible(req.title.value)
      && req.userId.Some? && HasVisible(req.userId.value)
    ensures IsValid(req) == IsValid(req.(description := description))
  {
    NotBlankIff(req.title);
    NotBlankIff(req.userId);
    if IsValid(req) {
      assert TitleRequired !in Violations(req);
    }
  }
}
