/**
 * Where the back button of a page leads: an ordered list of path rules,
 * the first that applies wins; pages without a rule have no back button.
 */
module BackButton {
  import opened Wrappers

  /** A path segment, `[^/]+`: non-empty and without a slash. */
  predicate IsSegment(s: string) {
    |s| > 0 && '/' !in s
  }

  const GOALS_PREFIX: string := "/goals/"

  /** `/^\/goals\/[^/]+SUFFIX$/.test(path)`, read off the path by slicing. */
  predicate MatchesGoalPath(path: string, suffix: string) {
    && |path| >= |GOALS_PREFIX| + |suffix|
    && path[..|GOALS_PREFIX|] == GOALS_PREFIX
    && path[|path| - |suffix|..] == suffix
    && IsSegment(path[|GOALS_PREFIX|..|path| - |suffix|])
  }

  /** The path built from a goal segment and a suffix. */
  function GoalPath(seg: string, suffix: string): string {
    GOALS_PREFIX + seg + suffix
  }

  /** The pattern test agrees with the constructive reading "prefix, one segment, suffix". */
  lemma MatchesGoalPathIff(path: string, suffix: string)
    ensures MatchesGoalPath(path, suffix) <==> exists seg :: IsSegment(seg) && path == GoalPath(seg, suffix)
  {
    if MatchesGoalPath(path, suffix) {
      var seg := path[|GOALS_PREFIX|..|path| - |suffix|];
      assert path == path[..|GOALS_PREFIX|] + seg + path[|path| - |suffix|..];
      assert path == GoalPath(seg, suffix);
    }
    if exists seg :: IsSegment(seg) && path == GoalPath(seg, suffix) {
      var seg :| IsSegment(seg) && path == GoalPath(seg, suffix);
      GoalPathParts(seg, suffix);
    }
  }

  lemma GoalPathParts(seg: string, suffix: string)
    ensures var path := GoalPath(seg, suffix);
      && |path| == |GOALS_PREFIX| + |seg| + |suffix|
      && path[..|GOALS_PREFIX|] == GOALS_PREFIX
      && path[|path| - |suffix|..] == suffix
      && path[|GOALS_PREFIX|..|path| - |suffix|] == seg
  {}

  /** `searchParams.get(key)`: the first value given for `key`, if any. */
  function GetParam(params: seq<(string, string)>, key: string): (r: Option<string>)
    ensures r.Some? ==> exists i :: 0 <= i < |params| && params[i] == (key, r.value) && forall j :: 0 <= j < i ==> params[j].0 != key
    ensures r.None? ==> forall i :: 0 <= i < |params| ==> params[i].0 != key
  {
    if params == [] then None
    else if params[0].0 == key then Some(params[0].1)
    else
      var r := GetParam(params[1..], key);
      assert forall i :: 1 <= i < |params| ==> params[i] == params[1..][i - 1];
      r
  }

  /** Where a goal detail page leads back to, given its `from` parameter. */
  function DetailBack(from: Option<string>): (r: string)
    ensures r == "/me/goals" <==> from == Some("me")
    ensures r == "/goals" <==> from == Some("goals")
    ensures r == "/home" <==> from != Some("me") && from != Some("goals")
  {
    if from == Some("me") then "/me/goals" else if from == Some("goals") then "/goals" else "/home"
  }

  /** The pages a back button can lead to. */
  predicate IsBackTarget(t: string) {
    t == "/goals" || t == "/me/goals" || t == "/home" || t == "/reflect" || t == "/me"
  }

  /** `getBack(pathname, searchParams)`. */
  function GetBack(pathname: string, params: seq<(string, string)>): (r: Option<string>)
    ensures r.Some? ==> IsBackTarget(r.value)
  {
    if pathname == "/goals/new" then Some("/goals")
    else if MatchesGoalPath(pathname, "/edit") then Some("/goals")
    else if MatchesGoalPath(pathname, "/view") || MatchesGoalPath(pathname, "") then
      Some(DetailBack(GetParam(params, "from")))
    else if pathname == "/reflect/write" then Some("/reflect")
    else if pathname == "/reflect/prompts" then Some("/reflect")
    else if pathname == "/me/goals" then Some("/me")
    else if pathname == "/me/reflections" then Some("/me")
    else if pathname == "/me/settings" then Some("/me")
    else None
  }

  /** The new-goal page leads to the goal list, whatever `from` says, although it also fits the detail pattern. */
  lemma NewGoalLeadsToGoals(params: seq<(string, string)>)
    ensures MatchesGoalPath("/goals/new", "")
    ensures GetBack("/goals/new", params) == Some("/goals")
  {
    GoalPathParts("new", "");
    assert GoalPath("new", "") == "/goals/new";
  }

  /** A goal's edit page leads to the goal list. */
  lemma EditLeadsToGoals(seg: string, params: seq<(string, string)>)
    requires IsSegment(seg)
    ensures GetBack(GoalPath(seg, "/edit"), params) == Some("/goals")
  {
    GoalPathParts(seg, "/edit");
  }

  /** A goal's detail or view page leads back to where it was opened from. */
  lemma DetailLeadsBackToOrigin(seg: string, suffix: string, params: seq<(string, string)>)
    requires IsSegment(seg)
    requires suffix == "" || suffix == "/view"
    requires suffix == "" ==> seg != "new"
    ensures GetBack(GoalPath(seg, suffix), params) == Some(DetailBack(GetParam(params, "from")))
  {
    var path := GoalPath(seg, suffix);
    GoalPathParts(seg, suffix);
    assert path != "/goals/new" by {
      if suffix == "" { assert path[7..] == seg; } else { assert |path| > 10; }
    }
    DetailIsNotEdit(seg, suffix);
    assert MatchesGoalPath(path, suffix);
  }

  lemma DetailIsNotEdit(seg: string, suffix: string)
    requires IsSegment(seg)
    requires suffix == "" || suffix == "/view"
    ensures !MatchesGoalPath(GoalPath(seg, suffix), "/edit")
  {
    var path := GoalPath(seg, suffix);
    GoalPathParts(seg, suffix);
    if |path| >= 12 {
      if suffix == "/view" {
        assert path[|path| - 5..][1] == 'v';
      } else {
        assert path[|path| - 5..][0] == seg[|seg| - 5];
        assert seg[|seg| - 5] in seg;
      }
    }
  }

  lemma DetailExamples(seg: string)
    requires IsSegment(seg) && seg != "new"
    ensures GetBack(GoalPath(seg, ""), [("from", "me")]) == Some("/me/goals")
    ensures GetBack(GoalPath(seg, "/view"), [("from", "goals")]) == Some("/goals")
    ensures GetBack(GoalPath(seg, ""), []) == Some("/home")
    ensures GetBack(GoalPath(seg, ""), [("from", "elsewhere")]) == Some("/home")
    ensures GetBack(GoalPath(seg, ""), [("from", "me"), ("from", "goals")]) == Some("/me/goals")
    ensures GetBack("/goals/new/view", [("from", "goals")]) == Some("/goals")
  {
    DetailLeadsBackToOrigin(seg, "", [("from", "me")]);
    DetailLeadsBackToOrigin(seg, "/view", [("from", "goals")]);
    DetailLeadsBackToOrigin(seg, "", []);
    DetailLeadsBackToOrigin(seg, "", [("from", "elsewhere")]);
    DetailLeadsBackToOrigin(seg, "", [("from", "me"), ("from", "goals")]);
    DetailLeadsBackToOrigin("new", "/view", [("from", "goals")]);
    assert GoalPath("new", "/view") == "/goals/new/view";
  }

  /** A path whose second character is not `g` is not a goal path. */
  lemma NotUnderGoals(path: string, suffix: string)
    requires |path| >= 2 && path[1] != 'g'
    ensures !MatchesGoalPath(path, suffix)
  {
    if |path| >= |GOALS_PREFIX| {
      assert path[..|GOALS_PREFIX|][1] == path[1];
    }
  }

  /** Outside the goal pages only the fixed routes apply. */
  lemma FixedRoute(pathname: string, params: seq<(string, string)>)
    requires |pathname| >= 2 && pathname[1] != 'g'
    ensures GetBack(pathname, params) ==
      if pathname == "/reflect/write" || pathname == "/reflect/prompts" then Some("/reflect")
      else if pathname == "/me/goals" || pathname == "/me/reflections" || pathname == "/me/settings" then Some("/me")
      else None
  {
    NotUnderGoals(pathname, "/edit");
    NotUnderGoals(pathname, "/view");
    NotUnderGoals(pathname, "");
  }

  /** The reflection sub-pages lead to the reflection page, the profile sub-pages to the profile. */
  lemma StaticRoutes(params: seq<(string, string)>)
    ensures GetBack("/reflect/write", params) == Some("/reflect")
    ensures GetBack("/reflect/prompts", params) == Some("/reflect")
    ensures GetBack("/me/goals", params) == Some("/me")
    ensures GetBack("/me/reflections", params) == Some("/me")
    ensures GetBack("/me/settings", params) == Some("/me")
  {
    FixedRoute("/reflect/write", params);
    FixedRoute("/reflect/prompts", params);
    FixedRoute("/me/goals", params);
    FixedRoute("/me/reflections", params);
    FixedRoute("/me/settings", params);
  }

  /** Top-level pages and malformed goal paths have no back button. */
  lemma NoBackButton(params: seq<(string, string)>)
    ensures GetBack("/goals", params) == None
    ensures GetBack("/goals/", params) == None
    ensures GetBack("/goals/a/b", params) == None
    ensures GetBack("/home", params) == None
  {
    var p := "/goals/a/b";
    assert p[7..|p|][1] == '/';
    assert "/goals/"[7..7] == "";
    FixedRoute("/home", params);
  }

  /** The pages that have a back button: the new-goal page, a goal's page in its three forms, and the fixed routes. */
  lemma HasBackButtonIff(pathname: string, params: seq<(string, string)>)
    ensures GetBack(pathname, params).Some? <==>
      || pathname in ["/goals/new", "/reflect/write", "/reflect/prompts", "/me/goals", "/me/reflections", "/me/settings"]
      || exists seg :: IsSegment(seg) &&
           (pathname == GoalPath(seg, "/edit") || pathname == GoalPath(seg, "/view") || pathname == GoalPath(seg, ""))
  {
    MatchesGoalPathIff(pathname, "/edit");
    MatchesGoalPathIff(pathname, "/view");
    MatchesGoalPathIff(pathname, "");
  }

  /** The query string is read only on goal detail and view pages. */
  lemma ParamsOnlyForDetail(pathname: string, p1: seq<(string, string)>, p2: seq<(string, string)>)
    requires GetBack(pathname, p1) != GetBack(pathname, p2)
    ensures pathname != "/goals/new" && !MatchesGoalPath(pathname, "/edit")
    ensures MatchesGoalPath(pathname, "/view") || MatchesGoalPath(pathname, "")
  {}
}
