/**
 * `RecommendationController`: the course recommendation engine. The skills a
 * user is missing come either from the job their career goal names in the
 * job-skills catalog or, failing that, from every skill some course teaches;
 * the courses teaching at least one missing skill are then ranked by how many
 * of them they teach.
 */
module Recommendation {
  import opened Wrappers
  import opened JavaText
  import opened Entities
  import opened SeqSearch
  import Http

  // ---------------------------------------------------------------------------
  // Skill names
  // ---------------------------------------------------------------------------

  /** Some entry of `names`, lower-cased, is `x`. */
  predicate Lists(names: seq<string>, x: string) {
    exists i :: 0 <= i < |names| && ToLower(names[i]) == x
  }

  /** A skill collection that may be null holds a skill whose lower-cased name is `x`. */
  predicate HasSkill(skills: Option<seq<string>>, x: string) {
    skills.Some? && Lists(skills.value, x)
  }

  /** The lower-cased names of a skill collection; a null collection gives the empty set. */
  function LowerSkillSet(skills: Option<seq<string>>): (r: set<string>)
    ensures forall x :: x in r <==> HasSkill(skills, x)
  {
    match skills
    case None => {}
    case Some(names) => set i | 0 <= i < |names| :: ToLower(names[i])
  }

  /** Every lower-cased skill name some course teaches; courses with a null collection add nothing. */
  function SkillUniverse(courses: seq<Course>): (r: set<string>)
    ensures forall x :: x in r <==> exists k :: 0 <= k < |courses| && HasSkill(courses[k].skills, x)
  {
    if courses == [] then {}
    else
      var init := courses[..|courses| - 1];
      assert forall k :: 0 <= k < |init| ==> init[k] == courses[k];
      SkillUniverse(init) + LowerSkillSet(courses[|courses| - 1].skills)
  }

  /**
   * `findMissingSkillsFromAllCourses`: the skills some course teaches that the
   * user does not list, compared case-insensitively.
   */
  function SkillGap(user: UserProfile, courses: seq<Course>): (r: set<string>)
    ensures forall x :: x in r <==>
              (exists k :: 0 <= k < |courses| && HasSkill(courses[k].skills, x)) && !HasSkill(user.skills, x)
  {
    SkillUniverse(courses) - LowerSkillSet(user.skills)
  }

  /** The job path's missing skills: the job's required skills the user does not list, lower-cased. */
  function JobSkillGap(job: JobMapping, user: UserProfile): (r: set<string>)
    ensures forall x :: x in r <==> Lists(job.requiredSkills, x) && !HasSkill(user.skills, x)
  {
    LowerSkillSet(Some(job.requiredSkills)) - LowerSkillSet(user.skills)
  }

  // ---------------------------------------------------------------------------
  // Scoring and ranking
  // ---------------------------------------------------------------------------

  /** The positions of the entries whose lower-cased name is a missing skill. */
  function MatchingEntries(names: seq<string>, missing: set<string>): set<nat> {
    set i: nat | i < |names| && ToLower(names[i]) in missing
  }

  /** Counts the entries of `names` whose lower-cased form is in `missing`. */
  function CountMissing(names: seq<string>, missing: set<string>): (r: nat)
    ensures r == |MatchingEntries(names, missing)|
    ensures r <= |names|
    ensures r > 0 <==> exists i :: 0 <= i < |names| && ToLower(names[i]) in missing
    decreases |names|
  {
    if names == [] then 0
    else
      var last := |names| - 1;
      var init := names[..last];
      var n := CountMissing(init, missing);
      assert forall i :: 0 <= i < last ==> init[i] == names[i];
      assert last !in MatchingEntries(init, missing);
      if ToLower(names[last]) in missing then
        assert MatchingEntries(names, missing) == MatchingEntries(init, missing) + {last};
        n + 1
      else
        assert MatchingEntries(names, missing) == MatchingEntries(init, missing);
        n
  }

  /**
   * `calculateCourseScore`: the number of the course's skill entries whose
   * lower-cased name is a missing skill; zero for a null or empty collection.
   */
  function Score(course: Course, missing: set<string>): (r: nat)
    ensures course.skills.None? ==> r == 0
    ensures course.skills.Some? ==> r == |MatchingEntries(course.skills.value, missing)|
    ensures course.skills.Some? ==> r <= |course.skills.value|
    ensures r > 0 <==> exists x :: x in missing && HasSkill(course.skills, x)
  {
    if course.skills.None? || course.skills.value == [] then 0
    else
      var names := course.skills.value;
      var r := CountMissing(names, missing);
      assert r > 0 ==> exists x :: x in missing && HasSkill(course.skills, x) by {
        if r > 0 {
          var i :| 0 <= i < |names| && ToLower(names[i]) in missing;
          assert HasSkill(course.skills, ToLower(names[i]));
        }
      }
      r
  }

  /** Scores never increase along `xs`. */
  predicate SortedByScore(xs: seq<Course>, missing: set<string>) {
    SortedDescending(xs, c => Score(c, missing))
  }

  /**
   * `r` is a ranking of `courses`: it holds every course that scores above zero,
   * as often as `courses` does, no other course, in non-increasing score order.
   */
  ghost predicate IsRanking(r: seq<Course>, courses: seq<Course>, missing: set<string>) {
    && SortedByScore(r, missing)
    && forall c :: multiset(r)[c] == if Score(c, missing) > 0 then multiset(courses)[c] else 0
  }

  /**
   * `recommendCoursesForMissingSkills`: the courses teaching at least one
   * missing skill, highest score first. The source's order among equal scores
   * comes from a hash map; this model keeps the catalogue order instead.
   */
  function RankCourses(courses: seq<Course>, missing: set<string>): (r: seq<Course>)
    ensures IsRanking(r, courses, missing)
  {
    SortDescending(Filter(courses, c => Score(c, missing) > 0), c => Score(c, missing))
  }

  /** With no missing skill, the only ranking is the empty list. */
  lemma RankingWithNothingMissing(r: seq<Course>, courses: seq<Course>)
    requires IsRanking(r, courses, {})
    ensures r == []
  {
    assert multiset(r) == multiset{} by {
      forall c
        ensures multiset(r)[c] == 0
      {
        assert Score(c, {}) == 0;
      }
    }
    assert |multiset(r)| == |r|;
  }

  /** Every ranked course teaches at least one of the missing skills. */
  lemma RankedCoursesTeachMissingSkills(r: seq<Course>, courses: seq<Course>, missing: set<string>)
    requires IsRanking(r, courses, missing)
    ensures forall c :: c in r ==> c in courses && exists x :: x in missing && HasSkill(c.skills, x)
  {
    forall c | c in r
      ensures c in courses && exists x :: x in missing && HasSkill(c.skills, x)
    {
      assert multiset(r)[c] > 0;
    }
  }

  // ---------------------------------------------------------------------------
  // Catalog lookup
  // ---------------------------------------------------------------------------

  /**
   * Phase one of the lookup: the normalised title equals the normalised goal,
   * or the two are equal once every space is removed.
   */
  predicate ExactTitleMatch(goal: string, job: JobMapping) {
    var title := Normalize(job.jobTitle);
    var wanted := Normalize(goal);
    title == wanted || RemoveSpaces(title) == RemoveSpaces(wanted)
  }

  /** Phase two of the lookup: either normalised string contains the other. */
  predicate PartialTitleMatch(goal: string, job: JobMapping) {
    var title := Normalize(job.jobTitle);
    var wanted := Normalize(goal);
    Contains(title, wanted) || Contains(wanted, title)
  }

  /**
   * The catalog index of the job a career goal selects: the first exact match
   * if any entry matches exactly, otherwise the first partial match, otherwise none.
   */
  function MatchJob(goal: string, catalog: seq<JobMapping>): (r: Option<nat>)
    ensures r.Some? ==> r.value < |catalog|
    ensures (exists k :: 0 <= k < |catalog| && ExactTitleMatch(goal, catalog[k])) ==>
              && r.Some?
              && ExactTitleMatch(goal, catalog[r.value])
              && forall k :: 0 <= k < r.value ==> !ExactTitleMatch(goal, catalog[k])
    ensures (forall k :: 0 <= k < |catalog| ==> !ExactTitleMatch(goal, catalog[k])) ==>
              && (r.Some? <==> exists k :: 0 <= k < |catalog| && PartialTitleMatch(goal, catalog[k]))
              && (r.Some? ==> PartialTitleMatch(goal, catalog[r.value]))
              && (r.Some? ==> forall k :: 0 <= k < r.value ==> !PartialTitleMatch(goal, catalog[k]))
  {
    match FirstIndexWhere(catalog, job => ExactTitleMatch(goal, job))
    case Some(k) => Some(k)
    case None => FirstIndexWhere(catalog, job => PartialTitleMatch(goal, job))
  }

  // ---------------------------------------------------------------------------
  // Orchestration
  // ---------------------------------------------------------------------------

  /** The HTTP answer: a status and the list of courses in the body. */
  datatype Response = Response(status: Http.Status, body: seq<Course>)

  /** The career goal is non-null and not blank. */
  predicate HasCareerGoal(user: UserProfile) {
    user.careerGoal.Some? && !IsBlank(user.careerGoal.value)
  }

  /** The answer once the missing skills are known: an empty list when none are missing. */
  function RecommendFor(courses: seq<Course>, missing: set<string>): (r: Response)
    ensures r.status == Http.Ok
    ensures IsRanking(r.body, courses, missing)
  {
    if missing == {} then
      assert forall c :: Score(c, missing) == 0;
      Response(Http.Ok, [])
    else Response(Http.Ok, RankCourses(courses, missing))
  }

  /**
   * `recommendCourses`. `sessionEmail` is the session's `userEmail` attribute,
   * `profiles` the profile store, `courses` every stored course, and `catalog`
   * the parsed job-skills resource, `None` when it cannot be read or parsed.
   */
  function RecommendCourses(
    sessionEmail: Option<string>,
    profiles: map<string, UserProfile>,
    courses: seq<Course>,
    catalog: Option<seq<JobMapping>>): (r: Response)
    ensures sessionEmail.None? ==> r == Response(Http.BadRequest, [])
    ensures r.status == Http.BadRequest <==> sessionEmail.None?
    ensures sessionEmail.Some? && sessionEmail.value !in profiles ==> r == Response(Http.Ok, [])
    ensures sessionEmail.Some? && sessionEmail.value in profiles && courses == [] ==> r == Response(Http.Ok, [])
    ensures r.status == Http.InternalServerError <==>
              && sessionEmail.Some? && sessionEmail.value in profiles && courses != []
              && HasCareerGoal(profiles[sessionEmail.value]) && catalog.None?
    ensures r.status != Http.Ok ==> r.body == []
    ensures r.status == Http.Ok || r.status == Http.BadRequest || r.status == Http.InternalServerError
    ensures sessionEmail.Some? && sessionEmail.value in profiles && !HasCareerGoal(profiles[sessionEmail.value])
            ==> IsRanking(r.body, courses, SkillGap(profiles[sessionEmail.value], courses))
    ensures sessionEmail.Some? && sessionEmail.value in profiles && HasCareerGoal(profiles[sessionEmail.value])
            && catalog.Some? && MatchJob(profiles[sessionEmail.value].careerGoal.value, catalog.value).None?
            ==> IsRanking(r.body, courses, SkillGap(profiles[sessionEmail.value], courses))
    ensures sessionEmail.Some? && sessionEmail.value in profiles && HasCareerGoal(profiles[sessionEmail.value])
            && catalog.Some? && MatchJob(profiles[sessionEmail.value].careerGoal.value, catalog.value).Some?
            ==> var k := MatchJob(profiles[sessionEmail.value].careerGoal.value, catalog.value).value;
                IsRanking(r.body, courses, JobSkillGap(catalog.value[k], profiles[sessionEmail.value]))
  {
    if sessionEmail.None? then Response(Http.BadRequest, [])
    else if sessionEmail.value !in profiles then Response(Http.Ok, [])
    else if courses == [] then Response(Http.Ok, [])
    else
      var user := profiles[sessionEmail.value];
      if !HasCareerGoal(user) then RecommendFor(courses, SkillGap(user, courses))
      else if catalog.None? then Response(Http.InternalServerError, [])
      else
        match MatchJob(user.careerGoal.value, catalog.value)
        case None => RecommendFor(courses, SkillGap(user, courses))
        case Some(k) => RecommendFor(courses, JobSkillGap(catalog.value[k], user))
  }

  /**
   * Every recommended course is a stored course that teaches, case-insensitively,
   * some skill the user does not list.
   */
  lemma RecommendationsFillGaps(
    sessionEmail: Option<string>,
    profiles: map<string, UserProfile>,
    courses: seq<Course>,
    catalog: Option<seq<JobMapping>>)
    requires sessionEmail.Some? && sessionEmail.value in profiles
    ensures var r := RecommendCourses(sessionEmail, profiles, courses, catalog);
            forall c :: c in r.body ==>
              c in courses && exists x :: HasSkill(c.skills, x) && !HasSkill(profiles[sessionEmail.value].skills, x)
  {
    var user := profiles[sessionEmail.value];
    var r := RecommendCourses(sessionEmail, profiles, courses, catalog);
    var missing: set<string>;
    if courses == [] || (HasCareerGoal(user) && catalog.None?) {
      assert r.body == [];
      missing := {};
    } else if !HasCareerGoal(user) || MatchJob(user.careerGoal.value, catalog.value).None? {
      missing := SkillGap(user, courses);
    } else {
      missing := JobSkillGap(catalog.value[MatchJob(user.careerGoal.value, catalog.value).value], user);
    }
    assert IsRanking(r.body, courses, missing);
    assert forall x :: x in missing ==> !HasSkill(user.skills, x);
    RankedCoursesTeachMissingSkills(r.body, courses, missing);
  }

  /**
   * A user who already lists every skill the selected target asks for gets an
   * empty list with status OK: on the skill-gap path when the user lists every
   * skill any course teaches, on the job path when the user lists every
   * required skill of the matched job.
   */
  lemma QualifiedUserGetsNothing(
    sessionEmail: Option<string>,
    profiles: map<string, UserProfile>,
    courses: seq<Course>,
    catalog: Option<seq<JobMapping>>)
    requires sessionEmail.Some? && sessionEmail.value in profiles
    requires var user := profiles[sessionEmail.value];
             !HasCareerGoal(user) || catalog.Some?
    requires var user := profiles[sessionEmail.value];
             if HasCareerGoal(user) && MatchJob(user.careerGoal.value, catalog.value).Some?
             then forall x :: (Lists(catalog.value[MatchJob(user.careerGoal.value, catalog.value).value].requiredSkills, x)
                               ==> HasSkill(user.skills, x))
             else forall x :: (exists k :: 0 <= k < |courses| && HasSkill(courses[k].skills, x)) ==> HasSkill(user.skills, x)
    ensures RecommendCourses(sessionEmail, profiles, courses, catalog) == Response(Http.Ok, [])
  {
    var user := profiles[sessionEmail.value];
    var r := RecommendCourses(sessionEmail, profiles, courses, catalog);
    if courses != [] {
      if HasCareerGoal(user) && MatchJob(user.careerGoal.value, catalog.value).Some? {
        var k := MatchJob(user.careerGoal.value, catalog.value).value;
        assert JobSkillGap(catalog.value[k], user) == {};
      } else {
        assert SkillGap(user, courses) == {};
      }
      RankingWithNothingMissing(r.body, courses);
    }
  }
}
