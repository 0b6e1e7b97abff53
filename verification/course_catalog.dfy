/**
 * `CourseController`: lookup, update, deletion and skill search over the
 * stored courses. The store is the sequence `findAll` would return; `findById`
 * is a search of it by id.
 */
module CourseCatalog {
  import opened Wrappers
  import opened JavaText
  import opened Entities
  import opened SeqSearch
  import Http

  /** No two stored courses share an id, as the primary key guarantees. */
  predicate UniqueIds(store: seq<Course>) {
    forall i, j :: 0 <= i < j < |store| ==> store[i].id != store[j].id
  }

  /** `findById`: the position of the course with this id, if one is stored. */
  function FindById(store: seq<Course>, id: int): (r: Option<nat>)
    ensures r.Some? ==> r.value < |store| && store[r.value].id == id
    ensures r.None? <==> forall k :: 0 <= k < |store| ==> store[k].id != id
  {
    FirstIndexWhere(store, (c: Course) => c.id == id)
  }

  /** Under unique ids, the position `FindById` reports is the one holding that id. */
  lemma FindByIdUnique(store: seq<Course>, k: nat)
    requires UniqueIds(store) && k < |store|
    ensures FindById(store, store[k].id) == Some(k)
  {
  }

  // ---------------------------------------------------------------------------
  // getCourseById
  // ---------------------------------------------------------------------------

  /** A status and the course in the body, if any. */
  datatype Lookup = Lookup(status: Http.Status, course: Option<Course>)

  /** `getCourseById`: 200 with the stored course that has this id, 404 with no body when there is none. */
  function GetCourseById(store: seq<Course>, id: int): (r: Lookup)
    ensures r.status == Http.Ok || r.status == Http.NotFound
    ensures r.status == Http.Ok <==> exists k :: 0 <= k < |store| && store[k].id == id
    ensures r.status == Http.Ok ==> r.course.Some? && r.course.value in store && r.course.value.id == id
    ensures r.status == Http.NotFound ==> r.course.None?
  {
    match FindById(store, id)
    case Some(k) => Lookup(Http.Ok, Some(store[k]))
    case None => Lookup(Http.NotFound, None)
  }

  // ---------------------------------------------------------------------------
  // updateCourse
  // ---------------------------------------------------------------------------

  /** A status, the store afterwards, and the course in the body, if any. */
  datatype Update = Update(status: Http.Status, store: seq<Course>, course: Option<Course>)

  /**
   * `updateCourse`. The six descriptive fields are overwritten with the
   * incoming values; non-null incoming skills replace the stored ones, null
   * incoming skills leave them alone. Clearing a null stored collection raises,
   * which the handler turns into a 500 before anything is saved.
   */
  function UpdateCourse(store: seq<Course>, id: int, incoming: Course): (r: Update)
    ensures FindById(store, id).None? ==> r == Update(Http.NotFound, store, None)
    ensures FindById(store, id).Some? ==>
              var old_ := store[FindById(store, id).value];
              && (r.status == Http.InternalServerError <==> old_.skills.None? && incoming.skills.Some?)
              && (r.status == Http.Ok <==> !(old_.skills.None? && incoming.skills.Some?))
    ensures r.status != Http.Ok ==> r.store == store && r.course.None?
    ensures r.status == Http.Ok ==>
              && FindById(store, id).Some?
              && var k := FindById(store, id).value;
              && |r.store| == |store|
              && (forall j :: 0 <= j < |store| && j != k ==> r.store[j] == store[j])
              && r.course == Some(r.store[k])
              && r.store[k].id == id
              && r.store[k].name == incoming.name
              && r.store[k].imageUrl == incoming.imageUrl
              && r.store[k].coverImage == incoming.coverImage
              && r.store[k].trainerDesignation == incoming.trainerDesignation
              && r.store[k].courseTitle == incoming.courseTitle
              && r.store[k].description == incoming.description
              && r.store[k].skills == (if incoming.skills.Some? then incoming.skills else store[k].skills)
  {
    match FindById(store, id)
    case None => Update(Http.NotFound, store, None)
    case Some(k) =>
      var existing := store[k];
      if existing.skills.None? && incoming.skills.Some? then
        Update(Http.InternalServerError, store, None)
      else
        var merged := existing.(
          name := incoming.name,
          imageUrl := incoming.imageUrl,
          coverImage := incoming.coverImage,
          trainerDesignation := incoming.trainerDesignation,
          courseTitle := incoming.courseTitle,
          description := incoming.description,
          skills := if incoming.skills.Some? then incoming.skills else existing.skills);
        Update(Http.Ok, store[k := merged], Some(merged))
  }

  /** An update keeps the ids unique, since the updated course keeps its id. */
  lemma UpdateKeepsIdsUnique(store: seq<Course>, id: int, incoming: Course)
    requires UniqueIds(store)
    ensures UniqueIds(UpdateCourse(store, id, incoming).store)
  {
  }

  /** Applying the same update twice leaves the store as applying it once. */
  lemma UpdateIdempotent(store: seq<Course>, id: int, incoming: Course)
    requires UniqueIds(store)
    ensures var once := UpdateCourse(store, id, incoming).store;
            UpdateCourse(once, id, incoming).store == once
  {
    var r := UpdateCourse(store, id, incoming);
    if r.status == Http.Ok {
      var k := FindById(store, id).value;
      FindByIdUnique(r.store, k);
      assert FindById(r.store, id) == Some(k);
      assert r.store[k := r.store[k]] == r.store;
    }
  }

  /** After a successful update, looking the id up returns the updated course. */
  lemma UpdateThenGet(store: seq<Course>, id: int, incoming: Course)
    requires UniqueIds(store)
    requires UpdateCourse(store, id, incoming).status == Http.Ok
    ensures var r := UpdateCourse(store, id, incoming);
            GetCourseById(r.store, id) == Lookup(Http.Ok, r.course)
  {
    var r := UpdateCourse(store, id, incoming);
    var k := FindById(store, id).value;
    FindByIdUnique(r.store, k);
  }

  // ---------------------------------------------------------------------------
  // deleteCourse
  // ---------------------------------------------------------------------------

  /** A status and the store afterwards. */
  datatype Deletion = Deletion(status: Http.Status, store: seq<Course>)

  /** `deleteCourse`: removes the stored course with this id, or answers 404 and changes nothing. */
  function DeleteCourse(store: seq<Course>, id: int): (r: Deletion)
    ensures FindById(store, id).None? ==> r == Deletion(Http.NotFound, store)
    ensures FindById(store, id).Some? ==>
              && r.status == Http.Ok
              && |r.store| == |store| - 1
              && multiset(r.store) == multiset(store) - multiset{store[FindById(store, id).value]}
              && IsSubsequence(r.store, store)
  {
    match FindById(store, id)
    case None => Deletion(Http.NotFound, store)
    case Some(k) =>
      var rest := store[..k] + store[k + 1..];
      assert store == store[..k] + [store[k]] + store[k + 1..];
      DropOneIsSubsequence(store, k);
      Deletion(Http.Ok, rest)
  }

  /** Removing one element leaves a subsequence. */
  lemma {:induction false} DropOneIsSubsequence<T>(xs: seq<T>, k: nat)
    requires k < |xs|
    ensures IsSubsequence(xs[..k] + xs[k + 1..], xs)
    decreases k
  {
    var rest := xs[..k] + xs[k + 1..];
    if k == 0 {
      assert rest == xs[1..];
      SubsequenceReflexive(xs[1..]);
    } else {
      DropOneIsSubsequence(xs[1..], k - 1);
      assert rest[0] == xs[0];
      assert rest[1..] == xs[1..][..k - 1] + xs[1..][k..];
    }
  }

  lemma {:induction false} SubsequenceReflexive<T>(xs: seq<T>)
    ensures IsSubsequence(xs, xs)
    decreases |xs|
  {
    if xs != [] {
      SubsequenceReflexive(xs[1..]);
    }
  }

  /** Under unique ids, a deleted course can no longer be found and the ids stay unique. */
  lemma DeleteRemovesId(store: seq<Course>, id: int)
    requires UniqueIds(store)
    ensures UniqueIds(DeleteCourse(store, id).store)
    ensures GetCourseById(DeleteCourse(store, id).store, id).status == Http.NotFound
  {
    var r := DeleteCourse(store, id);
    if FindById(store, id).Some? {
      var k := FindById(store, id).value;
      assert r.store == store[..k] + store[k + 1..];
      forall j | 0 <= j < |r.store|
        ensures r.store[j].id != id
      {
        if j < k {
          assert r.store[j] == store[j];
        } else {
          assert r.store[j] == store[j + 1];
        }
      }
    }
  }

  // ---------------------------------------------------------------------------
  // getCoursesBySkill
  // ---------------------------------------------------------------------------

  /** A skill matches a query when either lower-cased string contains the other. */
  predicate SkillMatchesQuery(skill: string, query: string) {
    var s := ToLower(skill);
    var q := ToLower(query);
    Contains(s, q) || Contains(q, s)
  }

  /** The course's skill collection is non-null and holds a skill matching the query. */
  predicate TeachesMatching(course: Course, query: string) {
    course.skills.Some? && exists i :: 0 <= i < |course.skills.value| && SkillMatchesQuery(course.skills.value[i], query)
  }

  /**
   * `getCoursesBySkill`: the stored courses that teach a skill matching the
   * query, in store order, each as often as it is stored.
   */
  function CoursesBySkill(store: seq<Course>, query: string): (r: seq<Course>)
    ensures IsSubsequence(r, store)
    ensures forall c :: c in r <==> c in store && TeachesMatching(c, query)
    ensures forall c :: multiset(r)[c] == if TeachesMatching(c, query) then multiset(store)[c] else 0
  {
    Filter(store, (c: Course) => TeachesMatching(c, query))
  }

  /** Matching a skill against a query is symmetric in the two strings. */
  lemma SkillMatchSymmetric(skill: string, query: string)
    ensures SkillMatchesQuery(skill, query) <==> SkillMatchesQuery(query, skill)
  {
  }

  /** A null or empty skill collection never matches; the empty query matches every course with a skill. */
  lemma EmptyCases(course: Course, query: string)
    ensures course.skills.None? || course.skills.value == [] ==> !TeachesMatching(course, query)
    ensures TeachesMatching(course, []) <==> course.skills.Some? && course.skills.value != []
  {
    if course.skills.Some? && course.skills.value != [] {
      ContainsEmpty(ToLower(course.skills.value[0]));
      assert SkillMatchesQuery(course.skills.value[0], []);
    }
  }
}
