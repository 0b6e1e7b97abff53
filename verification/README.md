# Course guidance service: recommendation, video links, accounts and catalogue

A Dafny model of the decision logic of a Spring course-guidance web
application. Four parts are modelled, each as pure functions over immutable
values: the database tables become maps and sequences passed in, and the HTTP
session becomes a value.

- **Recommendation engine** (`RecommendationController`). A student's career
  goal is normalised: lower-cased, runs of whitespace collapsed, then trimmed.
  It is then looked up in a job-to-skills catalog. Exact matches are tried
  before substring matches, and the first entry in catalog order wins within
  each phase. The set of skills the student is missing comes from the matched
  job. When there is no goal or no match, it comes from every skill some course
  teaches. Courses that teach at least one missing skill are ranked by how many
  of their skill entries name a missing skill, so two entries naming the same
  skill in different case both count.
- **Video-id extraction** (`UserController.extractVideoId`). This parses
  YouTube watch, short-link and embed URLs with Java's regex-based `split`.
  The model includes the wildcard `.` in `youtu.be/` and the out-of-bounds
  index when the URL ends at the delimiter.
- **Accounts** (`UserController.registerUser` / `loginUser`). Registration
  refuses an email that is already taken. Login checks the hard-coded
  administrator credentials first, then the user table.
- **Course catalogue** (`CourseController`). It covers lookup by id, the
  field-overwriting update, deletion, and the case-insensitive skill search.

Java's string operations are modelled in `JavaText`:
- `toLowerCase` lower-cases ASCII only.
- `trim` strips characters up to U+0020.
- The regex class `\s` is space, tab, newline, vertical tab, form feed and
  carriage return.
- `replaceAll("\\s+", " ")` is modelled, as is `contains`.
- `split` is modelled with its pattern semantics. It drops trailing empty
  strings and returns the whole input when nothing matches.
- Array indexing yields `Err(ArrayIndexOutOfBounds)` past the end.

Files:
- `wrappers.dfy`: `Option`, `Result` and the HTTP statuses.
- `java_text.dfy`: the Java string model.
- `seq_search.dfy`: first-index search, filter and the stable descending sort.
- `entities.dfy`: courses, profiles and catalog entries.
- `recommendation.dfy`, `video_id.dfy`, `accounts.dfy` and
  `course_catalog.dfy`: the controllers.

## Model

| member | source | states |
|---|---|---|
| JavaText.ToLower | src/main/java/com/example/cgs/controller/RecommendationController.java:102 | Lower-casing keeps the length, maps each upper-case letter to its lower-case form, leaves every other character alone, and yields a lower-case string. |
| JavaText.CollapseSpaces | src/main/java/com/example/cgs/controller/RecommendationController.java:102 | Collapsing whitespace runs leaves only single plain spaces, no two in a row. It keeps every non-whitespace character in order, and it is empty exactly when the input is. |
| JavaText.CollapseRun | src/main/java/com/example/cgs/controller/RecommendationController.java:102 | A whitespace run between a non-space end and a non-space start becomes exactly one space, and the text on either side collapses independently. |
| JavaText.CollapseKeepsLast | src/main/java/com/example/cgs/controller/RecommendationController.java:102 | Collapsing keeps whether the last character is whitespace. |
| JavaText.CollapseOfCollapsed | src/main/java/com/example/cgs/controller/RecommendationController.java:102 | Collapsing a string that is already collapsed changes nothing. |
| JavaText.Trim | src/main/java/com/example/cgs/controller/RecommendationController.java:102 | Trimming yields the contiguous middle of the input, with neither end trimmable. Everything cut off on either side is trimmable. |
| JavaText.BlankIff | src/main/java/com/example/cgs/controller/RecommendationController.java:72 | A goal is blank after trimming exactly when every character in it is trimmable. |
| JavaText.Normalize | src/main/java/com/example/cgs/controller/RecommendationController.java:102-107 | A normalised goal or title is lower-case, trimmed, and has no two adjacent spaces. Its characters above U+0020 are, in order, those of the lower-cased input, and it is empty exactly when the input is blank. |
| JavaText.VisibleOfTrim | src/main/java/com/example/cgs/controller/RecommendationController.java:102 | Trimming keeps every character above U+0020, in order. |
| JavaText.NormalizeIdempotent | src/main/java/com/example/cgs/controller/RecommendationController.java:102-107 | Normalising twice equals normalising once. |
| JavaText.RemoveSpaces | src/main/java/com/example/cgs/controller/RecommendationController.java:109 | Removing spaces leaves no space, keeps every other character as often as it occurs, and yields a subsequence of the input. |
| JavaText.ContainsIff | src/main/java/com/example/cgs/controller/RecommendationController.java:118-119 | Containment holds exactly when the second string occurs at some position of the first. |
| JavaText.RawSplitJoin | src/main/java/com/example/cgs/controller/UserController.java:338 | Joining the pieces of a split on a literal delimiter with that delimiter gives back the input. |
| JavaText.Split | src/main/java/com/example/cgs/controller/UserController.java:338-342 | With no match the split is the whole input. Otherwise it is the pieces between successive leftmost matches, with trailing empty pieces dropped, and every piece dropped is empty. |
| JavaText.RawSplitPieceMatchFree | src/main/java/com/example/cgs/controller/UserController.java:338 | No piece of a split holds a match of the delimiter. |
| JavaText.RawSplitAllEmpty | src/main/java/com/example/cgs/controller/UserController.java:338 | Every piece of a split is empty exactly when the input is nothing but back-to-back matches. |
| JavaText.SplitLonger | src/main/java/com/example/cgs/controller/UserController.java:338 | A split result has more than n pieces exactly when some piece from position n on is non-empty. |
| JavaText.Element | src/main/java/com/example/cgs/controller/UserController.java:338-342 | Indexing a split result succeeds exactly when the index is in range, and then yields that piece. |
| SeqSearch.Filter | src/main/java/com/example/cgs/controller/RecommendationController.java:212-224 | Filtering keeps exactly the elements satisfying the test, each as often as in the input, in input order. |
| SeqSearch.SortDescending | src/main/java/com/example/cgs/controller/RecommendationController.java:226-229 | Sorting yields a permutation whose keys never increase. |
| Recommendation.SkillUniverse | src/main/java/com/example/cgs/controller/RecommendationController.java:184-189 | The skill universe is exactly the lower-cased names some course lists. A null collection contributes nothing. |
| Recommendation.SkillGap | src/main/java/com/example/cgs/controller/RecommendationController.java:182-200 | The fallback missing set is exactly the lower-cased course skills the user does not list. A null user collection counts as empty. |
| Recommendation.JobSkillGap | src/main/java/com/example/cgs/controller/RecommendationController.java:142-151 | The job path's missing set is exactly the lower-cased required skills the user does not list. |
| Recommendation.CountMissing | src/main/java/com/example/cgs/controller/RecommendationController.java:238-245 | The count equals the number of entries whose lower-cased name is missing. It is at most the number of entries, and it is positive exactly when some entry is missing. |
| Recommendation.Score | src/main/java/com/example/cgs/controller/RecommendationController.java:232-246 | The score is 0 for a null or empty collection. Otherwise it is the number of matching entries, bounded by the entry count. It is positive exactly when the course teaches some missing skill. |
| Recommendation.RankCourses | src/main/java/com/example/cgs/controller/RecommendationController.java:209-230 | The ranking holds every course that scores above zero as often as it is stored, and no other course. Scores never increase along it. |
| Recommendation.RankingWithNothingMissing | src/main/java/com/example/cgs/controller/RecommendationController.java:79-82 | With no missing skill the only ranking is empty. |
| Recommendation.RankedCoursesTeachMissingSkills | src/main/java/com/example/cgs/controller/RecommendationController.java:220-223 | Every ranked course is stored and teaches some missing skill. |
| Recommendation.MatchJob | src/main/java/com/example/cgs/controller/RecommendationController.java:104-122 | If any entry matches exactly, the first exact match is chosen. Otherwise the first partial match is chosen. There is no choice exactly when neither kind matches. |
| Recommendation.RecommendFor | src/main/java/com/example/cgs/controller/RecommendationController.java:155-164 | Once the missing set is known, the answer is OK with a ranking for that set. The ranking is empty when nothing is missing. |
| Recommendation.RecommendCourses | src/main/java/com/example/cgs/controller/RecommendationController.java:47-173 | The reply is 400 exactly when there is no session email, and then the list is empty. An unknown profile or no courses gives 200 with an empty list. A goal with an unreadable catalog gives 500 with an empty list. A blank goal or an unmatched goal ranks by the skill gap; a matched goal ranks by that job's gap. |
| Recommendation.RecommendationsFillGaps | src/main/java/com/example/cgs/controller/RecommendationController.java:47-173 | Every recommended course is stored and teaches a skill the user does not list. |
| Recommendation.QualifiedUserGetsNothing | src/main/java/com/example/cgs/controller/RecommendationController.java:78-82 | A user who already lists every skill the selected target asks for gets 200 with an empty list. |
| VideoId.ExtractVideoId | src/main/java/com/example/cgs/controller/UserController.java:331-347 | A null or empty URL gives "". Branches are tried in the order watch, short link, embed. Each yields the text after the first delimiter match, cut at the stop character or the next match. It fails exactly when that text is nothing but further matches, or the piece before the next match is non-empty and all stop characters. A URL with no marker is returned unchanged. |
| VideoId.SecondPieceUpToSpec | src/main/java/com/example/cgs/controller/UserController.java:338-342 | `split(d)[1].split(stop)[0]` is the text after the first match of d, up to the next stop or match of d. It exists when that text is non-empty, and fails exactly in the two cases stated for ExtractVideoId. |
| VideoId.SecondPieceExists | src/main/java/com/example/cgs/controller/UserController.java:338-340 | `split(d)[1]` exists exactly when the text after the first match of d is not nothing but further matches. |
| VideoId.CutFails | src/main/java/com/example/cgs/controller/UserController.java:338-342 | The two-step split fails exactly when the text after the first match is nothing but matches, or the piece before the next match is non-empty and all stop characters. |
| VideoId.IdHasNoStop | src/main/java/com/example/cgs/controller/UserController.java:338-342 | A watch id contains no `&`, and a short-link or embed id contains no `?`. |
| VideoId.ShortLinkWithoutIdFails | src/main/java/com/example/cgs/controller/UserController.java:340 | `https://youtu.be/` makes the index `[1]` fall out of bounds. |
| VideoId.ShortLinkOnlyQueryFails | src/main/java/com/example/cgs/controller/UserController.java:340 | `https://youtu.be/?` fails: the second piece is `?`, and splitting it on `?` leaves no element `[0]`. |
| VideoId.ShortLinkDotIsWildcard | src/main/java/com/example/cgs/controller/UserController.java:339-340 | `youtu-be/a?youtu.be/b` selects the short-link branch but yields `a`, because the split's `.` matches `-`. |
| Accounts.Register | src/main/java/com/example/cgs/controller/UserController.java:193-219 | A taken email gives 400 and changes nothing. Otherwise exactly that user is added under the email, a profile with the same email and name is appended, and the reply is 200. |
| Accounts.RegisterKeepsKeys | src/main/java/com/example/cgs/controller/UserController.java:203-209 | Registration keeps every user stored under its own email. |
| Accounts.RegisterTwice | src/main/java/com/example/cgs/controller/UserController.java:198-200 | A second registration with the same form is refused and changes nothing. |
| Accounts.Login | src/main/java/com/example/cgs/controller/UserController.java:221-254 | The administrator credentials succeed first and set only the admin user type. An unknown email gives 404 and a wrong password 401, with the session untouched. Success happens exactly for the administrator or a stored user with a matching password, and a student login records name, email and the student type. |
| Accounts.RegisterThenLogin | src/main/java/com/example/cgs/controller/UserController.java:193-254 | A freshly registered non-administrator logs in with the registered password and becomes the session's student. |
| Accounts.StudentSessionEmail | src/main/java/com/example/cgs/controller/UserController.java:248-250 | A successful student login stores the submitted email in the session. |
| Accounts.AdminIgnoresUsers | src/main/java/com/example/cgs/controller/UserController.java:225-229 | The administrator login has the same outcome whatever the user table holds. |
| CourseCatalog.FindById | src/main/java/com/example/cgs/controller/CourseController.java:38 | The search yields a position holding the id, and none exactly when no stored course has it. |
| CourseCatalog.FindByIdUnique | src/main/java/com/example/cgs/controller/CourseController.java:38 | Under unique ids the search finds the very position holding the id. |
| CourseCatalog.GetCourseById | src/main/java/com/example/cgs/controller/CourseController.java:36-41 | The lookup answers 200 with a stored course of that id exactly when one exists, and 404 with no body otherwise. |
| CourseCatalog.UpdateCourse | src/main/java/com/example/cgs/controller/CourseController.java:67-107 | An unknown id gives 404 and changes nothing. Otherwise the six descriptive fields take the incoming values and the id stays. Non-null incoming skills replace the stored ones and null ones keep them. Every other course is untouched. Replacing a null stored collection gives 500 with nothing saved, and every other update of a stored id gives 200. |
| CourseCatalog.UpdateKeepsIdsUnique | src/main/java/com/example/cgs/controller/CourseController.java:84-99 | An update keeps ids unique. |
| CourseCatalog.UpdateIdempotent | src/main/java/com/example/cgs/controller/CourseController.java:84-99 | Applying the same update twice stores what applying it once does. |
| CourseCatalog.UpdateThenGet | src/main/java/com/example/cgs/controller/CourseController.java:99-101 | After a successful update, looking the id up returns the updated course. |
| CourseCatalog.DeleteCourse | src/main/java/com/example/cgs/controller/CourseController.java:115-123 | An unknown id gives 404 and changes nothing. Otherwise exactly one copy of the found course is removed and the rest keep their order. |
| CourseCatalog.DropOneIsSubsequence | src/main/java/com/example/cgs/controller/CourseController.java:119 | Removing one element leaves a subsequence. |
| CourseCatalog.DeleteRemovesId | src/main/java/com/example/cgs/controller/CourseController.java:115-123 | Under unique ids, a deleted id can no longer be found and ids stay unique. |
| CourseCatalog.CoursesBySkill | src/main/java/com/example/cgs/controller/CourseController.java:131-147 | The search returns, in store order and with their multiplicity, exactly the courses whose non-null skills contain one matching the query. |
| CourseCatalog.SkillMatchSymmetric | src/main/java/com/example/cgs/controller/CourseController.java:140-141 | A skill matches a query exactly when the query matches the skill. |
| CourseCatalog.EmptyCases | src/main/java/com/example/cgs/controller/CourseController.java:137-141 | A null or empty skill collection never matches. The empty query matches exactly the courses with at least one skill. |

## Left out

- Spring plumbing is not modelled: the MVC, session and `Model` handling, page routes, redirects and logging. The session is a value and the repositories are maps and sequences passed in.
- Reading and parsing the job-skills JSON is not modelled (Jackson, classpath resources). The parsed catalog is an input, `None` when it cannot be read, and its entries are taken to be well formed. Null titles, null skill names and other runtime exceptions inside the recommendation's `try` are not modelled; the source answers each with 500.
- Recommendation.RankCourses: ties keep the catalogue order. The source collects scores in a `HashMap`, so its order among equal scores is unspecified, and the contract (sorted and a permutation of the positive-score courses) does not depend on the choice.
- Recommendation.RankCourses: stored courses are values, so two equal courses both appear. In the source they are distinct entities, each kept once.
- `toLowerCase` is locale-sensitive and covers all of Unicode in Java. The model lower-cases ASCII letters only.
- CourseCatalog.UpdateCourse: on the 500 path the source has already set the descriptive fields on the loaded entity but never saves it. The model leaves the store unchanged, as a detached entity would be.
- `getAllCourses` and `addCourse` are not modelled; they pass straight through to the repository. `deleteCourse`'s reply text is not modelled either.
- Null fields in request bodies are not modelled. Form fields are plain strings.
- Password hashing is not modelled; the source compares plain text.
- The other controllers are not part of this model: playlists, messages, roadmaps and the raw data endpoints. Nor is the front-end script `roadmap.js`.
