# Student records: directory, registration and year-end promotion

A model of the core of a school's student-records web application. The application keeps three
tables:

- students: registration number, legal name, optional alias, the use-alias flag, birthday and gender;
- enrollments: a placement of a student for a fiscal year, with grade, class and attendance number;
- status intervals: a status from a start date, with an end date once it is closed.

On top of those tables the model covers:

- the dashboard page: every student, with the open status interval and the placement of the latest enrollment;
- the dashboard client: client-side search, three KPI counts and the name cell that shows an alias;
- `GET /api/students`: a search with relations for fiscal year 2025;
- `POST /api/students`: creates a student, a first enrollment and an open ACTIVE interval in one nested write;
- the promotion page: students with an open ACTIVE interval and their latest placement;
- the promotion client: the draft editor, with its retain checkbox and three input cells;
- `POST /api/promotion`: validates the body and creates the whole batch of enrollments in one transaction.

Modules:

- `Common`: `Option` and `Reply` (a JSON body or an error status with a message); `Filter`, `First`
  and `Map`, which play `Array.filter`, a relation's `where` with `take: 1`, and `Array.map`; the JavaScript `x || d`
  defaults.
- `Text`: what the code relies on from JavaScript strings and the database:
  - ASCII `toLowerCase`;
  - `includes` / `contains`;
  - the `orderBy: 'asc'` order on strings, by code point;
  - `parseInt(text) || 0`, and `String(n)` to show a number in an input cell.
- `Records`: the tables, the rows a write creates, and the database as a `Store` class. A
  transaction either stores all of its rows or none of them. The store may refuse a row; that is the
  abstract `accepts` rule, which sees the rows created before it. The module also has the
  latest-enrollment and open-interval queries, and the sort by registration number.
- `DashboardPage`, `DashboardClient`, `StudentsApi`, `PromotionPage`, `PromotionClient` and
  `PromotionApi` each follow one source file.

Failures the handlers catch are modelled as follows:

- A read that cannot reach the database is an input `None` in place of the tables. The two pages
  then show their mock lists, and `GET /api/students` answers 500.
- For the two POST handlers the database is a `Store`. A write that cannot reach it is a store whose
  `accepts` refuses the first row, so the reply is 500 and nothing changes. An empty promotion batch
  has no first row, so in the model it commits even then.
- A request body that `request.json()` cannot parse is an input `None`. So is a body that parses to
  JSON `null`: reading its fields throws (src/app/api/students/route.ts:51,
  src/app/api/promotion/route.ts:7), and both handlers answer 500.

## Model

| member | source | states |
|---|---|---|
| Common.Filter | src/app/dashboard-client.tsx:41-45 | the result is no longer than the input; an element is in it exactly when it is in the input and satisfies the predicate; every occurrence of a kept element is kept (same multiplicity as in the input) |
| Common.FilterCountsPositions | src/app/dashboard-client.tsx:57 | the length of `xs.filter(p)` is the number of positions of `xs` whose element satisfies `p` |
| Common.FilterIsSubsequence | src/app/dashboard-client.tsx:41-45 | filtering keeps the input order (the result is a subsequence) |
| Common.FilterIdempotent | src/app/dashboard-client.tsx:41-45 | filtering twice with the same predicate is filtering once |
| Common.FilterDisjointCounts | src/app/dashboard-client.tsx:57-67 | two predicates no element meets together select at most as many elements as there are |
| Common.First | src/app/api/students/route.ts:24-33 | `take: 1` finds nothing exactly when no record matches, and otherwise a matching record of the table |
| Common.FirstAfterNone | src/app/api/students/route.ts:24-33 | records that do not match in front of the table do not change which record `take: 1` finds |
| Common.Map | src/app/page.tsx:29-38 | one result per element, in order, each the image of its element; the images of the elements are exactly the members of the result |
| Text.Lower | src/app/dashboard-client.tsx:42-43 | same length, no upper-case ASCII letter left, other characters unchanged, upper-case letters shifted to lower case |
| Text.LowerIdempotent | src/app/dashboard-client.tsx:42-43 | lower-casing twice is lower-casing once |
| Text.Contains | src/app/dashboard-client.tsx:42-44 | `includes` needs a needle no longer than the text, and holds whenever the text starts with the needle |
| Text.ContainsItself | src/app/api/students/route.ts:15-19 | every text contains itself |
| Text.ContainsIffOccurs | src/app/dashboard-client.tsx:42-44 | `includes` holds exactly when the needle occurs at some position of the text |
| Text.ContainsEmpty | src/app/dashboard-client.tsx:42-44 | every text includes the empty string |
| Text.LexLeqTotal | src/app/page.tsx:26 | the `asc` string order relates every two strings |
| Text.LexLeqReflexive | src/app/page.tsx:26 | every string is ordered before itself |
| Text.LexLeqTransitive | src/app/page.tsx:26 | the `asc` string order is transitive |
| Text.LexLeqAntisymmetric | src/app/page.tsx:26 | two strings ordered both ways are equal |
| Text.TrimStart | src/app/promotion/promotion-client.tsx:139 | `parseInt` skips exactly the leading white space: the rest is a suffix starting with a non-space |
| Text.LeadingDigits | src/app/promotion/promotion-client.tsx:139 | `parseInt` reads the longest prefix of digits of the radix |
| Text.ParseInt | src/app/promotion/promotion-client.tsx:139 | `parseInt` of blank text is NaN; text whose first non-blank character is a digit 1-9 gives a non-negative number; a negative number comes only from a leading minus sign |
| Text.NumberInput | src/app/promotion/promotion-client.tsx:139 | `parseInt(text) \|\| 0`: NaN becomes 0, a parsed number is stored as it is (0 included), and any non-zero result is the number parsed |
| Text.DecimalString | src/app/promotion/promotion-client.tsx:138 | a displayed number is a non-empty run of decimal digits without a leading zero |
| Text.IntString | src/app/promotion/promotion-client.tsx:138 | the text a numeric cell shows: non-empty, starting with a minus sign exactly for a negative number, and digits after it |
| Text.ParseIntString | src/app/promotion/promotion-client.tsx:138-139 | `parseInt` of the text an input cell shows for `n` gives back `n`, and so does `parseInt(...) \|\| 0` |
| Text.NoDigitsInputIsZero | src/app/promotion/promotion-client.tsx:139 | a text with no decimal digit after its leading white space and optional sign parses to NaN and is stored as 0 |
| Records.InsertAllAppends | src/app/api/promotion/route.ts:16-29 | writing rows keeps every earlier record in place and adds exactly one record per row |
| Records.AdmitsPrefix | src/app/api/promotion/route.ts:16-29 | a transaction the database accepts has every prefix accepted too |
| Records.AdmitsFirst | src/app/api/promotion/route.ts:16-29 | an accepted transaction has its first row accepted against the original tables |
| Records.InsertEnrollments | src/app/api/promotion/route.ts:16-29 | creating a batch of enrollments appends exactly that batch to the enrollments and leaves the other tables alone |
| Records.Store.constructor | src/app/api/promotion/route.ts:16 | a new database is empty and keeps the given acceptance rule |
| Records.Store.Transaction | src/app/api/promotion/route.ts:14-29 | the transaction commits exactly when the database accepts every row in turn; then all rows are stored in order, otherwise nothing changes |
| Records.LatestEnrollment | src/app/page.tsx:17-20 | `orderBy fiscalYear desc, take 1` finds nothing exactly when the student has no enrollment, otherwise one with the greatest fiscal year |
| Records.OpenInterval | src/app/page.tsx:21-24 | `statusHistory where endDate null, take 1` finds nothing exactly when the student has no open interval, otherwise an open interval of that student from the table |
| Records.InsertBySNumber | src/app/page.tsx:26 | inserting into a sorted list keeps it sorted and adds exactly that student |
| Records.SortBySNumber | src/app/page.tsx:26 | `orderBy sNumber asc`: the result is sorted and a permutation of the input |
| Records.SortKeepsMembers | src/app/page.tsx:26 | sorting keeps exactly the same students |
| Records.SortedAllPairs | src/app/page.tsx:26 | in a sorted list every earlier registration number is ordered before every later one |
| DashboardPage.Summarize | src/app/page.tsx:29-38 | the projected fields are copied; status is "UNKNOWN" without an open interval (or with an empty status), otherwise an open interval's; grade 0 and class "-" without enrollments, otherwise the latest enrollment's (an empty class becomes "-") |
| DashboardPage.GetStudents | src/app/page.tsx:13-43 | the mock list when the query throws; otherwise the summaries, in order, of a permutation of the students sorted by registration number, so one summary per student record (with its multiplicity) and every student's summary present |
| DashboardPage.MockDisplayNames | src/app/page.tsx:5-11 | in the mock list the student with an alias is shown by alias over legal name, the one without by legal name |
| DashboardClient.MatchesQuery | src/app/dashboard-client.tsx:41-45 | the empty query matches; a query equal to the legal name up to ASCII case matches; the registration number itself matches |
| DashboardClient.FilteredStudents | src/app/dashboard-client.tsx:41-45 | a student is shown exactly when legal name or non-empty alias contains the query ignoring ASCII case, or the registration number contains it as typed; the shown students keep the given order, each shown as often as it occurs |
| DashboardClient.FilterTwiceIsFilterOnce | src/app/dashboard-client.tsx:41-45 | searching the search result with the same query changes nothing |
| DashboardClient.EmptyQueryKeepsAll | src/app/dashboard-client.tsx:41-45 | the initial empty query shows every student |
| DashboardClient.WithStatusCount | src/app/dashboard-client.tsx:57-67 | the number of students a status filter keeps is the number of positions holding that status |
| DashboardClient.InGradeCount | src/app/dashboard-client.tsx:77 | the number of students a grade filter keeps is the number of positions holding that grade |
| DashboardClient.CountKpis | src/app/dashboard-client.tsx:57-77 | the cards show the number of students with status ACTIVE, with status WARNING, and in grade 3; each is at most the number of students, and the first two together are too |
| DashboardClient.DisplayName | src/app/dashboard-client.tsx:116-123 | the alias is shown over the legal name exactly when the flag is set and the alias is non-empty; otherwise the legal name alone |
| DashboardClient.Dashboard | src/app/dashboard-client.tsx:41-132 | the cards are the counts over the whole list; row i is the row of the i-th shown student, so there is one row per shown student, each of a student that matches the query |
| DashboardClient.KpisIgnoreQuery | src/app/dashboard-client.tsx:57-77 | the cards count the whole list whatever the query |
| StudentsApi.SearchMatches | src/app/api/students/route.ts:13-20 | no `q` or an empty `q` matches every student; a `q` equal to the legal name, the registration number or the alias matches |
| StudentsApi.ListingOf | src/app/api/students/route.ts:24-33 | at most one enrollment and one interval; the enrollment is one of fiscal year 2025 and is absent exactly when there is none; the interval is open and is absent exactly when none is open |
| StudentsApi.Listings | src/app/api/students/route.ts:13-35 | the listings, in order, of a permutation of the matching students sorted by registration number: every listed student matches the search, and every matching student record is listed with its relations, as often as it occurs |
| StudentsApi.ListStudents | src/app/api/students/route.ts:38-41 | a failed query answers 500 "Failed to fetch students" |
| StudentsApi.NoQueryListsEveryone | src/app/api/students/route.ts:13-20 | without `q`, or with an empty `q`, the listing has one entry per student record and every student is listed with its relations |
| StudentsApi.ListedEnrollmentNeedNotBeLatest | src/app/api/students/route.ts:25-28 | a student enrolled for 2025 and 2026 is listed with the 2025 enrollment, although the 2026 one is the latest |
| StudentsApi.NewStudent | src/app/api/students/route.ts:50-56 | the record carries the body's fields; the alias flag is set exactly when the body sent `true` |
| StudentsApi.CreationAppends | src/app/api/students/route.ts:49-73 | the nested create appends the student, its enrollment and its interval to their own tables |
| StudentsApi.PostStudent | src/app/api/students/route.ts:44-80 | an unreadable body or a refused write answers 500 "Failed to create student" and changes nothing; otherwise the student is returned and the three records are appended together |
| StudentsApi.CreatedStudentHasOnePlacement | src/app/api/students/route.ts:57-71 | under a fresh key the new student has one record, one enrollment (2025, ACTIVE, the body's placement) and one open ACTIVE interval from the creation time |
| StudentsApi.CreatedStudentIsListed | src/app/api/students/route.ts:4-42 | after the create, the listing without a query holds the new student with exactly that enrollment and that interval |
| PromotionPage.HasOpenActive | src/app/promotion/page.tsx:7-14 | a student with an open ACTIVE interval has an open interval |
| PromotionPage.BaseOf | src/app/promotion/page.tsx:24-31 | the identity fields are copied; without an enrollment grade 1, class "?" and number 0; otherwise the latest enrollment's placement, with grade 0 read as 1 and an empty class as "?" |
| PromotionPage.PromotionBases | src/app/promotion/page.tsx:6-31 | the projections, in order, of a permutation of the students with an open ACTIVE interval sorted by registration number: every eligible student record appears as often as it occurs, and no other |
| PromotionPage.StudentsForPromotion | src/app/promotion/page.tsx:4-42 | the mock list when the query throws; otherwise the query's sorted, projected result |
| PromotionClient.Get | src/app/promotion/promotion-client.tsx:20-25 | every field holds a value of its own type |
| PromotionClient.WithField | src/app/promotion/promotion-client.tsx:60 | `{ ...entry, [field]: value }`: the field written reads back the value written; every other field reads as before |
| PromotionClient.WithFieldOwnValue | src/app/promotion/promotion-client.tsx:60 | writing back a field's own value changes nothing |
| PromotionClient.InitialDrafts | src/app/promotion/promotion-client.tsx:32-41 | one draft per student, in order: same base fields, next grade one higher, same class and number, not retained |
| PromotionClient.WithRetain | src/app/promotion/promotion-client.tsx:43-55 | the checkbox sets the retain flag, sets the next grade to the current grade or one above it, and keeps the other fields |
| PromotionClient.InitialDraftsConsistent | src/app/promotion/promotion-client.tsx:32-41 | in the initial drafts the retain flag is set exactly when the next grade repeats the current one |
| PromotionClient.WithRetainConsistent | src/app/promotion/promotion-client.tsx:43-55 | after the checkbox the retain flag agrees with the next grade, whatever was typed before |
| PromotionClient.WithRetainIdempotent | src/app/promotion/promotion-client.tsx:43-55 | clicking to the same checkbox value again changes nothing more |
| PromotionClient.TypedGradeCanBreakConsistency | src/app/promotion/promotion-client.tsx:57-63 | typing the current grade into an entry that is not retained leaves the flag unset, so the flag no longer agrees with the grade |
| PromotionClient.RetypingDisplayedGradeIsNoOp | src/app/promotion/promotion-client.tsx:138-139 | typing back the number the next-grade cell shows leaves the entry unchanged |
| PromotionClient.UnparsableGradeIsZero | src/app/promotion/promotion-client.tsx:139 | a text without a number becomes grade 0 |
| PromotionClient.PromotionEditor.constructor | src/app/promotion/promotion-client.tsx:32-41 | the editor starts with the initial drafts, which are consistent |
| PromotionClient.PromotionEditor.RetainChange | src/app/promotion/promotion-client.tsx:43-55 | only the entry at the index changes, as the checkbox says; an editor whose entries all agree with their flags stays so |
| PromotionClient.PromotionEditor.InputChange | src/app/promotion/promotion-client.tsx:57-63 | only the named field of the entry at the index changes |
| PromotionClient.PromotionEditor.NextGradeTyped | src/app/promotion/promotion-client.tsx:136-140 | the next grade of that entry becomes `parseInt(text) \|\| 0`; nothing else changes |
| PromotionClient.PromotionEditor.NextClassTyped | src/app/promotion/promotion-client.tsx:143-147 | the next class of that entry becomes the text as typed; nothing else changes |
| PromotionClient.PromotionEditor.NextNoTyped | src/app/promotion/promotion-client.tsx:150-154 | the next number of that entry becomes `parseInt(text) \|\| 0`; nothing else changes |
| PromotionApi.NewEnrollments | src/app/api/promotion/route.ts:17-28 | one ACTIVE enrollment per directive, in order, for the target year, with the directive's student and placement |
| PromotionApi.PostPromotion | src/app/api/promotion/route.ts:4-36 | an unreadable body answers 500; a missing or non-array `promotions` answers 400 "Invalid data"; otherwise the batch is committed whole with the count in the reply, or refused whole with 500 "Failed to process promotions"; every failure changes nothing |
| PromotionApi.EmptyBatchCommitsNothing | src/app/api/promotion/route.ts:10-31 | an empty array passes the check, commits and adds nothing |
| PromotionApi.CommittedBatchAppends | src/app/api/promotion/route.ts:16-31 | a committed batch keeps every earlier record and adds one enrollment per directive |
| PromotionApi.RefusedDirectiveAbortsBatch | src/app/api/promotion/route.ts:14-29 | one refused directive refuses the whole batch |
| PromotionApi.ReplayRefusedUnderUniqueYear | src/app/api/promotion/route.ts:14-29 | under a one-enrollment-per-student-and-year rule, replaying a committed non-empty batch is refused |

## Left out

- Rendering: JSX markup, badges and links, the `/` keyboard shortcut that focuses the search
  field, and the `console` logging.
- React hooks: the model starts from the state the hooks hold.
  - `useState` and `useEffect` are not modelled; the editor's constructor is the initialising effect.
  - The dashboard's `students` state is never reassigned, so it is a plain input.
- `handleSubmit` in the promotion client only waits and shows an alert; it calls no API, so it has no model.
- The promotion client's in-place update aliasing is left out.
  - `handleRetainChange` copies the array and then mutates the shared entry object, so the previous state's entry changes too.
  - The model updates an array element by value, so it does not capture that sharing.
- Database internals:
  - the schema's uniqueness and foreign-key rules become the abstract `accepts` rule of `Records.Store`;
  - the id generation becomes the `id` parameter of `StudentsApi.PostStudent`;
  - the clock (`new Date()`) becomes the `now` parameter;
  - `new Date(body.birthday)` is taken as an already-converted timestamp;
  - concurrency and isolation between requests are not modelled.
- String order: `orderBy: 'asc'` is modelled as lexicographic order by code point. The database's collation is not modelled.
- `Text.Lower` lower-cases ASCII letters only. Unicode case mapping is not modelled.
- `Text.ParseInt` is modelled with unbounded integers. The loss of precision of JavaScript numbers above 2^53 is not modelled.
- Ties between equal fiscal years, or between several open intervals, are resolved in favour of the first record in table order. The contracts only promise one record with the greatest year, or one open interval.
- `StudentsApi.SearchMatches` is case-sensitive: GET uses Prisma's default `contains`, and the handler passes no `mode` (src/app/api/students/route.ts:15-19). A database collation that ignores case is not modelled.
- `PromotionApi.PostPromotion` checks neither for unknown students nor for duplicate fiscal years: the handler has no such check, so only `accepts` can refuse a directive (src/app/api/promotion/route.ts:16-29). `PromotionApi.ReplayRefusedUnderUniqueYear` shows what a one-enrollment-per-year rule in the database would give.
- `PromotionApi.PostPromotion` models the request's fields as already typed values. Directive fields of the wrong JSON type reach the database unconverted; here they are the database's to refuse, through `accepts`.
- `StudentsApi.PostStudent` models the body's fields as present and already typed. A missing or wrongly typed field reaches Prisma as it is; here it is the database's to refuse, through `accepts`.
- `Text.IntString` writes every integer in plain decimal. JavaScript's `String(n)` switches to exponent notation from 1e21 on ("1e+21", which `parseInt` reads back as 1), so `Text.ParseIntString` and `PromotionClient.RetypingDisplayedGradeIsNoOp` hold for JavaScript only below that magnitude.
- `PromotionClient.PromotionEditor.InputChange` requires the value to have the field's type. The handler itself accepts any value, but its three callers only pass a number or the typed text.
- The other routes and pages are not part of this model:
  - the student detail route and page;
  - the layout;
  - field history;
  - interval closing;
  - future-dated edits.
