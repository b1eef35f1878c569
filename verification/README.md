# Grades screen: section building, term GPA and grade colours

This project models the non-presentation logic of the mobile app's grades
screen (`views/profile/Grades.js`):

- **Section building.** The screen gets a term-keyed payload object. Its own
  keys are term codes, each holding that term's course records. It also has
  the two reserved keys `loaded` and `gpa`. The delivery handler `loadInfo`
  walks the keys in for-in order and skips the reserved ones. For every other
  key it pushes a section `{term: translate_term(key), content: data[key]}`.
  It then calls `grades.sort().reverse()`. The default comparator compares
  every section as the string `"[object Object]"` and the sort is stable
  (as required since ECMAScript 2019), so
  the net effect is a plain reversal of enumeration order.
- **View state.** The state record is `loaded`, `failed`, `gpa`,
  `activeSections`, `grades`. Mounting either loads the cache at once (when
  the cache's `loaded` flag is truthy) or subscribes to deliveries. Every
  delivery re-runs `loadInfo`. There is no one-shot guard, and the model
  keeps it that way. The accordion handler `_updateSections` replaces
  `activeSections`.
- **Term GPA.** Each expanded section's content shows the sum of `POINTS` over the sum of
  `GPA_HRS` across the section's courses. The model works over `real` and
  returns `None` when the hours sum to zero. The source gets `NaN` or
  `Infinity` in that case.
- **Grade colour.** `gradeColor(hours, points)` gives the fixed blue
  `#2699FB` for zero hours. Otherwise it gives `hsl(h, 80%, 50%)` with
  `h = 100 * (((2r - 1)^3 + 1) / 2)` and `r = points / (4 * hours)`.

Files and modules:

- `wrappers.dfy` (`Wrappers`): `Option`.
- `payload.dfy` (`Payload`): course records, payload values and entries,
  property access, truthiness, and the term entries.
- `stable_sort.dfy` (`StableSort`): `Array.prototype.sort` without a
  comparator, as a stable insertion sort on string keys.
- `aggregator.dfy` (`Aggregator`): sections, the push loop, `reverse`, and
  the sections' relation to the payload.
- `term_gpa.dfy` (`TermGpa`): sums, term GPA, the render loop, and order and
  scale properties.
- `grade_color.dfy` (`GradeColor`): the colour function and the ease curve's
  properties.
- `grades_screen.dfy` (`GradesScreen`): view state, `loadInfo`,
  `_updateSections`, mounting and deliveries.

A payload is a `seq<Entry>` in for-in enumeration order. Ordering the keys
is the JavaScript engine's job: integer-like keys come first, ascending, then
the other keys in insertion order. The model takes that order as given. The
screen shows the most recent term first only when the terms enumerate oldest
first. The code does not sort by term code.

Two external lookup tables are involved. `translate_term` becomes a function
parameter `translateTerm: string -> string`. `translate_course` is used only
while rendering a course row, so it does not appear.

## Model

| member | source | states |
|---|---|---|
| Payload.Get | views/profile/Grades.js:144 | `data[key]` is the value stored under some entry with that key, or `undefined` when no entry has that key |
| Payload.GetEnumerated | views/profile/Grades.js:144 | in an object with distinct keys, `data[entry]` for an enumerated key is exactly the value enumerated with it |
| Payload.TermEntries | views/profile/Grades.js:144 | no entry the loop keeps has the key `loaded` or `gpa`, and it keeps at most as many entries as the payload has |
| Payload.TermEntriesMembers | views/profile/Grades.js:144 | the entries the loop keeps are exactly the payload's entries whose key is neither `loaded` nor `gpa` |
| Payload.TermEntriesKeepOrder | views/profile/Grades.js:144 | the loop keeps term entries in enumeration order: two term entries enumerated in order `i < j` are kept at positions `a < b` |
| Payload.TermEntriesDistinct | views/profile/Grades.js:144 | dropping the reserved keys leaves the term keys distinct, so no term gets two sections |
| StableSort.Insert | views/profile/Grades.js:145 | inserting into a sorted sequence keeps it sorted, adds exactly the new element, and places it last when nothing compares above it |
| StableSort.SortBy | views/profile/Grades.js:145 | the default-comparator sort returns a permutation of its input ordered by string conversion |
| StableSort.SortByConstantKey | views/profile/Grades.js:145 | when every element converts to the same string, the stable sort returns its input unchanged |
| Aggregator.CollectSections | views/profile/Grades.js:143-144 | the for-in loop pushes one section per non-reserved key, in enumeration order, labelled by the translated key and holding `data[key]` |
| Aggregator.Reverse | views/profile/Grades.js:145 | `reverse()` puts element `i` at position `n - 1 - i` and keeps the length |
| Aggregator.SortLeavesSectionsInPlace | views/profile/Grades.js:145 | `grades.sort()` is a no-op on section objects, since all of them convert to `"[object Object]"` |
| Aggregator.BuildSectionsReversesTerms | views/profile/Grades.js:142-145 | the loaded sections are the term entries in exactly reverse enumeration order: as many sections as term keys, each with `term = translate_term(key)` and `content = data[key]` unmodified |
| Aggregator.BuildSectionsReverseOrder | views/profile/Grades.js:142-145 | of any two term keys of the payload, the one enumerated later has its section earlier on screen |
| Aggregator.BuildSectionsCoversTerms | views/profile/Grades.js:142-145 | every non-reserved payload entry has its section, and every section comes from a non-reserved entry |
| TermGpa.TermGpa | views/profile/Grades.js:66-72 | no finite GPA exactly when the GPA hours sum to zero; otherwise GPA times the hour sum equals the points sum |
| TermGpa.RenderedGpa | views/profile/Grades.js:66-72 | the accumulation loop over a section's courses yields the term GPA of those courses |
| TermGpa.SectionGpa | views/profile/Grades.js:68-72 | a section whose value is not a course list has no finite GPA (a boolean, number or `undefined` gives 0/0; a string's characters give NaN sums); otherwise it has its courses' term GPA |
| TermGpa.TotalPermutation | views/profile/Grades.js:66-71 | the hour and point sums do not depend on course order |
| TermGpa.TermGpaPermutationInvariant | views/profile/Grades.js:66-72 | permuting a term's courses does not change its GPA |
| TermGpa.TermGpaWithinScale | views/profile/Grades.js:66-72 | with every course at 0 to 4 points per GPA hour and a positive hour sum, the term GPA exists and lies in [0, 4] |
| GradeColor.GradeColor | views/profile/Grades.js:17-22 | zero hours, and only zero hours, give the neutral colour; every other colour has saturation 80 and lightness 50, with the eased hue of `points / (hours * 4)` |
| GradeColor.NeutralIgnoresPoints | views/profile/Grades.js:18 | with zero hours the colour is the fixed `#2699FB` whatever the points |
| GradeColor.HueAnchors | views/profile/Grades.js:20-21 | the curve gives hue 0 at ratio 0, 50 at ratio 0.5 and 100 at ratio 1 |
| GradeColor.GradeColorAnchors | views/profile/Grades.js:17-22 | four hours with 0, 8 and 16 points give hues 0, 50 and 100 |
| GradeColor.HueMonotone | views/profile/Grades.js:20-21 | the eased hue never decreases as the ratio grows |
| GradeColor.HueWithinRange | views/profile/Grades.js:20-21 | ratios in [0, 1] give hues in [0, 100] |
| GradeColor.HueSymmetric | views/profile/Grades.js:20-21 | `hue(r) + hue(1 - r) = 100`: the curve is symmetric about the midpoint |
| GradeColor.GradeColorScaleInvariant | views/profile/Grades.js:19 | scaling hours and points by the same nonzero factor leaves the colour unchanged |
| GradeColor.GradeColorOrdersPoints | views/profile/Grades.js:19-21 | for positive hours, more points never lower the hue, and points within the 4.0 scale give a hue in [0, 100] |
| GradesScreen.LoadInfo | views/profile/Grades.js:141-149 | with a payload, the sections are rebuilt, `gpa` becomes `data.gpa` and `failed` is kept; without one, `failed` is raised and sections and `gpa` are kept; `loaded` ends true, `failed` is never cleared and `activeSections` is never touched |
| GradesScreen.UpdateSections | views/profile/Grades.js:137-139 | the expanded sections are replaced and nothing else changes |
| GradesScreen.Mount | views/profile/Grades.js:29-35 | a cache flagged loaded is loaded at once with no subscription; otherwise the screen subscribes and stays in the initial state (`loaded=false`, `failed=false`, `gpa=''`, `activeSections=[0]`, `grades=[]`) |
| GradesScreen.Deliver | views/profile/Grades.js:34 | a delivery re-runs `loadInfo` on a subscribed screen and leaves an unsubscribed one alone |
| GradesScreen.LoadInfoIdempotent | views/profile/Grades.js:141-149 | handling the same delivery twice gives the same state as handling it once |
| GradesScreen.LoadInfoCommutesWithUpdate | views/profile/Grades.js:137-149 | the delivery handler and the accordion handler touch disjoint fields, so either order gives the same state |
| GradesScreen.UpdateSectionsLastWins | views/profile/Grades.js:137-139 | after two accordion changes only the last one is visible |
| GradesScreen.MountThenDeliver | views/profile/Grades.js:29-35 | a screen waiting for data ends loaded with the first section expanded: a payload gives `failed=false` and one section per term key; no payload gives `failed=true`, no sections and an empty `gpa` |
| GradesScreen.DeliverAllFailedIffSomeAbsent | views/profile/Grades.js:141-148 | over any series of deliveries, the screen ends loaded and has failed exactly when some delivery carried no payload (or it had failed already); the expanded sections stay as they were |
| GradesScreen.DeliverAllLastPayloadWins | views/profile/Grades.js:141-148 | with no one-shot guard, the sections and overall GPA are those of the last delivery that carried a payload |
| GradesScreen.NoPayloadKeepsContent | views/profile/Grades.js:147 | deliveries without a payload never change the sections or the overall GPA |

## Left out

- JSX rendering, styles, `FN` scaling, `Accordion`, `Tag` and `RoundedCardTitle`: presentation only.
- The error toast in `componentDidMount` (`views/profile/Grades.js:37-39`): a UI side effect.
- The event-bus subscription and the `globals` singleton. A delivery is a direct call to the handler, and the cache is a payload passed to `Mount`. The source never unsubscribes, so the model has no unsubscribe either.
- `parseFloat`, `Number(...)`, `toFixed(2)`, `Math.floor`, and NaN/Infinity. Numeric fields are `real`, the term GPA is not rounded to two places, and a zero hour sum gives `None`. That `None` stands for both NaN (0/0) and Infinity (x/0). NaN also has no place in `Truthy`.
- GradeColor.GradeColor: the numeric comparison replaces the loose string equality `attempted == 0` of the source. The source passes `GPA_HRS` as the `attempted` argument, and the model follows that.
- The loop variable `entry` is undeclared in the source. The model treats it as a declared loop variable, which is what the loop evidently means.
- The payload's key order is an input. The JavaScript enumeration rule (integer-like keys first, ascending) is not modelled.
- StableSort.StrLt compares Unicode scalar values. JavaScript compares UTF-16 code units, and the two orders differ only for characters outside the Basic Multilingual Plane. Every key compared here is the same string, so this does not affect any result.
- Truthy non-object arguments to `loadInfo` are not modelled separately. A truthy number, boolean or symbol has no enumerable keys and behaves like the empty payload `Some([])`. A non-empty string enumerates its index keys `"0"` to `"n-1"`, so it behaves like the payload `Some([Entry("0", Str(c0)), ..., Entry("n-1", Str(cn-1))])` of its one-character strings, with `gpa` undefined. The model can express that payload directly.
- The sort step assumes a stable `Array.prototype.sort`, as ECMAScript 2019 and later require. Older engines (V8 before version 7.0 used an unstable quicksort for arrays longer than 10) could permute the sections before the reversal.
- `translate_term` and `translate_course`: external lookup tables. The first is an arbitrary function parameter. The second is only used while rendering.
- `views/Login.js`: a static form with no-op handlers, so it has no logic.
