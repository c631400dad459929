# Workout tracker core, in Dafny

This project models two pieces of logic from a small React workout tracker and
proves properties about them.

1. **The workout session engine** (`src/App.jsx`). The component's state is:
   - the session's exercises, each with sets of kg, reps and a done flag;
   - the history of finished workouts, newest first;
   - the saved templates;
   - the text of the name box;
   - the rest timer (`restTime`, `restActive`).

   This state becomes the fields of `WorkoutApp.App`. Each event handler becomes a method that states the whole new state. The pure parts live in `WorkoutModel`:
   - the template map and its expansion;
   - `splice(index, 1)`;
   - the "sets logged" reduce;
   - the rest-timer tick rule;
   - the definition of the answer `getBestSet` must give (the first maximum over the visited sets).

2. **The exercise library's query logic** (`src/exerciseLibrary.js`), in `ExerciseLibrary`:
   - the `MUSCLE_GROUPS` table;
   - `getMovementLabel` and `getBodyRegion`;
   - the five-criteria `filterExercises`;
   - `groupByMuscle`. This is an imperative method with two loops, proved against the function `Groups`.

`Maybe` holds the `Option` type.

Some modelling choices:
- A set's kg or reps box is `Field = Empty | Num(real)`. `Empty` is the `''` the `=== ''` guards test for. `Number('')` is 0, so an empty box contributes volume 0 in `getBestSet`.
- Doubles are modelled as reals.
- The prompt answer of `saveTemplate` is an `Option<string>`, with `None` meaning cancel. The date of `finishWorkout` is a parameter.
- The store holds the three lists the constructor receives.

## Model

| member | source | states |
|---|---|---|
| WorkoutApp.App.constructor | src/App.jsx:10-24 | the lists come from the store; name empty, timer idle at 0 |
| WorkoutApp.App.SetName | src/App.jsx:217 | only the name box changes |
| WorkoutApp.App.AddExercise | src/App.jsx:56-60 | no-op on exactly `''`; otherwise appends `{name, sets: []}` at the end and clears the box; nothing else changes |
| WorkoutApp.App.AddSet | src/App.jsx:62-73 | only the target exercise grows, by one set: a not-done copy of the last set's kg/reps, or a blank set when it had none |
| WorkoutApp.App.UpdateSet | src/App.jsx:81-85 | only the named box of the addressed set changes, done or not (the new set is `WithField` of the old, placed by `ReplaceSet`) |
| WorkoutApp.App.DoneSet | src/App.jsx:87-95 | no-op while kg or reps is empty; otherwise only that set becomes done and a 90-second rest starts |
| WorkoutApp.App.FinishWorkout | src/App.jsx:97-107 | no-op without exercises; otherwise the session, incomplete sets included, is prepended as one workout (older entries kept in order), the sets total grows by the session's set count, the session is emptied and the timer stopped at 0 |
| WorkoutApp.App.SaveTemplate | src/App.jsx:109-118 | no-op without exercises or on a cancelled or empty answer; otherwise appends the names-and-counts template |
| WorkoutApp.App.LoadTemplate | src/App.jsx:120-127 | the session becomes the template expanded to blank sets, and saving it again under the template's name gives the template back |
| WorkoutApp.App.DeleteTemplate | src/App.jsx:129-133 | the list becomes `splice(index, 1)`; for an index in range exactly that element goes and the rest keep their order |
| WorkoutApp.App.RestTick | src/App.jsx:43-54 | the timer takes one step of the tick rule; the time never rises and stays in [0, 90] |
| WorkoutApp.App.SkipRest | src/App.jsx:238 | the timer stops with its time unchanged |
| WorkoutApp.App.GetBestSet | src/App.jsx:135-150 | None exactly when no same-named exercise has a set; otherwise a volume at least that of every such set, done or not, and the first maximum in visiting order; the visiting order of the three loops (workouts newest first, then exercises, then sets) is the function `HistorySets` over `MatchingSets`, whose content `HistorySetsMembership` and `MatchingSetsMembership` state |
| WorkoutModel.TemplateOf | src/App.jsx:113-116 | the template object built by `saveTemplate`: the given name, and per exercise its name and the length of its set list, in session order |
| WorkoutModel.Expand | src/App.jsx:121-124 | the `template.exercises.map` of `loadTemplate`: per template entry, an exercise of that name with exactly `sets` sets, each `{kg: '', reps: '', done: false}` |
| WorkoutModel.SetCount | src/App.jsx:179 | the inner reduce `s + ex.sets.length`: zero exactly when every exercise has no sets, and at least each exercise's own set count; that it is the sum of the lengths is `SetCountConcat` with `SetCountOne` |
| WorkoutModel.SetCountConcat | src/App.jsx:179 | the inner reduce adds over concatenation of exercise lists |
| WorkoutModel.SetCountOne | src/App.jsx:179 | one exercise contributes exactly `ex.sets.length` |
| WorkoutModel.TotalSets | src/App.jsx:179 | the outer reduce over history ("Sæt logget"): zero exactly when every workout's set count is zero, and at least each workout's set count |
| WorkoutModel.Tick | src/App.jsx:43-54 | one run of the effect with its timeout: never raises the time, keeps a non-negative time non-negative, never switches the timer on; if still active afterwards it was active and lost exactly one second, if inactive afterwards the time is unchanged |
| WorkoutModel.Ticks | src/App.jsx:43-54 | the effect run `n` times in a row: the time never rises, and if still active the timer was active and lost exactly `n` seconds |
| WorkoutModel.NumberOf | src/App.jsx:141 | `Number(set.kg)` / `Number(set.reps)`: 0 for an empty box, the number otherwise |
| WorkoutModel.Volume | src/App.jsx:141 | `Number(set.kg) * Number(set.reps)`: 0 when either box is empty, the product of the two numbers otherwise |
| WorkoutModel.WithField | src/App.jsx:83 | the write `newExercises[exIndex].sets[setIndex][field] = value`: the named box takes the value, the other box and the done flag are kept |
| WorkoutModel.ReplaceSet | src/App.jsx:81-91 | one set of one exercise replaced; lengths, names and every other set unchanged |
| WorkoutModel.LoadAfterSave | src/App.jsx:113-124 | loading a saved template keeps names, order and per-exercise set counts, every set blank |
| WorkoutModel.SaveAfterLoad | src/App.jsx:113-124 | saving a loaded template under its name returns the template |
| WorkoutModel.SaveForgetsValues | src/App.jsx:113-124 | a session and its reloaded template save to the same template |
| WorkoutModel.SpliceOne | src/App.jsx:129-133 | in range: exactly element `start` removed (prefix kept, suffix shifted, multiset less that element); past the end: unchanged; negative: counted from the end, clamped at 0; an empty list stays empty |
| WorkoutModel.TotalSetsConcat | src/App.jsx:179 | the sets total of a concatenation is the sum of the totals |
| WorkoutModel.FinishAddsSets | src/App.jsx:179 | prepending a workout adds exactly its set rows to the total |
| WorkoutModel.SetCountOfLoaded | src/App.jsx:121-124 | a loaded template has exactly the set count it records |
| WorkoutModel.Countdown | src/App.jsx:43-54 | started at n the timer reads n-k after k ticks for k up to n, then is off at 0 |
| WorkoutModel.StaysOff | src/App.jsx:43-44 | an inactive timer is left alone by any number of ticks |
| WorkoutModel.TicksStayInRange | src/App.jsx:43-54 | from a non-negative time any number of ticks keeps it between 0 and the start |
| WorkoutModel.ScanStep | src/App.jsx:141-144 | one step of the strict `>` scan keeps the first maximum of the sets seen so far |
| WorkoutModel.FirstMaximumUnique | src/App.jsx:142 | the first maximum of a visiting order is unique |
| WorkoutModel.MatchingSetsMembership | src/App.jsx:138-140 | a set is visited in a workout exactly when it belongs to an exercise of that name |
| WorkoutModel.HistorySetsMembership | src/App.jsx:137-140 | a set is visited exactly when some workout has an exercise of that name holding it |
| WorkoutModel.RecordBoundsEverySet | src/App.jsx:135-150 | the first maximum bounds the volume of every same-named set in history |
| WorkoutModel.HistorySetsEmpty | src/App.jsx:136-149 | nothing is visited exactly when no same-named exercise has a set |
| ExerciseLibrary.MovementLabel | src/exerciseLibrary.js:79-84 | Push/Pull by movement first, then Core by muscle, else `''`; each outcome as an if-and-only-if |
| ExerciseLibrary.BodyRegion | src/exerciseLibrary.js:87-90 | the table's region for a known muscle, `upper` otherwise; `lower` exactly for legs |
| ExerciseLibrary.Lower | src/exerciseLibrary.js:95 | `toLowerCase` on both sides of the search: same length, each ASCII capital replaced by its lower-case letter, every other character kept |
| ExerciseLibrary.Contains | src/exerciseLibrary.js:95 | `String.prototype.includes`: holds only when the part is no longer than the text, and always for the empty part |
| ExerciseLibrary.ContainsMeansOccurs | src/exerciseLibrary.js:95 | `includes` holds exactly when the part occurs at some position |
| ExerciseLibrary.MovementMatches | src/exerciseLibrary.js:97-102 | the four `movement` tests: push and pull compare the movement, upper accepts exactly the non-legs muscles, lower exactly legs |
| ExerciseLibrary.Matches | src/exerciseLibrary.js:94-106 | the `filter` callback; with the default options it accepts every entry |
| ExerciseLibrary.MatchesMeans | src/exerciseLibrary.js:95-104 | the callback accepts exactly when every active criterion holds; upper/lower is the region test |
| ExerciseLibrary.FilterExercises | src/exerciseLibrary.js:93-107 | every kept entry is in the input and passes; every passing input entry is kept; each entry occurs in the result exactly as often as in the input if it passes and never otherwise (multiset count) |
| ExerciseLibrary.FilterIsSubsequence | src/exerciseLibrary.js:93-107 | the result is a subsequence of the input (order preserved) |
| ExerciseLibrary.FilterDefaultKeepsAll | src/exerciseLibrary.js:93-106 | with the default options the input comes back unchanged |
| ExerciseLibrary.FilterIdempotent | src/exerciseLibrary.js:93-107 | filtering twice with the same options equals filtering once |
| ExerciseLibrary.MusclesMembership | src/exerciseLibrary.js:114-116 | a muscle is present exactly when some entry has it |
| ExerciseLibrary.FirstIndexIsFirst | src/exerciseLibrary.js:115 | the recorded first appearance of a muscle is the first entry with it |
| ExerciseLibrary.Bucket | src/exerciseLibrary.js:114-116 | the array `groups[m]` after the loop's pushes: never longer than the input; its content is stated by `BucketMembers`, `BucketFacts` and `ConcatBucketsPartition` |
| ExerciseLibrary.BucketMembers | src/exerciseLibrary.js:114-116 | a bucket holds exactly the entries of its muscle |
| ExerciseLibrary.BucketFacts | src/exerciseLibrary.js:114-116 | a bucket keeps input order, and is non-empty exactly when the muscle occurs |
| ExerciseLibrary.KeyOrder | src/exerciseLibrary.js:111-116 | the insertion order of the keys of `groups`: at least the six known muscles, at most one more key per entry; the order itself is stated by `KeyOrderFacts` |
| ExerciseLibrary.KeyOrderFacts | src/exerciseLibrary.js:111-116 | the keys are the six known muscles in table order, then the others as first met; ranks strictly increase |
| ExerciseLibrary.NonEmptyGroups | src/exerciseLibrary.js:118 | `Object.entries(groups).filter(...)` over the given keys: at most one group per key; which groups and in which order is stated by `NonEmptyGroupsShape` and `NonEmptyGroupsOrdered` |
| ExerciseLibrary.Groups | src/exerciseLibrary.js:110-119 | what `groupByMuscle` returns: at most one group per known muscle plus one per entry; its meaning is `GroupsAreGroupedByMuscle` |
| ExerciseLibrary.NonEmptyGroupsShape | src/exerciseLibrary.js:118 | each listed group is the whole non-empty bucket of a key; every key with a non-empty bucket is listed |
| ExerciseLibrary.NonEmptyGroupsOrdered | src/exerciseLibrary.js:118 | dropping empty groups keeps the keys' rank order |
| ExerciseLibrary.ConcatBucketsStep | src/exerciseLibrary.js:114-116 | pushing an entry adds it to exactly one bucket |
| ExerciseLibrary.ConcatBucketsPartition | src/exerciseLibrary.js:113-117 | with distinct keys covering every muscle the buckets together are a permutation of the input |
| ExerciseLibrary.KeysCoverMuscles | src/exerciseLibrary.js:113-116 | the keys are distinct and include every muscle present |
| ExerciseLibrary.GroupsArePermutation | src/exerciseLibrary.js:110-119 | the groups concatenated are a permutation of the input |
| ExerciseLibrary.GroupsAreBuckets | src/exerciseLibrary.js:110-119 | every group is non-empty, keeps input order and holds exactly the entries of its muscle |
| ExerciseLibrary.GroupsAreOrdered | src/exerciseLibrary.js:110-119 | group keys are distinct, known muscles in table order first, then the others by first appearance |
| ExerciseLibrary.GroupsCoverMuscles | src/exerciseLibrary.js:110-119 | every muscle in the input has a group |
| ExerciseLibrary.GroupsAreGroupedByMuscle | src/exerciseLibrary.js:110-119 | all of the above about the grouping at once |
| ExerciseLibrary.GroupByMuscle | src/exerciseLibrary.js:110-119 | the two loops compute exactly `Groups`, which is grouped by muscle as above |

## Left out

- The splash screen and its timeout, the page switch and all rendering are UI and not modelled.
- The store effects (`localStorage`) are I/O. The initial lists are constructor parameters, and writing back is not modelled.
- The `prompt` answer and the Danish date string come from the host and are parameters. `navigator.vibrate` and the input focus after `addSet` have no effect on the state.
- The shallow copies followed by in-place writes mean that `addSet`, `updateSet` and `doneSet` also alter the set lists shared with the previous state, and a workout in history shares its lists with the session it came from. The model uses value semantics, so that sharing is not captured.
- The kg and reps boxes hold strings in the source. The model keeps "empty or a number", so `Number` of a non-numeric text (NaN) and double rounding are not modelled.
- `WorkoutApp.App.RestTick` merges one run of the effect with its one-second timeout. The cancellation of a pending timeout when the effect re-runs is concurrency and is not modelled.
- `ExerciseLibrary.Lower` lower-cases ASCII letters only. `toLowerCase` also folds other Unicode letters.
- `ExerciseLibrary.GroupByMuscle` keeps keys in insertion order. JavaScript's `Object.entries` lists integer-like keys (a muscle named "3") first, and keys such as `__proto__` or `constructor` behave specially on a plain object. Both are outside the model.
- `ExerciseLibrary.BodyRegion`, `ExerciseLibrary.MovementMatches` and `ExerciseLibrary.MatchesMeans` treat the table as a plain map. In the source, `MUSCLE_GROUPS[exercise.muscle]` also finds properties inherited from `Object.prototype`: for a muscle named "constructor" or "toString", `getBodyRegion` returns `undefined`, so the 'upper' filter drops that entry where the model answers "upper" and keeps it.
- An exercise's `type` field, the colours and icons of `MUSCLE_GROUPS`, `EQUIPMENT_TYPES` and the default exercise list are data that none of the modelled operations read.
- Four behaviours a reader might not expect, each modelled as the code does it:
  - `finishWorkout` keeps incomplete sets;
  - `updateSet` has no guard on `done`;
  - the best set counts sets that are not done and empty boxes (volume 0);
  - the rest length is always 90 seconds.
