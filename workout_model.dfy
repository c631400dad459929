/**
 * The values behind the workout screen of src/App.jsx: sets, exercises,
 * finished workouts and templates, and the pure functions the handlers use
 * (the template `map`/`Array.from` expressions, the sets total `reduce`,
 * `splice`, the rest-timer tick rule and the order in which getBestSet
 * visits the history).
 */
module WorkoutModel {
  import opened Maybe

  /** A kg or reps input box: left empty (''), or holding the number typed in it. */
  datatype Field = Empty | Num(value: real)

  /** One row of an exercise card: weight, repetitions and whether it was ticked off. */
  datatype WorkoutSet = WorkoutSet(kg: Field, reps: Field, done: bool)

  datatype Exercise = Exercise(name: string, sets: seq<WorkoutSet>)

  /** A finished session as it is kept in the history (newest first). */
  datatype Workout = Workout(date: string, exercises: seq<Exercise>)

  /** A template keeps each exercise's name and only the number of its sets. */
  datatype TemplateExercise = TemplateExercise(name: string, sets: nat)
  datatype Template = Template(name: string, exercises: seq<TemplateExercise>)

  /** The personal record shown on an exercise card. */
  datatype BestSet = BestSet(kg: Field, reps: Field, volume: real)

  /** The two fields an input box of a set row can edit. */
  datatype SetField = Kg | Reps

  /** The one rest-timer slot: seconds left and whether it is counting. */
  datatype RestTimer = RestTimer(time: int, active: bool)

  /** A set row with both boxes empty and not ticked off. */
  const BlankSet := WorkoutSet(Empty, Empty, false)

  /** Every ticked-off set starts a rest of this many seconds. */
  const RestSeconds := 90

  // ---------------------------------------------------------------------
  // Editing one set

  /** The set with one of its boxes set to `value`; `done` is left alone. */
  function WithField(s: WorkoutSet, field: SetField, value: Field): (r: WorkoutSet)
    ensures r.done == s.done
    ensures field == Kg ==> r.kg == value && r.reps == s.reps
    ensures field == Reps ==> r.reps == value && r.kg == s.kg
  {
    match field
    case Kg => s.(kg := value)
    case Reps => s.(reps := value)
  }

  /** The exercise list with set `j` of exercise `i` replaced by `s`. */
  function ReplaceSet(exs: seq<Exercise>, i: nat, j: nat, s: WorkoutSet): (r: seq<Exercise>)
    requires i < |exs| && j < |exs[i].sets|
    ensures |r| == |exs|
    ensures forall k :: 0 <= k < |exs| && k != i ==> r[k] == exs[k]
    ensures r[i].name == exs[i].name && |r[i].sets| == |exs[i].sets| && r[i].sets[j] == s
    ensures forall k :: 0 <= k < |exs[i].sets| && k != j ==> r[i].sets[k] == exs[i].sets[k]
  {
    exs[i := exs[i].(sets := exs[i].sets[j := s])]
  }

  // ---------------------------------------------------------------------
  // Templates: saveTemplate's `map` and loadTemplate's `Array.from`

  /** The template saveTemplate builds: every exercise reduced to its name and set count. */
  function TemplateOf(name: string, exs: seq<Exercise>): (t: Template)
    ensures t.name == name && |t.exercises| == |exs|
    ensures forall i :: 0 <= i < |exs| ==>
      t.exercises[i].name == exs[i].name && t.exercises[i].sets == |exs[i].sets|
  {
    Template(name, seq(|exs|, i requires 0 <= i < |exs| => TemplateExercise(exs[i].name, |exs[i].sets|)))
  }

  /** The session loadTemplate builds: each exercise with that many blank sets. */
  function Expand(t: Template): (exs: seq<Exercise>)
    ensures |exs| == |t.exercises|
    ensures forall i :: 0 <= i < |exs| ==>
      exs[i].name == t.exercises[i].name && |exs[i].sets| == t.exercises[i].sets
    ensures forall i, k :: 0 <= i < |exs| && 0 <= k < |exs[i].sets| ==> exs[i].sets[k] == BlankSet
  {
    seq(|t.exercises|, i requires 0 <= i < |t.exercises| =>
      Exercise(t.exercises[i].name, seq(t.exercises[i].sets, _ => BlankSet)))
  }

  /** Loading a saved template gives back the session's exercise names, in order,
      with the same number of sets each, every one of them blank. */
  lemma LoadAfterSave(name: string, exs: seq<Exercise>)
    ensures var loaded := Expand(TemplateOf(name, exs));
      && |loaded| == |exs|
      && (forall i :: 0 <= i < |exs| ==> loaded[i].name == exs[i].name && |loaded[i].sets| == |exs[i].sets|)
      && (forall i, k :: 0 <= i < |exs| && 0 <= k < |loaded[i].sets| ==> loaded[i].sets[k] == BlankSet)
  {
  }

  /** Saving a freshly loaded template under its own name gives the template back. */
  lemma SaveAfterLoad(t: Template)
    ensures TemplateOf(t.name, Expand(t)) == t
  {
    var back := TemplateOf(t.name, Expand(t));
    assert |back.exercises| == |t.exercises|;
    forall i | 0 <= i < |t.exercises|
      ensures back.exercises[i] == t.exercises[i]
    {
      assert |Expand(t)[i].sets| == t.exercises[i].sets;
    }
  }

  /** Saving is insensitive to what was typed into the sets: a session and the
      session loaded from its template save to the same template. */
  lemma SaveForgetsValues(name: string, exs: seq<Exercise>)
    ensures TemplateOf(name, Expand(TemplateOf(name, exs))) == TemplateOf(name, exs)
  {
    SaveAfterLoad(TemplateOf(name, exs));
  }

  // ---------------------------------------------------------------------
  // deleteTemplate: `splice(index, 1)`

  /** Array.prototype.splice(start, 1): a negative start counts from the end
      (clamped at 0), a start past the end removes nothing. */
  function SpliceOne<T>(s: seq<T>, start: int): (r: seq<T>)
    ensures 0 <= start < |s| ==>
      && |r| == |s| - 1
      && (forall k :: 0 <= k < start ==> r[k] == s[k])
      && (forall k :: start <= k < |r| ==> r[k] == s[k + 1])
      && multiset(r) + multiset{s[start]} == multiset(s)
    ensures start >= |s| ==> r == s
    ensures -|s| <= start < 0 ==> r == s[..|s| + start] + s[|s| + start + 1..]
    ensures start < -|s| && s != [] ==> r == s[1..]
    ensures s == [] ==> r == []
  {
    var k := if start < 0 then (if |s| + start < 0 then 0 else |s| + start)
             else if start > |s| then |s| else start;
    if k < |s| then
      assert s == s[..k] + [s[k]] + s[k + 1..];
      s[..k] + s[k + 1..]
    else s
  }

  // ---------------------------------------------------------------------
  // The "Sæt logget" statistic: `history.reduce(... ex.sets.length ...)`

  /** The inner reduce: the number of set rows over a list of exercises. */
  function SetCount(exs: seq<Exercise>): (n: nat)
    ensures n == 0 <==> forall i :: 0 <= i < |exs| ==> exs[i].sets == []
    ensures forall i :: 0 <= i < |exs| ==> |exs[i].sets| <= n
  {
    if exs == [] then 0 else SetCount(exs[..|exs| - 1]) + |exs[|exs| - 1].sets|
  }

  /** The outer reduce: the number of set rows over the whole history. */
  function TotalSets(history: seq<Workout>): (n: nat)
    ensures n == 0 <==> forall i :: 0 <= i < |history| ==> SetCount(history[i].exercises) == 0
    ensures forall i :: 0 <= i < |history| ==> SetCount(history[i].exercises) <= n
  {
    if history == [] then 0
    else TotalSets(history[..|history| - 1]) + SetCount(history[|history| - 1].exercises)
  }

  /** The inner reduce is a sum: it adds over concatenation ... */
  lemma {:induction false} SetCountConcat(a: seq<Exercise>, b: seq<Exercise>)
    ensures SetCount(a + b) == SetCount(a) + SetCount(b)
    decreases |b|
  {
    if b == [] {
      assert a + b == a;
    } else {
      var b' := b[..|b| - 1];
      assert (a + b)[..|a + b| - 1] == a + b';
      SetCountConcat(a, b');
    }
  }

  /** ... and one exercise contributes the length of its set list. */
  lemma SetCountOne(e: Exercise)
    ensures SetCount([e]) == |e.sets|
  {
    assert [e][..0] == [];
  }

  lemma {:induction false} TotalSetsConcat(a: seq<Workout>, b: seq<Workout>)
    ensures TotalSets(a + b) == TotalSets(a) + TotalSets(b)
    decreases |b|
  {
    if b == [] {
      assert a + b == a;
    } else {
      var b' := b[..|b| - 1];
      assert (a + b)[..|a + b| - 1] == a + b';
      TotalSetsConcat(a, b');
    }
  }

  /** Prepending a finished workout adds its set rows, done or not, to the total. */
  lemma FinishAddsSets(w: Workout, history: seq<Workout>)
    ensures TotalSets([w] + history) == SetCount(w.exercises) + TotalSets(history)
  {
    TotalSetsConcat([w], history);
    assert [w][..0] == [];
  }

  /** A loaded template contributes exactly its recorded set counts. */
  lemma {:induction false} SetCountOfLoaded(t: Template)
    ensures SetCount(Expand(t)) == TemplateSetCount(t.exercises)
    decreases |t.exercises|
  {
    if t.exercises != [] {
      var t' := Template(t.name, t.exercises[..|t.exercises| - 1]);
      assert Expand(t)[..|Expand(t)| - 1] == Expand(t');
      SetCountOfLoaded(t');
    }
  }

  /** The number of sets a template describes. */
  function TemplateSetCount(tes: seq<TemplateExercise>): nat
  {
    if tes == [] then 0 else TemplateSetCount(tes[..|tes| - 1]) + tes[|tes| - 1].sets
  }

  // ---------------------------------------------------------------------
  // The rest timer: the effect on [restActive, restTime] and its 1-second timeout

  /** One step of the rest effect: nothing while inactive, switch off at 0 or
      below, otherwise one second less. */
  function Tick(r: RestTimer): (next: RestTimer)
    ensures next.time <= r.time
    ensures r.time >= 0 ==> next.time >= 0
    ensures next.active ==> r.active && next.time == r.time - 1
    ensures !next.active ==> next.time == r.time
  {
    if !r.active then r
    else if r.time <= 0 then RestTimer(r.time, false)
    else RestTimer(r.time - 1, true)
  }

  /** `n` steps of the rest effect. */
  function Ticks(r: RestTimer, n: nat): (after: RestTimer)
    ensures after.time <= r.time
    ensures after.active ==> r.active && after.time == r.time - n
    decreases n
  {
    if n == 0 then r else Ticks(Tick(r), n - 1)
  }

  /** Started at `n`, the timer counts down one per tick while it is active,
      stays at 0 and switches off on tick n + 1, and then stays off. */
  lemma {:induction false} Countdown(n: nat, k: nat)
    ensures k <= n ==> Ticks(RestTimer(n, true), k) == RestTimer(n - k, true)
    ensures k > n ==> Ticks(RestTimer(n, true), k) == RestTimer(0, false)
    decreases k
  {
    if k > 0 {
      if n == 0 {
        StaysOff(0, k - 1);
      } else {
        Countdown(n - 1, k - 1);
      }
    }
  }

  /** An inactive timer is left alone by every tick. */
  lemma {:induction false} StaysOff(t: int, k: nat)
    ensures Ticks(RestTimer(t, false), k) == RestTimer(t, false)
    decreases k
  {
    if k > 0 {
      StaysOff(t, k - 1);
    }
  }

  /** From a non-negative time, any number of ticks keeps the time between 0 and the start. */
  lemma {:induction false} TicksStayInRange(r: RestTimer, k: nat)
    requires 0 <= r.time
    ensures 0 <= Ticks(r, k).time <= r.time
    decreases k
  {
    if k > 0 {
      TicksStayInRange(Tick(r), k - 1);
    }
  }

  // ---------------------------------------------------------------------
  // getBestSet: the sets it visits and the record it keeps

  /** Number(''): an empty box counts as 0. */
  function NumberOf(f: Field): (n: real)
    ensures f.Empty? ==> n == 0.0
    ensures f.Num? ==> n == f.value
  {
    match f
    case Empty => 0.0
    case Num(v) => v
  }

  /** kg × reps of one set. */
  function Volume(s: WorkoutSet): (v: real)
    ensures s.kg.Empty? || s.reps.Empty? ==> v == 0.0
    ensures s.kg.Num? && s.reps.Num? ==> v == s.kg.value * s.reps.value
  {
    NumberOf(s.kg) * NumberOf(s.reps)
  }

  /** The sets of the exercises called `name`, exercise by exercise, in order. */
  function MatchingSets(exs: seq<Exercise>, name: string): seq<WorkoutSet>
  {
    if exs == [] then []
    else
      var last := exs[|exs| - 1];
      MatchingSets(exs[..|exs| - 1], name) + (if last.name == name then last.sets else [])
  }

  /** Every set getBestSet looks at, in the order it looks: newest workout first. */
  function HistorySets(history: seq<Workout>, name: string): seq<WorkoutSet>
  {
    if history == [] then []
    else HistorySets(history[..|history| - 1], name) + MatchingSets(history[|history| - 1].exercises, name)
  }

  lemma PrefixStep<T>(a: seq<T>, s: seq<T>, k: nat)
    requires k < |s|
    ensures a + s[..k] + [s[k]] == a + s[..k + 1]
  {
    assert s[..k + 1] == s[..k] + [s[k]];
  }

  lemma AppendAssociates<T>(a: seq<T>, b: seq<T>, c: seq<T>)
    ensures a + b + c == a + (b + c)
  {
  }

  lemma MatchingSetsStep(exs: seq<Exercise>, e: nat, name: string)
    requires e < |exs|
    ensures MatchingSets(exs[..e + 1], name)
         == MatchingSets(exs[..e], name) + (if exs[e].name == name then exs[e].sets else [])
  {
    assert exs[..e + 1][..e] == exs[..e];
  }

  lemma HistorySetsStep(history: seq<Workout>, w: nat, name: string)
    requires w < |history|
    ensures HistorySets(history[..w + 1], name)
         == HistorySets(history[..w], name) + MatchingSets(history[w].exercises, name)
  {
    assert history[..w + 1][..w] == history[..w];
  }

  /** What getBestSet holds after visiting `visited`: no record exactly when
      nothing was visited, otherwise the first maximum, taken from set `at`. */
  ghost predicate Recorded(visited: seq<WorkoutSet>, best: Option<BestSet>, at: int)
  {
    && (best.None? <==> visited == [])
    && (best.Some? ==> FirstMaximumAt(visited, at, best.value))
  }

  /** `b` is the first set of maximal volume among `visited`, with that volume:
      what a scan with a strict `>` keeps. */
  ghost predicate IsFirstMaximum(visited: seq<WorkoutSet>, b: BestSet)
  {
    exists k :: FirstMaximumAt(visited, k, b)
  }

  /** `b` is taken from set `k`, every earlier set has a strictly smaller volume
      and no set has a larger one. */
  ghost predicate FirstMaximumAt(visited: seq<WorkoutSet>, k: int, b: BestSet)
  {
    && 0 <= k < |visited|
    && b == BestSet(visited[k].kg, visited[k].reps, Volume(visited[k]))
    && (forall j :: 0 <= j < k ==> Volume(visited[j]) < b.volume)
    && (forall j :: 0 <= j < |visited| ==> Volume(visited[j]) <= b.volume)
  }

  /** One step of the scan: a set replaces the record when there is none yet or
      when its volume is strictly larger. */
  lemma ScanStep(visited: seq<WorkoutSet>, best: Option<BestSet>, at: int, s: WorkoutSet)
    returns (at': int)
    requires Recorded(visited, best, at)
    ensures Recorded(visited + [s], if best.None? || Volume(s) > best.value.volume
                                    then Some(BestSet(s.kg, s.reps, Volume(s))) else best, at')
  {
    var v := visited + [s];
    if best.None? || Volume(s) > best.value.volume {
      at' := |visited|;
      assert v[at'] == s;
    } else {
      at' := at;
      assert v[at] == visited[at];
    }
  }

  /** The record is determined by the visiting order: the first maximum is unique. */
  lemma FirstMaximumUnique(visited: seq<WorkoutSet>, a: BestSet, b: BestSet)
    requires IsFirstMaximum(visited, a) && IsFirstMaximum(visited, b)
    ensures a == b
  {
    var i :| FirstMaximumAt(visited, i, a);
    var k :| FirstMaximumAt(visited, k, b);
    assert a.volume == b.volume by {
      assert Volume(visited[k]) <= a.volume;
      assert Volume(visited[i]) <= b.volume;
    }
    assert !(Volume(visited[i]) < b.volume) && !(Volume(visited[k]) < a.volume);
    assert i == k;
  }

  /** A set is visited exactly when it belongs to an exercise called `name`. */
  lemma {:induction false} MatchingSetsMembership(exs: seq<Exercise>, name: string, s: WorkoutSet)
    ensures s in MatchingSets(exs, name) <==>
      exists j :: 0 <= j < |exs| && exs[j].name == name && s in exs[j].sets
    decreases |exs|
  {
    if exs != [] {
      var p := exs[..|exs| - 1];
      MatchingSetsMembership(p, name, s);
      if s in MatchingSets(exs, name) && s !in MatchingSets(p, name) {
        assert exs[|exs| - 1].name == name && s in exs[|exs| - 1].sets;
      }
      if exists j :: 0 <= j < |exs| && exs[j].name == name && s in exs[j].sets {
        var j :| 0 <= j < |exs| && exs[j].name == name && s in exs[j].sets;
        if j < |p| {
          assert p[j] == exs[j];
        }
      }
    }
  }

  /** A set is visited exactly when some workout has an exercise called `name` holding it. */
  lemma {:induction false} HistorySetsMembership(history: seq<Workout>, name: string, s: WorkoutSet)
    ensures s in HistorySets(history, name) <==> exists i, j :: HeldAt(history, name, s, i, j)
    decreases |history|
  {
    if history != [] {
      var p := history[..|history| - 1];
      var last := history[|history| - 1];
      HistorySetsMembership(p, name, s);
      MatchingSetsMembership(last.exercises, name, s);
      if s in HistorySets(p, name) {
        var i, j :| HeldAt(p, name, s, i, j);
        assert history[i] == p[i];
        assert HeldAt(history, name, s, i, j);
      } else if s in MatchingSets(last.exercises, name) {
        var j :| 0 <= j < |last.exercises| && last.exercises[j].name == name && s in last.exercises[j].sets;
        assert HeldAt(history, name, s, |history| - 1, j);
      }
      if exists i, j :: HeldAt(history, name, s, i, j) {
        var i, j :| HeldAt(history, name, s, i, j);
        if i < |p| {
          assert p[i] == history[i];
          assert HeldAt(p, name, s, i, j);
        }
      }
    }
  }

  /** Set `s` belongs to exercise `j` of workout `i`, and that exercise is called `name`. */
  ghost predicate HeldAt(history: seq<Workout>, name: string, s: WorkoutSet, i: int, j: int)
  {
    && 0 <= i < |history| && 0 <= j < |history[i].exercises|
    && history[i].exercises[j].name == name && s in history[i].exercises[j].sets
  }

  /** No exercise called `name` anywhere in the history holds a set. */
  ghost predicate NoSetNamed(history: seq<Workout>, name: string)
  {
    forall i, j ::
      (0 <= i < |history| && 0 <= j < |history[i].exercises| && history[i].exercises[j].name == name)
      ==> history[i].exercises[j].sets == []
  }

  /** Every set of every exercise called `name` in the history has volume at most `v`. */
  ghost predicate VolumeAtMost(history: seq<Workout>, name: string, v: real)
  {
    forall i, j, k ::
      (0 <= i < |history| && 0 <= j < |history[i].exercises| && history[i].exercises[j].name == name
       && 0 <= k < |history[i].exercises[j].sets|)
      ==> Volume(history[i].exercises[j].sets[k]) <= v
  }

  /** A first maximum of the visited sets has a volume at least that of every set
      of every exercise called `name` in the history. */
  lemma RecordBoundsEverySet(history: seq<Workout>, name: string, b: BestSet)
    requires IsFirstMaximum(HistorySets(history, name), b)
    ensures VolumeAtMost(history, name, b.volume)
  {
    var visited := HistorySets(history, name);
    var m :| FirstMaximumAt(visited, m, b);
    forall i, j, k |
      0 <= i < |history| && 0 <= j < |history[i].exercises| && history[i].exercises[j].name == name
      && 0 <= k < |history[i].exercises[j].sets|
      ensures Volume(history[i].exercises[j].sets[k]) <= b.volume
    {
      var s := history[i].exercises[j].sets[k];
      HistorySetsMembership(history, name, s);
      assert HeldAt(history, name, s, i, j);
      var at :| 0 <= at < |visited| && visited[at] == s;
    }
  }

  /** Nothing is visited exactly when no exercise called `name` in the history has a set. */
  lemma HistorySetsEmpty(history: seq<Workout>, name: string)
    ensures HistorySets(history, name) == [] <==> NoSetNamed(history, name)
  {
    var visited := HistorySets(history, name);
    if visited != [] {
      HistorySetsMembership(history, name, visited[0]);
      var i, j :| HeldAt(history, name, visited[0], i, j);
      assert history[i].exercises[j].sets != [];
    }
    if exists i, j ::
        0 <= i < |history| && 0 <= j < |history[i].exercises|
        && history[i].exercises[j].name == name && history[i].exercises[j].sets != []
    {
      var i, j :| 0 <= i < |history| && 0 <= j < |history[i].exercises|
        && history[i].exercises[j].name == name && history[i].exercises[j].sets != [];
      HistorySetsMembership(history, name, history[i].exercises[j].sets[0]);
      assert HeldAt(history, name, history[i].exercises[j].sets[0], i, j);
    }
  }
}
