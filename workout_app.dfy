/**
 * The workout screen's state and its event handlers (src/App.jsx). The
 * component's `useState` slots become the fields of class App; each handler
 * becomes a method that changes them and states the whole new state. Reading
 * and writing the key-value store, the prompt, the date and the vibration
 * call are outside the model: their results come in as parameters.
 */
module WorkoutApp {
  import opened Maybe
  import opened WorkoutModel

  class App {
    /** The session being logged. */
    var exercises: seq<Exercise>
    /** Finished workouts, newest first. */
    var history: seq<Workout>
    var templates: seq<Template>
    /** The text in the "Øvelsesnavn" input box. */
    var name: string
    var restTime: int
    var restActive: bool

    /** The rest time never leaves [0, 90]. */
    ghost predicate Valid()
      reads this
    {
      0 <= restTime <= RestSeconds
    }

    /** The state at mount time: the three lists come from the store
        (an empty list where nothing was saved), the rest timer is idle. */
    constructor (savedExercises: seq<Exercise>, savedHistory: seq<Workout>, savedTemplates: seq<Template>)
      ensures Valid()
      ensures exercises == savedExercises && history == savedHistory && templates == savedTemplates
      ensures name == "" && restTime == 0 && !restActive
    {
      exercises := savedExercises;
      history := savedHistory;
      templates := savedTemplates;
      name := "";
      restTime := 0;
      restActive := false;
    }

    /** Typing into the exercise-name box. */
    method SetName(value: string)
      requires Valid()
      modifies this
      ensures Valid()
      ensures name == value
      ensures exercises == old(exercises) && history == old(history) && templates == old(templates)
      ensures restTime == old(restTime) && restActive == old(restActive)
    {
      name := value;
    }

    /** addExercise: ignored when the box is exactly empty (blanks are accepted);
        otherwise a new exercise without sets goes at the end and the box is cleared. */
    method AddExercise()
      requires Valid()
      modifies this
      ensures Valid()
      ensures old(name) == "" ==> exercises == old(exercises) && name == old(name)
      ensures old(name) != "" ==> exercises == old(exercises) + [Exercise(old(name), [])] && name == ""
      ensures history == old(history) && templates == old(templates)
      ensures restTime == old(restTime) && restActive == old(restActive)
    {
      if name == "" {
        return;
      }
      exercises := exercises + [Exercise(name, [])];
      name := "";
    }

    /** addSet: exercise `index` gets one more set, a copy of its last set's kg and
        reps that is not done, or a blank set when it had none; nothing else changes. */
    method AddSet(index: nat)
      requires Valid() && index < |exercises|
      modifies this
      ensures Valid()
      ensures |exercises| == |old(exercises)|
      ensures forall k :: 0 <= k < |exercises| && k != index ==> exercises[k] == old(exercises[k])
      ensures exercises[index].name == old(exercises[index].name)
      ensures var before := old(exercises[index].sets);
        && |exercises[index].sets| == |before| + 1
        && exercises[index].sets[..|before|] == before
        && !exercises[index].sets[|before|].done
        && (before == [] ==> exercises[index].sets[|before|] == BlankSet)
        && (before != [] ==>
              exercises[index].sets[|before|].kg == before[|before| - 1].kg
              && exercises[index].sets[|before|].reps == before[|before| - 1].reps)
      ensures history == old(history) && templates == old(templates) && name == old(name)
      ensures restTime == old(restTime) && restActive == old(restActive)
    {
      var sets := exercises[index].sets;
      var newSet := if |sets| > 0
        then WorkoutSet(sets[|sets| - 1].kg, sets[|sets| - 1].reps, false)
        else BlankSet;
      exercises := exercises[index := exercises[index].(sets := sets + [newSet])];
    }

    /** updateSet: writes `value` into one box of one set, whether or not that set
        is done; every other set and exercise is left as it was. */
    method UpdateSet(exIndex: nat, setIndex: nat, field: SetField, value: Field)
      requires Valid() && exIndex < |exercises| && setIndex < |exercises[exIndex].sets|
      modifies this
      ensures Valid()
      ensures exercises == ReplaceSet(old(exercises), exIndex, setIndex,
                                      WithField(old(exercises[exIndex].sets[setIndex]), field, value))
      ensures history == old(history) && templates == old(templates) && name == old(name)
      ensures restTime == old(restTime) && restActive == old(restActive)
    {
      var s := exercises[exIndex].sets[setIndex];
      exercises := ReplaceSet(exercises, exIndex, setIndex, WithField(s, field, value));
    }

    /** doneSet: ignored while kg or reps is empty; otherwise the set is marked done
        and a 90-second rest starts. */
    method DoneSet(exIndex: nat, setIndex: nat)
      requires Valid() && exIndex < |exercises| && setIndex < |exercises[exIndex].sets|
      modifies this
      ensures Valid()
      ensures var s := old(exercises[exIndex].sets[setIndex]);
        if s.kg == Empty || s.reps == Empty then
          && exercises == old(exercises)
          && restTime == old(restTime) && restActive == old(restActive)
        else
          && exercises == ReplaceSet(old(exercises), exIndex, setIndex, s.(done := true))
          && restTime == RestSeconds && restActive
      ensures history == old(history) && templates == old(templates) && name == old(name)
    {
      var s := exercises[exIndex].sets[setIndex];
      if s.kg == Empty || s.reps == Empty {
        return;
      }
      exercises := ReplaceSet(exercises, exIndex, setIndex, s.(done := true));
      restTime := RestSeconds;
      restActive := true;
    }

    /** finishWorkout: ignored without exercises; otherwise the whole session,
        unfinished sets included, becomes the newest workout (dated `date`), the
        session is emptied and the rest timer is stopped at 0. */
    method FinishWorkout(date: string)
      requires Valid()
      modifies this
      ensures Valid()
      ensures old(exercises) == [] ==>
        && exercises == old(exercises) && history == old(history)
        && restTime == old(restTime) && restActive == old(restActive)
      ensures old(exercises) != [] ==>
        && history == [Workout(date, old(exercises))] + old(history)
        && |history| == |old(history)| + 1
        && history[1..] == old(history)
        && TotalSets(history) == TotalSets(old(history)) + SetCount(old(exercises))
        && exercises == [] && restTime == 0 && !restActive
      ensures templates == old(templates) && name == old(name)
    {
      if |exercises| == 0 {
        return;
      }
      var workout := Workout(date, exercises);
      FinishAddsSets(workout, history);
      history := [workout] + history;
      exercises := [];
      restActive := false;
      restTime := 0;
    }

    /** saveTemplate: ignored without exercises, or when the prompt was cancelled
        (None) or answered with ''; otherwise the session's names and set counts are
        appended as a template. */
    method SaveTemplate(answer: Option<string>)
      requires Valid()
      modifies this
      ensures Valid()
      ensures old(exercises) == [] || answer == None || answer == Some("") ==> templates == old(templates)
      ensures old(exercises) != [] && answer.Some? && answer.value != "" ==>
        templates == old(templates) + [TemplateOf(answer.value, old(exercises))]
      ensures exercises == old(exercises) && history == old(history) && name == old(name)
      ensures restTime == old(restTime) && restActive == old(restActive)
    {
      if |exercises| == 0 {
        return;
      }
      if answer.None? || answer.value == "" {
        return;
      }
      templates := templates + [TemplateOf(answer.value, exercises)];
    }

    /** loadTemplate: the session is replaced by the template's exercises, each
        with its number of blank sets. */
    method LoadTemplate(t: Template)
      requires Valid()
      modifies this
      ensures Valid()
      ensures exercises == Expand(t)
      ensures TemplateOf(t.name, exercises) == t
      ensures history == old(history) && templates == old(templates) && name == old(name)
      ensures restTime == old(restTime) && restActive == old(restActive)
    {
      exercises := Expand(t);
      SaveAfterLoad(t);
    }

    /** deleteTemplate: `splice(index, 1)` on the template list. */
    method DeleteTemplate(index: int)
      requires Valid()
      modifies this
      ensures Valid()
      ensures templates == SpliceOne(old(templates), index)
      ensures 0 <= index < |old(templates)| ==>
        templates == old(templates)[..index] + old(templates)[index + 1..]
      ensures exercises == old(exercises) && history == old(history) && name == old(name)
      ensures restTime == old(restTime) && restActive == old(restActive)
    {
      templates := SpliceOne(templates, index);
      if 0 <= index < |old(templates)| {
        assert templates == old(templates)[..index] + old(templates)[index + 1..];
      }
    }

    /** The rest effect together with its one-second timeout: inactive, nothing;
        at 0 or below, the timer switches off; otherwise one second passes. */
    method RestTick()
      requires Valid()
      modifies this
      ensures Valid()
      ensures RestTimer(restTime, restActive) == Tick(old(RestTimer(restTime, restActive)))
      ensures restTime <= old(restTime)
      ensures exercises == old(exercises) && history == old(history)
      ensures templates == old(templates) && name == old(name)
    {
      if !restActive {
        return;
      }
      if restTime <= 0 {
        restActive := false;
        return;
      }
      restTime := restTime - 1;
    }

    /** The Skip button: the timer stops where it is. */
    method SkipRest()
      requires Valid()
      modifies this
      ensures Valid()
      ensures !restActive && restTime == old(restTime)
      ensures exercises == old(exercises) && history == old(history)
      ensures templates == old(templates) && name == old(name)
    {
      restActive := false;
    }

    /** getBestSet: None exactly when no exercise called `exerciseName` in the
        history has a set; otherwise the set of largest kg × reps (done or not,
        an empty box counting 0), the first such one in visiting order winning. */
    method GetBestSet(exerciseName: string) returns (best: Option<BestSet>)
      ensures best.None? <==> NoSetNamed(history, exerciseName)
      ensures best.Some? ==> VolumeAtMost(history, exerciseName, best.value.volume)
      ensures best.Some? ==> IsFirstMaximum(HistorySets(history, exerciseName), best.value)
    {
      var h := history;
      best := None;
      ghost var seen: seq<WorkoutSet> := [];
      ghost var at := 0;
      for w := 0 to |h|
        invariant seen == HistorySets(h[..w], exerciseName)
        invariant Recorded(seen, best, at)
      {
        var exs := h[w].exercises;
        ghost var before := seen;
        for e := 0 to |exs|
          invariant seen == before + MatchingSets(exs[..e], exerciseName)
          invariant Recorded(seen, best, at)
        {
          ghost var upTo := seen;
          if exs[e].name == exerciseName {
            var sets := exs[e].sets;
            for k := 0 to |sets|
              invariant seen == upTo + sets[..k]
              invariant Recorded(seen, best, at)
            {
              var current := sets[k];
              var volume := Volume(current);
              at := ScanStep(seen, best, at, current);
              if best.None? || volume > best.value.volume {
                best := Some(BestSet(current.kg, current.reps, volume));
              }
              PrefixStep(upTo, sets, k);
              seen := seen + [current];
            }
            assert sets[..|sets|] == sets;
          }
          MatchingSetsStep(exs, e, exerciseName);
          AppendAssociates(before, MatchingSets(exs[..e], exerciseName),
                           if exs[e].name == exerciseName then exs[e].sets else []);
        }
        assert exs[..|exs|] == exs;
        HistorySetsStep(h, w, exerciseName);
      }
      assert h[..|h|] == h;
      HistorySetsEmpty(h, exerciseName);
      if best.Some? {
        assert FirstMaximumAt(seen, at, best.value);
        RecordBoundsEverySet(h, exerciseName, best.value);
      }
    }
  }
}
