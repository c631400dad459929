/**
 * The query logic of the exercise library (src/exerciseLibrary.js): the
 * MUSCLE_GROUPS table, the movement-label and body-region classifiers, the
 * five-criteria filter and the grouping by muscle.
 */
module ExerciseLibrary {
  import opened Maybe

  /** A row of the MUSCLE_GROUPS table: its display label, movement and body region (colours and icon left out). */
  datatype MuscleGroup = MuscleGroup(caption: string, movement: Option<string>, body: string)

  const MuscleGroups: map<string, MuscleGroup> := map[
    "chest" := MuscleGroup("Chest", Some("push"), "upper"),
    "back" := MuscleGroup("Back", Some("pull"), "upper"),
    "legs" := MuscleGroup("Legs", None, "lower"),
    "shoulders" := MuscleGroup("Shoulders", Some("push"), "upper"),
    "arms" := MuscleGroup("Arms", None, "upper"),
    "core" := MuscleGroup("Core", None, "upper")
  ]

  /** The order groupByMuscle lists the known muscles in. */
  const MuscleOrder: seq<string> := ["chest", "back", "legs", "shoulders", "arms", "core"]

  /** A library entry; `movement` is 'push', 'pull' or null, `isCustom` is
      false for the built-in exercises. */
  datatype LibraryExercise = LibraryExercise(
    name: string, muscle: string, equipment: string, movement: Option<string>, isCustom: bool)

  /** The filter's options: the search text, the movement chip ('all', 'push',
      'pull', 'upper', 'lower'), the selected muscles, the equipment chip and
      "my exercises only". */
  datatype Criteria = Criteria(
    search: string, movement: string, muscles: seq<string>, equipment: string, myOnly: bool)

  /** The destructuring defaults of filterExercises. */
  const DefaultCriteria := Criteria("", "all", [], "all", false)

  // ---------------------------------------------------------------------
  // Classifiers

  /** getMovementLabel: the movement wins over the muscle. */
  function MovementLabel(ex: LibraryExercise): (text: string)
    ensures text == "Push" <==> ex.movement == Some("push")
    ensures text == "Pull" <==> ex.movement == Some("pull")
    ensures text == "Core" <==> ex.movement != Some("push") && ex.movement != Some("pull") && ex.muscle == "core"
    ensures text == "" <==> ex.movement != Some("push") && ex.movement != Some("pull") && ex.muscle != "core"
  {
    if ex.movement == Some("push") then "Push"
    else if ex.movement == Some("pull") then "Pull"
    else if ex.muscle == "core" then "Core"
    else ""
  }

  /** getBodyRegion: the table's region, 'upper' for a muscle it does not know. */
  function BodyRegion(ex: LibraryExercise): (region: string)
    ensures ex.muscle in MuscleGroups ==> region == MuscleGroups[ex.muscle].body
    ensures ex.muscle !in MuscleGroups ==> region == "upper"
    ensures region == "lower" <==> ex.muscle == "legs"
    ensures region == "upper" <==> ex.muscle != "legs"
  {
    if ex.muscle in MuscleGroups then MuscleGroups[ex.muscle].body else "upper"
  }

  // ---------------------------------------------------------------------
  // Case-insensitive search

  function LowerChar(c: char): char
  {
    if 'A' <= c <= 'Z' then (c as int - 'A' as int + 'a' as int) as char else c
  }

  /** toLowerCase, on the ASCII letters. */
  function Lower(s: string): (r: string)
    ensures |r| == |s|
    ensures forall i :: 0 <= i < |r| ==> !('A' <= r[i] <= 'Z')
    ensures forall i :: 0 <= i < |s| && !('A' <= s[i] <= 'Z') ==> r[i] == s[i]
    ensures forall i :: 0 <= i < |s| && 'A' <= s[i] <= 'Z' ==> r[i] == (s[i] as int - 'A' as int + 'a' as int) as char
  {
    seq(|s|, i requires 0 <= i < |s| => LowerChar(s[i]))
  }

  predicate StartsWith(text: string, part: string)
  {
    |part| <= |text| && text[..|part|] == part
  }

  /** String.prototype.includes. */
  predicate Contains(text: string, part: string)
    ensures Contains(text, part) ==> |part| <= |text|
    ensures part == [] ==> Contains(text, part)
    decreases |text|
  {
    StartsWith(text, part) || (text != [] && Contains(text[1..], part))
  }

  predicate OccursAt(text: string, part: string, i: int)
  {
    0 <= i && i + |part| <= |text| && text[i..i + |part|] == part
  }

  /** An occurrence in the tail is an occurrence one place later. */
  lemma OccursInTail(text: string, part: string, i: int)
    requires text != [] && OccursAt(text[1..], part, i)
    ensures OccursAt(text, part, i + 1)
  {
    assert text[1..][i..i + |part|] == text[i + 1..i + 1 + |part|];
  }

  /** An occurrence past the first place is an occurrence in the tail. */
  lemma OccursFromTail(text: string, part: string, i: int)
    requires 0 < i && OccursAt(text, part, i)
    ensures OccursAt(text[1..], part, i - 1)
  {
    assert text[1..][i - 1..i - 1 + |part|] == text[i..i + |part|];
  }

  /** `Contains` holds exactly when `part` occurs somewhere in `text`. */
  lemma {:induction false} ContainsMeansOccurs(text: string, part: string)
    ensures Contains(text, part) <==> exists i :: OccursAt(text, part, i)
    decreases |text|
  {
    if StartsWith(text, part) {
      assert OccursAt(text, part, 0);
    }
    if exists i :: OccursAt(text, part, i) {
      var i :| OccursAt(text, part, i);
      if i == 0 {
        assert StartsWith(text, part);
      } else {
        OccursFromTail(text, part, i);
        ContainsMeansOccurs(text[1..], part);
      }
    }
    if text != [] && Contains(text[1..], part) {
      ContainsMeansOccurs(text[1..], part);
      var i :| OccursAt(text[1..], part, i);
      OccursInTail(text, part, i);
    }
  }

  // ---------------------------------------------------------------------
  // filterExercises

  lemma SplitLast<T>(s: seq<T>)
    requires s != []
    ensures s == s[..|s| - 1] + [s[|s| - 1]]
  {
  }

  /** The movement chip: 'push' and 'pull' test the movement, 'upper' and
      'lower' the body region; 'all' and any other value test nothing. */
  predicate MovementMatches(ex: LibraryExercise, movement: string)
    ensures MovementMatches(ex, movement) <==>
      && (movement == "push" ==> ex.movement == Some("push"))
      && (movement == "pull" ==> ex.movement == Some("pull"))
      && (movement == "upper" ==> ex.muscle != "legs")
      && (movement == "lower" ==> ex.muscle == "legs")
  {
    if movement == "push" && ex.movement != Some("push") then false
    else if movement == "pull" && ex.movement != Some("pull") then false
    else if movement == "upper" && BodyRegion(ex) != "upper" then false
    else if movement == "lower" && BodyRegion(ex) != "lower" then false
    else true
  }

  /** The callback of filterExercises, its early returns in order; the default
      options accept every entry. */
  predicate Matches(ex: LibraryExercise, c: Criteria)
    ensures c == DefaultCriteria ==> Matches(ex, c)
  {
    if c.search != "" && !Contains(Lower(ex.name), Lower(c.search)) then false
    else if c.myOnly && !ex.isCustom then false
    else if c.movement != "all" && !MovementMatches(ex, c.movement) then false
    else if |c.muscles| > 0 && ex.muscle !in c.muscles then false
    else if c.equipment != "all" && ex.equipment != c.equipment then false
    else true
  }

  /** filterExercises: the entries passing every active criterion, in order. */
  function FilterExercises(all: seq<LibraryExercise>, c: Criteria): (kept: seq<LibraryExercise>)
    ensures |kept| <= |all|
    ensures forall x :: x in kept ==> x in all && Matches(x, c)
    ensures forall x :: x in all && Matches(x, c) ==> x in kept
    ensures forall x :: multiset(kept)[x] == if Matches(x, c) then multiset(all)[x] else 0
  {
    if all == [] then []
    else
      var last := all[|all| - 1];
      SplitLast(all);
      var rest := FilterExercises(all[..|all| - 1], c);
      if Matches(last, c) then rest + [last] else rest
  }

  /** `a` is `b` with some elements left out, the rest kept in order. */
  predicate IsSubsequence<T(==)>(a: seq<T>, b: seq<T>)
    decreases |b|
  {
    if a == [] then true
    else if b == [] then false
    else if a[|a| - 1] == b[|b| - 1] then IsSubsequence(a[..|a| - 1], b[..|b| - 1])
    else IsSubsequence(a, b[..|b| - 1])
  }

  /** Every active criterion, each one on its own. */
  lemma MatchesMeans(ex: LibraryExercise, c: Criteria)
    ensures Matches(ex, c) <==>
      && (c.search != "" ==> Contains(Lower(ex.name), Lower(c.search)))
      && (c.myOnly ==> ex.isCustom)
      && (c.movement == "push" ==> ex.movement == Some("push"))
      && (c.movement == "pull" ==> ex.movement == Some("pull"))
      && (c.movement == "upper" ==> ex.muscle != "legs")
      && (c.movement == "lower" ==> ex.muscle == "legs")
      && (|c.muscles| > 0 ==> ex.muscle in c.muscles)
      && (c.equipment != "all" ==> ex.equipment == c.equipment)
  {
  }

  /** The filter keeps its input's order: the result is a subsequence. */
  lemma {:induction false} FilterIsSubsequence(all: seq<LibraryExercise>, c: Criteria)
    ensures IsSubsequence(FilterExercises(all, c), all)
    decreases |all|
  {
    if all != [] {
      var p := all[..|all| - 1];
      var last := all[|all| - 1];
      var rest := FilterExercises(p, c);
      FilterIsSubsequence(p, c);
      if Matches(last, c) {
        assert (rest + [last])[..|rest|] == rest;
      } else if rest != [] {
        assert rest[|rest| - 1] in rest;
      }
    }
  }

  /** With the default options nothing is filtered out. */
  lemma {:induction false} FilterDefaultKeepsAll(all: seq<LibraryExercise>)
    ensures FilterExercises(all, DefaultCriteria) == all
    decreases |all|
  {
    if all != [] {
      FilterDefaultKeepsAll(all[..|all| - 1]);
      assert Matches(all[|all| - 1], DefaultCriteria);
      SplitLast(all);
    }
  }

  /** Filtering a filtered list again with the same options changes nothing. */
  lemma {:induction false} FilterIdempotent(all: seq<LibraryExercise>, c: Criteria)
    ensures FilterExercises(FilterExercises(all, c), c) == FilterExercises(all, c)
    decreases |all|
  {
    if all != [] {
      var p := all[..|all| - 1];
      var last := all[|all| - 1];
      var rest := FilterExercises(p, c);
      FilterIdempotent(p, c);
      if Matches(last, c) {
        assert (rest + [last])[..|rest|] == rest;
      }
    }
  }

  // ---------------------------------------------------------------------
  // groupByMuscle

  /** The muscles occurring in a list. */
  function Muscles(exs: seq<LibraryExercise>): set<string>
  {
    if exs == [] then {} else Muscles(exs[..|exs| - 1]) + {exs[|exs| - 1].muscle}
  }

  /** The bucket of muscle `m` after pushing every exercise in turn. */
  function Bucket(exs: seq<LibraryExercise>, m: string): (b: seq<LibraryExercise>)
    ensures |b| <= |exs|
  {
    if exs == [] then []
    else
      var last := exs[|exs| - 1];
      Bucket(exs[..|exs| - 1], m) + (if last.muscle == m then [last] else [])
  }

  /** The keys of the `groups` object in insertion order: the six known muscles,
      then each new muscle when it is first met. */
  function KeyOrder(exs: seq<LibraryExercise>): (keys: seq<string>)
    ensures |MuscleOrder| <= |keys| <= |MuscleOrder| + |exs|
  {
    if exs == [] then MuscleOrder
    else
      var keys := KeyOrder(exs[..|exs| - 1]);
      var m := exs[|exs| - 1].muscle;
      if m in keys then keys else keys + [m]
  }

  /** `Object.entries(groups).filter(...)` over the keys `keys`. */
  function NonEmptyGroups(exs: seq<LibraryExercise>, keys: seq<string>): (g: seq<(string, seq<LibraryExercise>)>)
    ensures |g| <= |keys|
  {
    if keys == [] then []
    else
      var k := keys[|keys| - 1];
      NonEmptyGroups(exs, keys[..|keys| - 1]) + (if Bucket(exs, k) != [] then [(k, Bucket(exs, k))] else [])
  }

  /** What groupByMuscle returns. */
  function Groups(exs: seq<LibraryExercise>): (g: seq<(string, seq<LibraryExercise>)>)
    ensures |g| <= |MuscleOrder| + |exs|
  {
    NonEmptyGroups(exs, KeyOrder(exs))
  }

  /** The groups' exercises one group after the other. */
  function Flatten(groups: seq<(string, seq<LibraryExercise>)>): seq<LibraryExercise>
  {
    if groups == [] then [] else Flatten(groups[..|groups| - 1]) + groups[|groups| - 1].1
  }

  function ConcatBuckets(exs: seq<LibraryExercise>, keys: seq<string>): seq<LibraryExercise>
  {
    if keys == [] then [] else ConcatBuckets(exs, keys[..|keys| - 1]) + Bucket(exs, keys[|keys| - 1])
  }

  /** The position of a known muscle in MuscleOrder. */
  function KnownRank(m: string): nat
  {
    if m == "chest" then 0
    else if m == "back" then 1
    else if m == "legs" then 2
    else if m == "shoulders" then 3
    else if m == "arms" then 4
    else 5
  }

  /** The index of the first exercise with muscle `m`, |exs| when there is none. */
  function FirstIndex(exs: seq<LibraryExercise>, m: string): nat
  {
    if exs == [] then 0
    else if m in Muscles(exs[..|exs| - 1]) then FirstIndex(exs[..|exs| - 1], m)
    else if exs[|exs| - 1].muscle == m then |exs| - 1
    else |exs|
  }

  /** Where a group for `m` belongs: the known muscles in table order, then the
      other muscles by first appearance. */
  function Rank(exs: seq<LibraryExercise>, m: string): nat
  {
    if m in MuscleOrder then KnownRank(m) else |MuscleOrder| + FirstIndex(exs, m)
  }

  predicate RankIncreasing(exs: seq<LibraryExercise>, keys: seq<string>)
  {
    forall i, j :: 0 <= i < j < |keys| ==> Rank(exs, keys[i]) < Rank(exs, keys[j])
  }

  /** The groups' keys come in strictly increasing rank. */
  predicate GroupRanksIncrease(exs: seq<LibraryExercise>, groups: seq<(string, seq<LibraryExercise>)>)
  {
    forall i, j :: 0 <= i < j < |groups| ==> Rank(exs, groups[i].0) < Rank(exs, groups[j].0)
  }

  predicate NoDuplicates(keys: seq<string>)
  {
    forall i, j :: 0 <= i < j < |keys| ==> keys[i] != keys[j]
  }

  lemma {:induction false} MusclesMembership(exs: seq<LibraryExercise>, m: string)
    ensures m in Muscles(exs) <==> exists i :: 0 <= i < |exs| && exs[i].muscle == m
    decreases |exs|
  {
    if exs != [] {
      var p := exs[..|exs| - 1];
      MusclesMembership(p, m);
      if exists i :: 0 <= i < |exs| && exs[i].muscle == m {
        var i :| 0 <= i < |exs| && exs[i].muscle == m;
        if i < |p| {
          assert p[i] == exs[i];
        }
      }
    }
  }

  /** FirstIndex is the first occurrence of the muscle. */
  lemma {:induction false} FirstIndexIsFirst(exs: seq<LibraryExercise>, m: string)
    ensures m in Muscles(exs) ==>
      && FirstIndex(exs, m) < |exs|
      && exs[FirstIndex(exs, m)].muscle == m
      && (forall j :: 0 <= j < FirstIndex(exs, m) ==> exs[j].muscle != m)
    ensures m !in Muscles(exs) ==> FirstIndex(exs, m) == |exs|
    decreases |exs|
  {
    if exs != [] {
      var p := exs[..|exs| - 1];
      FirstIndexIsFirst(p, m);
      if m !in Muscles(p) {
        MusclesMembership(p, m);
      }
    }
  }

  /** A bucket holds exactly the exercises with its muscle. */
  lemma {:induction false} BucketMembers(exs: seq<LibraryExercise>, m: string)
    ensures forall x :: x in Bucket(exs, m) ==> x in exs && x.muscle == m
    ensures forall x :: x in exs && x.muscle == m ==> x in Bucket(exs, m)
    decreases |exs|
  {
    if exs != [] {
      var p := exs[..|exs| - 1];
      var last := exs[|exs| - 1];
      BucketMembers(p, m);
      SplitLast(exs);
    }
  }

  /** A bucket keeps input order, and is non-empty exactly when its muscle occurs. */
  lemma {:induction false} BucketFacts(exs: seq<LibraryExercise>, m: string)
    ensures IsSubsequence(Bucket(exs, m), exs)
    ensures Bucket(exs, m) != [] <==> m in Muscles(exs)
    decreases |exs|
  {
    if exs != [] {
      var p := exs[..|exs| - 1];
      var last := exs[|exs| - 1];
      var b := Bucket(p, m);
      BucketFacts(p, m);
      if last.muscle == m {
        assert (b + [last])[..|b|] == b;
      } else {
        assert Bucket(exs, m) == b;
        if b != [] {
          BucketMembers(p, m);
          assert b[|b| - 1] in b;
        }
      }
    }
  }

  /** Pushing exercise i into the buckets. */
  lemma BucketPush(exs: seq<LibraryExercise>, i: nat)
    requires i < |exs|
    ensures forall k :: Bucket(exs[..i + 1], k) == Bucket(exs[..i], k) + (if exs[i].muscle == k then [exs[i]] else [])
  {
    assert exs[..i + 1][..i] == exs[..i];
  }

  /** The state of groupByMuscle's first loop after the entries `done`: the keys
      in insertion order, one bucket per key, every other bucket empty. */
  ghost predicate Tracks(done: seq<LibraryExercise>, keys: seq<string>, buckets: map<string, seq<LibraryExercise>>)
  {
    && keys == KeyOrder(done)
    && (forall k :: k in buckets <==> k in keys)
    && (forall k :: k in buckets ==> buckets[k] == Bucket(done, k))
    && (forall k :: k !in keys ==> Bucket(done, k) == [])
  }

  /** One pass of the first loop: a new muscle gets an empty bucket and a key at
      the end, then the entry is pushed into its muscle's bucket. */
  lemma PushKeepsTrack(exs: seq<LibraryExercise>, i: nat,
                       keys: seq<string>, buckets: map<string, seq<LibraryExercise>>,
                       keys': seq<string>, buckets': map<string, seq<LibraryExercise>>)
    requires i < |exs| && Tracks(exs[..i], keys, buckets)
    requires exs[i].muscle in buckets ==> keys' == keys
    requires exs[i].muscle !in buckets ==> keys' == keys + [exs[i].muscle]
    requires exs[i].muscle in buckets ==> buckets' == buckets[exs[i].muscle := buckets[exs[i].muscle] + [exs[i]]]
    requires exs[i].muscle !in buckets ==> buckets' == buckets[exs[i].muscle := [exs[i]]]
    ensures Tracks(exs[..i + 1], keys', buckets')
  {
    assert exs[..i + 1][..i] == exs[..i];
    BucketPush(exs, i);
  }

  /** One more key: its group is listed after the others when its bucket is non-empty. */
  lemma NonEmptyGroupsStep(exs: seq<LibraryExercise>, keys: seq<string>, j: nat)
    requires j < |keys|
    ensures NonEmptyGroups(exs, keys[..j + 1])
         == NonEmptyGroups(exs, keys[..j])
            + (if Bucket(exs, keys[j]) != [] then [(keys[j], Bucket(exs, keys[j]))] else [])
  {
    assert keys[..j + 1][..j] == keys[..j];
  }

  lemma KnownRanks()
    ensures forall i :: 0 <= i < |MuscleOrder| ==> KnownRank(MuscleOrder[i]) == i
    ensures forall m :: m in MuscleOrder ==> KnownRank(m) < |MuscleOrder|
  {
  }

  /** The insertion order of the keys: the known muscles first, then the other
      muscles; every key once; ranks strictly increasing. */
  lemma {:induction false} KeyOrderFacts(exs: seq<LibraryExercise>)
    ensures |KeyOrder(exs)| >= |MuscleOrder| && KeyOrder(exs)[..|MuscleOrder|] == MuscleOrder
    ensures forall m :: m in KeyOrder(exs) <==> m in MuscleOrder || m in Muscles(exs)
    ensures RankIncreasing(exs, KeyOrder(exs))
    decreases |exs|
  {
    KnownRanks();
    if exs != [] {
      var p := exs[..|exs| - 1];
      var keys := KeyOrder(p);
      KeyOrderFacts(p);
      KeyRanksStep(exs, keys);
      if exs[|exs| - 1].muscle !in keys {
        assert (keys + [exs[|exs| - 1].muscle])[..|MuscleOrder|] == keys[..|MuscleOrder|];
      }
    }
  }

  /** One exercise more keeps the ranks of the keys increasing, whether its
      muscle is already a key or becomes the last one. */
  lemma KeyRanksStep(exs: seq<LibraryExercise>, keys: seq<string>)
    requires exs != [] && RankIncreasing(exs[..|exs| - 1], keys)
    requires forall m :: m in keys <==> m in MuscleOrder || m in Muscles(exs[..|exs| - 1])
    ensures RankIncreasing(exs, keys)
    ensures exs[|exs| - 1].muscle !in keys ==> RankIncreasing(exs, keys + [exs[|exs| - 1].muscle])
  {
    KnownRanks();
    var p := exs[..|exs| - 1];
    var x := exs[|exs| - 1];
    forall m | m in keys
      ensures Rank(exs, m) == Rank(p, m) && Rank(p, m) < |MuscleOrder| + |p|
    {
      FirstIndexIsFirst(p, m);
    }
    forall i, j | 0 <= i < j < |keys|
      ensures Rank(exs, keys[i]) < Rank(exs, keys[j])
    {
      assert keys[i] in keys && keys[j] in keys;
    }
    if x.muscle !in keys {
      assert Rank(exs, x.muscle) == |MuscleOrder| + |p|;
      var keys' := keys + [x.muscle];
      forall i, j | 0 <= i < j < |keys'|
        ensures Rank(exs, keys'[i]) < Rank(exs, keys'[j])
      {
        assert keys'[i] in keys;
        if j < |keys| {
          assert keys'[j] in keys;
        }
      }
    }
  }

  /** Each group is the whole, non-empty bucket of a key in `keys`. */
  predicate AreBucketsOf(exs: seq<LibraryExercise>, keys: seq<string>, g: seq<(string, seq<LibraryExercise>)>)
  {
    forall i :: 0 <= i < |g| ==> g[i].0 in keys && g[i].1 == Bucket(exs, g[i].0) && g[i].1 != []
  }

  /** Every key with a non-empty bucket has a group. */
  predicate ListsEveryBucket(exs: seq<LibraryExercise>, keys: seq<string>, g: seq<(string, seq<LibraryExercise>)>)
  {
    forall k :: k in keys && Bucket(exs, k) != [] ==> exists i :: 0 <= i < |g| && g[i].0 == k
  }

  /** The listed groups are exactly the non-empty buckets of the keys. */
  lemma {:induction false} NonEmptyGroupsShape(exs: seq<LibraryExercise>, keys: seq<string>)
    ensures AreBucketsOf(exs, keys, NonEmptyGroups(exs, keys))
    ensures ListsEveryBucket(exs, keys, NonEmptyGroups(exs, keys))
    decreases |keys|
  {
    if keys != [] {
      var p := keys[..|keys| - 1];
      var k := keys[|keys| - 1];
      var gp := NonEmptyGroups(exs, p);
      var g := NonEmptyGroups(exs, keys);
      NonEmptyGroupsShape(exs, p);
      SplitLast(keys);
      assert forall i :: 0 <= i < |gp| ==> g[i] == gp[i];
      forall i | 0 <= i < |g|
        ensures g[i].0 in keys && g[i].1 == Bucket(exs, g[i].0) && g[i].1 != []
      {
        if i < |gp| {
          assert gp[i].0 in p;
        } else {
          assert g[i] == (k, Bucket(exs, k));
        }
      }
      forall k' | k' in keys && Bucket(exs, k') != []
        ensures exists i :: 0 <= i < |g| && g[i].0 == k'
      {
        if k' in p {
          var i :| 0 <= i < |gp| && gp[i].0 == k';
          assert g[i] == gp[i];
        } else {
          assert g[|gp|].0 == k';
        }
      }
    }
  }

  /** Listing only the non-empty groups keeps the keys' rank order. */
  lemma {:induction false} NonEmptyGroupsOrdered(exs: seq<LibraryExercise>, keys: seq<string>)
    requires RankIncreasing(exs, keys)
    ensures GroupRanksIncrease(exs, NonEmptyGroups(exs, keys))
    decreases |keys|
  {
    if keys != [] {
      var p := keys[..|keys| - 1];
      var k := keys[|keys| - 1];
      var g := NonEmptyGroups(exs, keys);
      var gp := NonEmptyGroups(exs, p);
      assert RankIncreasing(exs, p);
      NonEmptyGroupsOrdered(exs, p);
      assert GroupRanksIncrease(exs, gp);
      NonEmptyGroupsShape(exs, p);
      forall i, j | 0 <= i < j < |g|
        ensures Rank(exs, g[i].0) < Rank(exs, g[j].0)
      {
        assert g[i] == gp[i];
        if j < |gp| {
          assert g[j] == gp[j];
        } else {
          var at :| 0 <= at < |p| && p[at] == gp[i].0;
          assert keys[at] == gp[i].0 && keys[|keys| - 1] == g[j].0;
        }
      }
    }
  }

  lemma {:induction false} FlattenIsConcatBuckets(exs: seq<LibraryExercise>, keys: seq<string>)
    ensures Flatten(NonEmptyGroups(exs, keys)) == ConcatBuckets(exs, keys)
    decreases |keys|
  {
    if keys != [] {
      var p := keys[..|keys| - 1];
      var k := keys[|keys| - 1];
      var gp := NonEmptyGroups(exs, p);
      FlattenIsConcatBuckets(exs, p);
      if Bucket(exs, k) != [] {
        assert (gp + [(k, Bucket(exs, k))])[..|gp|] == gp;
      } else {
        assert NonEmptyGroups(exs, keys) == gp + [] == gp;
        assert ConcatBuckets(exs, keys) == ConcatBuckets(exs, p) + [];
      }
    }
  }

  lemma {:induction false} ConcatBucketsOfNothing(keys: seq<string>)
    ensures ConcatBuckets([], keys) == []
    decreases |keys|
  {
    if keys != [] {
      ConcatBucketsOfNothing(keys[..|keys| - 1]);
    }
  }

  /** Pushing one more exercise adds it to the buckets once, when its muscle is a key. */
  lemma {:induction false} ConcatBucketsStep(exs: seq<LibraryExercise>, x: LibraryExercise, keys: seq<string>)
    requires NoDuplicates(keys)
    ensures multiset(ConcatBuckets(exs + [x], keys))
         == multiset(ConcatBuckets(exs, keys)) + (if x.muscle in keys then multiset{x} else multiset{})
    decreases |keys|
  {
    if keys != [] {
      var p := keys[..|keys| - 1];
      var k := keys[|keys| - 1];
      assert NoDuplicates(p);
      ConcatBucketsStep(exs, x, p);
      assert (exs + [x])[..|exs|] == exs;
      SplitLast(keys);
      assert k !in p;
    }
  }

  /** With distinct keys covering every muscle, the buckets together are a
      permutation of the input. */
  lemma {:induction false} ConcatBucketsPartition(exs: seq<LibraryExercise>, keys: seq<string>)
    requires NoDuplicates(keys)
    requires forall i :: 0 <= i < |exs| ==> exs[i].muscle in keys
    ensures multiset(ConcatBuckets(exs, keys)) == multiset(exs)
    decreases |exs|
  {
    if exs == [] {
      ConcatBucketsOfNothing(keys);
    } else {
      var p := exs[..|exs| - 1];
      var x := exs[|exs| - 1];
      assert forall i :: 0 <= i < |p| ==> p[i] == exs[i];
      ConcatBucketsPartition(p, keys);
      SplitLast(exs);
      ConcatBucketsStep(p, x, keys);
    }
  }

  /** What groupByMuscle promises: the groups together are a permutation of the
      input; each group is non-empty and holds, in input order, exactly the
      exercises of its muscle; the keys come in rank order (known muscles in
      table order, then the others by first appearance), hence distinct; every
      muscle present gets a group. */
  predicate GroupedByMuscle(exs: seq<LibraryExercise>, groups: seq<(string, seq<LibraryExercise>)>)
  {
    && multiset(Flatten(groups)) == multiset(exs)
    && (forall i :: 0 <= i < |groups| ==>
          && groups[i].1 != []
          && IsSubsequence(groups[i].1, exs)
          && (forall x :: x in groups[i].1 ==> x.muscle == groups[i].0)
          && (forall x :: x in exs && x.muscle == groups[i].0 ==> x in groups[i].1))
    && (forall i, j :: 0 <= i < j < |groups| ==>
          Rank(exs, groups[i].0) < Rank(exs, groups[j].0) && groups[i].0 != groups[j].0)
    && (forall x :: x in exs ==> exists i :: 0 <= i < |groups| && groups[i].0 == x.muscle)
  }

  /** The key order has no duplicates and holds every muscle present. */
  lemma KeysCoverMuscles(exs: seq<LibraryExercise>)
    ensures NoDuplicates(KeyOrder(exs))
    ensures forall i :: 0 <= i < |exs| ==> exs[i].muscle in KeyOrder(exs)
  {
    var keys := KeyOrder(exs);
    KeyOrderFacts(exs);
    forall i, j | 0 <= i < j < |keys|
      ensures keys[i] != keys[j]
    {
      assert Rank(exs, keys[i]) < Rank(exs, keys[j]);
    }
    forall i | 0 <= i < |exs|
      ensures exs[i].muscle in keys
    {
      MusclesMembership(exs, exs[i].muscle);
    }
  }

  lemma GroupsArePermutation(exs: seq<LibraryExercise>)
    ensures multiset(Flatten(Groups(exs))) == multiset(exs)
  {
    KeysCoverMuscles(exs);
    ConcatBucketsPartition(exs, KeyOrder(exs));
    FlattenIsConcatBuckets(exs, KeyOrder(exs));
  }

  lemma GroupsAreBuckets(exs: seq<LibraryExercise>)
    ensures var g := Groups(exs);
      forall i :: 0 <= i < |g| ==>
        && g[i].1 != []
        && IsSubsequence(g[i].1, exs)
        && (forall x :: x in g[i].1 ==> x.muscle == g[i].0)
        && (forall x :: x in exs && x.muscle == g[i].0 ==> x in g[i].1)
  {
    var g := Groups(exs);
    NonEmptyGroupsShape(exs, KeyOrder(exs));
    forall i | 0 <= i < |g|
      ensures IsSubsequence(g[i].1, exs)
      ensures forall x :: x in g[i].1 ==> x.muscle == g[i].0
      ensures forall x :: x in exs && x.muscle == g[i].0 ==> x in g[i].1
    {
      BucketMembers(exs, g[i].0);
      BucketFacts(exs, g[i].0);
    }
  }

  lemma GroupsAreOrdered(exs: seq<LibraryExercise>)
    ensures var g := Groups(exs);
      forall i, j :: 0 <= i < j < |g| ==> Rank(exs, g[i].0) < Rank(exs, g[j].0) && g[i].0 != g[j].0
  {
    var keys := KeyOrder(exs);
    var g := NonEmptyGroups(exs, keys);
    KeyOrderFacts(exs);
    NonEmptyGroupsOrdered(exs, keys);
    assert GroupRanksIncrease(exs, g);
    forall i, j | 0 <= i < j < |g|
      ensures g[i].0 != g[j].0
    {
      assert Rank(exs, g[i].0) < Rank(exs, g[j].0);
    }
  }

  lemma GroupsCoverMuscles(exs: seq<LibraryExercise>)
    ensures var g := Groups(exs);
      forall x :: x in exs ==> exists i :: 0 <= i < |g| && g[i].0 == x.muscle
  {
    var g := Groups(exs);
    KeyOrderFacts(exs);
    NonEmptyGroupsShape(exs, KeyOrder(exs));
    forall x | x in exs
      ensures exists i :: 0 <= i < |g| && g[i].0 == x.muscle
    {
      MusclesMembership(exs, x.muscle);
      BucketFacts(exs, x.muscle);
    }
  }

  lemma GroupsAreGroupedByMuscle(exs: seq<LibraryExercise>)
    ensures GroupedByMuscle(exs, Groups(exs))
  {
    GroupsArePermutation(exs);
    GroupsAreBuckets(exs);
    GroupsAreOrdered(exs);
    GroupsCoverMuscles(exs);
  }

  /** groupByMuscle: buckets every exercise under its muscle, known muscles
      first, and drops the empty buckets. */
  method GroupByMuscle(exs: seq<LibraryExercise>) returns (groups: seq<(string, seq<LibraryExercise>)>)
    ensures groups == Groups(exs)
    ensures GroupedByMuscle(exs, groups)
  {
    var keys := MuscleOrder;
    var buckets: map<string, seq<LibraryExercise>> := map m | m in MuscleOrder :: [];
    assert exs[..0] == [];
    for i := 0 to |exs|
      invariant Tracks(exs[..i], keys, buckets)
    {
      ghost var keys0, buckets0 := keys, buckets;
      var m := exs[i].muscle;
      if m !in buckets {
        buckets := buckets[m := []];
        keys := keys + [m];
      }
      buckets := buckets[m := buckets[m] + [exs[i]]];
      assert [] + [exs[i]] == [exs[i]];
      PushKeepsTrack(exs, i, keys0, buckets0, keys, buckets);
    }
    assert exs[..|exs|] == exs;

    groups := [];
    for j := 0 to |keys|
      invariant groups == NonEmptyGroups(exs, keys[..j])
    {
      NonEmptyGroupsStep(exs, keys, j);
      var bucket := buckets[keys[j]];
      if |bucket| > 0 {
        groups := groups + [(keys[j], bucket)];
      }
    }
    assert keys[..|keys|] == keys;

    GroupsAreGroupedByMuscle(exs);
  }
}


