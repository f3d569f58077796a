/** Merging configuration trees of dictionaries, lists and leaves. */
module ConfMerge {
  import opened Bytes

  datatype Result<T> = Ok(value: T) | Error

  datatype Value =
    | Text(text: string)
    | Number(number: int)
    | Flag(flag: bool)
    | List(items: seq<Value>)
    | Dict(entries: map<string, Value>)

  /** `type(a) is type(b)` */
  predicate SameType(a: Value, b: Value) {
    || (a.Text? && b.Text?) || (a.Number? && b.Number?) || (a.Flag? && b.Flag?)
    || (a.List? && b.List?) || (a.Dict? && b.Dict?)
  }

  predicate OneType(objects: seq<Value>) {
    forall i :: 0 <= i < |objects| ==> SameType(objects[i], objects[0])
  }

  // ---- depth, the measure of the recursion ----

  ghost function MaxOf(s: set<nat>): (m: nat)
    ensures forall x :: x in s ==> x <= m
    ensures s == {} ==> m == 0
    ensures s != {} ==> m in s
  {
    if s == {} then 0
    else
      var x :| x in s;
      var rest := MaxOf(s - {x});
      assert s == s - {x} + {x};
      if x >= rest then x else rest
  }

  ghost function Depth(v: Value): nat
    decreases v, 1
  {
    if v.Dict? then 1 + MaxOf(EntryDepths(v)) else 0
  }

  ghost function EntryDepths(v: Value): set<nat>
    requires v.Dict?
    decreases v, 0
  {
    set k | k in v.entries :: Depth(v.entries[k])
  }

  ghost function Depths(objects: seq<Value>): set<nat> {
    set i | 0 <= i < |objects| :: Depth(objects[i])
  }

  ghost function DepthOf(objects: seq<Value>): nat {
    MaxOf(Depths(objects))
  }

  lemma DepthOfEach(objects: seq<Value>, i: nat)
    requires i < |objects|
    ensures Depth(objects[i]) <= DepthOf(objects)
  {
    assert Depth(objects[i]) in Depths(objects);
  }

  lemma DepthOfEntry(v: Value, k: string)
    requires v.Dict? && k in v.entries
    ensures Depth(v.entries[k]) < Depth(v)
  {
    assert Depth(v.entries[k]) in EntryDepths(v);
  }

  predicate AllDicts(objects: seq<Value>) {
    forall i :: 0 <= i < |objects| ==> objects[i].Dict?
  }

  predicate AllLists(objects: seq<Value>) {
    forall i :: 0 <= i < |objects| ==> objects[i].List?
  }

  /** `[obj[key] for obj in objects if key in obj]` */
  function Select(objects: seq<Value>, key: string): (r: seq<Value>)
    requires AllDicts(objects)
    ensures |r| <= |objects|
    ensures r != [] <==> key in Keys(objects)
  {
    if objects == [] then []
    else (if key in objects[0].entries then [objects[0].entries[key]] else []) + Select(objects[1..], key)
  }

  function Keys(objects: seq<Value>): set<string>
    requires AllDicts(objects)
  {
    if objects == [] then {} else objects[0].entries.Keys + Keys(objects[1..])
  }

  lemma {:induction false} SelectIsShallower(objects: seq<Value>, key: string, bound: nat)
    requires forall i :: 0 <= i < |objects| ==> objects[i].Dict? && Depth(objects[i]) <= bound
    ensures forall i :: 0 <= i < |Select(objects, key)| ==> Depth(Select(objects, key)[i]) < bound
  {
    if objects != [] {
      SelectIsShallower(objects[1..], key, bound);
      if key in objects[0].entries {
        DepthOfEntry(objects[0], key);
      }
    }
  }

  lemma SelectDecreases(objects: seq<Value>, key: string)
    requires AllDicts(objects)
    requires key in Keys(objects)
    ensures DepthOf(Select(objects, key)) < DepthOf(objects)
  {
    forall i | 0 <= i < |objects|
      ensures Depth(objects[i]) <= DepthOf(objects)
    {
      DepthOfEach(objects, i);
    }
    SelectIsShallower(objects, key, DepthOf(objects));
    var selected := Select(objects, key);
    assert Depth(selected[0]) in Depths(selected);
    assert MaxOf(Depths(selected)) in Depths(selected);
  }

  function Items(objects: seq<Value>): seq<Value>
    requires AllLists(objects)
  {
    if objects == [] then [] else objects[0].items + Items(objects[1..])
  }

  /** `merge(*objects)`; `Error` stands for the exceptions it raises. */
  function Merge(objects: seq<Value>): Result<Value>
    decreases DepthOf(objects), 1
  {
    if objects == [] then Error
    else if !OneType(objects) then Error
    else if |objects| == 1 then Ok(objects[0])
    else if objects[0].Dict? then assert AllDicts(objects); Collected(MergedEntries(objects))
    else if objects[0].List? then Ok(List(Items(objects)))
    else Error
  }

  function MergedEntries(objects: seq<Value>): map<string, Result<Value>>
    requires AllDicts(objects)
    decreases DepthOf(objects), 0
  {
    map k | k in Keys(objects) :: (SelectDecreases(objects, k); Merge(Select(objects, k)))
  }

  /** The dictionary comprehension; it raises when one of its values does. */
  function Collected(entries: map<string, Result<Value>>): Result<Value> {
    if exists k :: k in entries && entries[k].Error? then Error
    else Ok(Dict(map k | k in entries :: entries[k].value))
  }

  // ---- what a merge gives ----

  lemma {:induction false} KeysAppend(a: seq<Value>, b: seq<Value>)
    requires AllDicts(a) && AllDicts(b)
    ensures AllDicts(a + b) && Keys(a + b) == Keys(a) + Keys(b)
  {
    if a == [] {
      assert a + b == b;
    } else {
      assert (a + b)[1..] == a[1..] + b;
      KeysAppend(a[1..], b);
    }
  }

  lemma {:induction false} SelectAppend(a: seq<Value>, b: seq<Value>, k: string)
    requires AllDicts(a) && AllDicts(b)
    ensures AllDicts(a + b) && Select(a + b, k) == Select(a, k) + Select(b, k)
  {
    if a == [] {
      assert a + b == b;
    } else {
      assert (a + b)[1..] == a[1..] + b;
      SelectAppend(a[1..], b, k);
      Assoc(if k in a[0].entries then [a[0].entries[k]] else [], Select(a[1..], k), Select(b, k));
    }
  }

  lemma {:induction false} ItemsAppend(a: seq<Value>, b: seq<Value>)
    requires AllLists(a) && AllLists(b)
    ensures AllLists(a + b) && Items(a + b) == Items(a) + Items(b)
  {
    if a == [] {
      assert a + b == b;
    } else {
      assert (a + b)[1..] == a[1..] + b;
      ItemsAppend(a[1..], b);
    }
  }

  lemma SelectOne(v: Value, k: string)
    requires v.Dict?
    ensures Select([v], k) == (if k in v.entries then [v.entries[k]] else []) && Keys([v]) == v.entries.Keys
  {
    assert [v][1..] == [];
  }

  lemma MergeOne(v: Value)
    ensures Merge([v]) == Ok(v)
  {
  }

  lemma EntriesOfOne(v: Value)
    requires v.Dict?
    ensures Collected(MergedEntries([v])) == Ok(v)
  {
    var entries := MergedEntries([v]);
    forall k | k in v.entries
      ensures k in entries && entries[k] == Ok(v.entries[k])
    {
      SelectOne(v, k);
      MergeOne(v.entries[k]);
    }
    SelectOne(v, "");
    assert entries.Keys == v.entries.Keys;
    assert (map k | k in entries :: entries[k].value) == v.entries;
  }

  /** The keys of merged dictionaries are merged one by one, also for a single dictionary. */
  lemma MergeOfDicts(objects: seq<Value>)
    requires objects != [] && AllDicts(objects)
    ensures Merge(objects) == Collected(MergedEntries(objects))
  {
    if |objects| == 1 {
      assert objects == [objects[0]];
      EntriesOfOne(objects[0]);
    }
  }

  /** A merge of dictionaries has exactly the keys of its arguments, each merged by itself; it raises
      when one of these merges does, and only then. */
  lemma KeysAreUnited(objects: seq<Value>, k: string)
    requires objects != [] && AllDicts(objects)
    ensures Merge(objects).Ok? ==> Merge(objects).value.Dict? && Merge(objects).value.entries.Keys == Keys(objects)
    ensures Merge(objects).Ok? && k in Keys(objects) ==>
              Merge(Select(objects, k)) == Ok(Merge(objects).value.entries[k])
    ensures k in Keys(objects) && Merge(Select(objects, k)).Error? ==> Merge(objects).Error?
  {
    MergeOfDicts(objects);
    if k in Keys(objects) {
      assert MergedEntries(objects)[k] == Merge(Select(objects, k));
    }
  }

  lemma RaisingKey(objects: seq<Value>) returns (k: string)
    requires objects != [] && AllDicts(objects) && Merge(objects).Error?
    ensures k in Keys(objects) && Merge(Select(objects, k)).Error?
  {
    MergeOfDicts(objects);
    var entries := MergedEntries(objects);
    k :| k in entries && entries[k].Error?;
  }

  lemma MergeOfLists(objects: seq<Value>)
    requires objects != [] && AllLists(objects)
    ensures Merge(objects) == Ok(List(Items(objects)))
  {
    if |objects| == 1 {
      assert objects == [objects[0]] && objects[1..] == [];
      assert Items(objects) == objects[0].items;
    }
  }

  lemma DictsSucceedExactlyWhen(objects: seq<Value>)
    requires objects != [] && AllDicts(objects)
    ensures Merge(objects).Ok? <==> forall k :: k in Keys(objects) ==> Merge(Select(objects, k)).Ok?
  {
    if Merge(objects).Error? {
      var k := RaisingKey(objects);
    } else {
      forall k | k in Keys(objects)
        ensures Merge(Select(objects, k)).Ok?
      {
        KeysAreUnited(objects, k);
      }
    }
  }

  /** A merge of several succeeds exactly for lists, and for dictionaries whose values can be merged key
      by key: mixed types and leaves raise, and so does a merge of nothing. */
  lemma MergeSucceedsExactlyWhen(objects: seq<Value>)
    requires |objects| != 1
    ensures Merge(objects).Ok? <==>
              && objects != []
              && (AllLists(objects)
                  || (AllDicts(objects) && forall k :: k in Keys(objects) ==> Merge(Select(objects, k)).Ok?))
  {
    if objects == [] {
    } else if AllDicts(objects) {
      DictsSucceedExactlyWhen(objects);
    } else if AllLists(objects) {
      MergeOfLists(objects);
    } else {
      MixedOrLeaves(objects);
    }
  }

  lemma MixedOrLeaves(objects: seq<Value>)
    requires |objects| > 1 && !AllDicts(objects) && !AllLists(objects)
    ensures Merge(objects).Error?
  {
    if OneType(objects) {
      assert objects[0].Dict? ==> AllDicts(objects);
      assert objects[0].List? ==> AllLists(objects);
    }
  }

  /** Two lists follow one another. */
  lemma MergeOfTwoLists(a: seq<Value>, b: seq<Value>)
    ensures Merge([List(a), List(b)]) == Ok(List(a + b))
  {
    MergeOfLists([List(a), List(b)]);
    ItemsAppend([List(a)], [List(b)]);
    assert [List(a)] + [List(b)] == [List(a), List(b)];
    assert [List(a)][1..] == [] && [List(b)][1..] == [];
    assert a + [] == a && b + [] == b;
  }

  /** Two dictionaries: a key of one has its value, a key of both the merge of both values, the first
      dictionary's before the second's. */
  lemma MergeOfTwoDicts(a: map<string, Value>, b: map<string, Value>, k: string)
    requires Merge([Dict(a), Dict(b)]).Ok?
    ensures var r := Merge([Dict(a), Dict(b)]).value;
            && r.Dict? && r.entries.Keys == a.Keys + b.Keys
            && (k in a && k !in b ==> r.entries[k] == a[k])
            && (k !in a && k in b ==> r.entries[k] == b[k])
            && (k in a && k in b ==> Merge([a[k], b[k]]) == Ok(r.entries[k]))
  {
    SelectOfTwo(a, b, k);
    KeysAreUnited([Dict(a), Dict(b)], k);
    if k in a && k !in b {
      MergeOne(a[k]);
    } else if k !in a && k in b {
      MergeOne(b[k]);
    }
  }

  lemma SelectOfTwo(a: map<string, Value>, b: map<string, Value>, k: string)
    ensures Keys([Dict(a), Dict(b)]) == a.Keys + b.Keys
    ensures Select([Dict(a), Dict(b)], k)
         == if k in a && k in b then [a[k], b[k]] else if k in a then [a[k]] else if k in b then [b[k]] else []
  {
    assert [Dict(a), Dict(b)] == [Dict(a)] + [Dict(b)];
    SelectAppend([Dict(a)], [Dict(b)], k);
    KeysAppend([Dict(a)], [Dict(b)]);
    SelectOne(Dict(a), k);
    SelectOne(Dict(b), k);
  }

  // ---- brackets do not matter ----

  predicate AllLike(objects: seq<Value>, v: Value) {
    forall i :: 0 <= i < |objects| ==> SameType(objects[i], v)
  }

  /** Any argument will do to compare the others with. */
  lemma OneTypeBy(objects: seq<Value>, i: nat)
    requires i < |objects|
    ensures OneType(objects) <==> AllLike(objects, objects[i])
  {
  }

  lemma AllLikeAppend(a: seq<Value>, b: seq<Value>, v: Value)
    ensures AllLike(a + b, v) <==> AllLike(a, v) && AllLike(b, v)
  {
    assert forall i :: 0 <= i < |b| ==> (a + b)[|a| + i] == b[i];
    assert forall i :: 0 <= i < |a| ==> (a + b)[i] == a[i];
  }

  lemma AllLikeSame(objects: seq<Value>, v: Value, w: Value)
    requires SameType(v, w)
    ensures AllLike(objects, v) <==> AllLike(objects, w)
  {
  }

  lemma OneTypeWithin(a: seq<Value>, b: seq<Value>, c: seq<Value>, v: Value)
    requires b != [] && (OneType(b) ==> SameType(v, b[0]))
    ensures OneType(a + b + c) <==> OneType(b) && OneType(a + [v] + c)
  {
    var all, short := a + b + c, a + [v] + c;
    assert all[|a|] == b[0] && short[|a|] == v;
    OneTypeBy(all, |a|);
    OneTypeBy(short, |a|);
    AllLikeAppend(a + b, c, b[0]);
    AllLikeAppend(a, b, b[0]);
    AllLikeAppend(a + [v], c, v);
    AllLikeAppend(a, [v], v);
    if OneType(b) {
      AllLikeSame(a, v, b[0]);
      AllLikeSame(c, v, b[0]);
    }
  }

  /** Merging a run of the arguments first, in a merge of its own, gives the same value, and raises
      exactly when the one big merge raises. */
  lemma {:induction false} MergeNested(a: seq<Value>, b: seq<Value>, c: seq<Value>)
    requires b != []
    ensures if Merge(b).Ok? then Merge(a + [Merge(b).value] + c) == Merge(a + b + c) else Merge(a + b + c).Error?
    decreases DepthOf(a + b + c)
  {
    var all := a + b + c;
    if |b| == 1 {
      assert b == [b[0]];
    } else if !OneType(b) {
      OneTypeWithin(a, b, c, b[0]);
    } else if AllLists(b) {
      MergeOfLists(b);
      NestedLists(a, b, c);
    } else if AllDicts(b) {
      if AllDicts(all) {
        DictParts(a, b, c);
        forall k | k in Keys(b)
          ensures NestedAt(a, b, c, k)
        {
          SelectThree(a, b, c, k);
          SelectDecreases(all, k);
          MergeNested(Select(a, k), Select(b, k), Select(c, k));
        }
        NestedDicts(a, b, c);
      } else {
        MergeOfDicts(b);
        if Merge(b).Ok? {
          OneTypeWithin(a, b, c, Merge(b).value);
        }
        assert !OneType(all) by {
          assert all[|a|] == b[0];
        }
      }
    } else {
      OneTypeWithin(a, b, c, b[0]);
      assert all[|a|] == b[0];
    }
  }

  lemma NestedLists(a: seq<Value>, b: seq<Value>, c: seq<Value>)
    requires |b| > 1 && AllLists(b)
    ensures Merge(a + [List(Items(b))] + c) == Merge(a + b + c)
  {
    var all, short := a + b + c, a + [List(Items(b))] + c;
    OneTypeWithin(a, b, c, List(Items(b)));
    if OneType(all) {
      assert all[|a|] == b[0];
      assert AllLists(all);
      assert forall i :: 0 <= i < |a| ==> all[i] == a[i];
      assert forall i :: 0 <= i < |c| ==> all[|a| + |b| + i] == c[i];
      assert AllLists(a) && AllLists(c) && AllLists(short);
      ItemsAppend(a, b);
      ItemsAppend(a + b, c);
      var one := [List(Items(b))];
      assert one[1..] == [] && Items(one) == Items(b);
      ItemsAppend(a, one);
      ItemsAppend(a + one, c);
      MergeOfLists(all);
      MergeOfLists(short);
    }
  }

  lemma DictParts(a: seq<Value>, b: seq<Value>, c: seq<Value>)
    requires AllDicts(a + b + c)
    ensures AllDicts(a) && AllDicts(b) && AllDicts(c)
  {
    var all := a + b + c;
    assert forall i :: 0 <= i < |a| ==> all[i] == a[i];
    assert forall i :: 0 <= i < |b| ==> all[|a| + i] == b[i];
    assert forall i :: 0 <= i < |c| ==> all[|a| + |b| + i] == c[i];
  }

  /** The claim of `MergeNested` for the values below one key. */
  ghost predicate NestedAt(a: seq<Value>, b: seq<Value>, c: seq<Value>, k: string)
    requires AllDicts(a) && AllDicts(b) && AllDicts(c)
  {
    var inner := Merge(Select(b, k));
    var whole := Merge(Select(a, k) + Select(b, k) + Select(c, k));
    if inner.Ok? then Merge(Select(a, k) + [inner.value] + Select(c, k)) == whole else whole.Error?
  }

  lemma SelectThree(a: seq<Value>, b: seq<Value>, c: seq<Value>, k: string)
    requires AllDicts(a) && AllDicts(b) && AllDicts(c)
    ensures AllDicts(a + b + c) && Keys(a + b + c) == Keys(a) + Keys(b) + Keys(c)
    ensures Select(a + b + c, k) == Select(a, k) + Select(b, k) + Select(c, k)
  {
    SelectAppend(a, b, k);
    KeysAppend(a, b);
    SelectAppend(a + b, c, k);
    KeysAppend(a + b, c);
  }

  lemma NestedDicts(a: seq<Value>, b: seq<Value>, c: seq<Value>)
    requires |b| > 1 && AllDicts(a) && AllDicts(b) && AllDicts(c)
    requires forall k :: k in Keys(b) ==> NestedAt(a, b, c, k)
    ensures if Merge(b).Ok? then Merge(a + [Merge(b).value] + c) == Merge(a + b + c) else Merge(a + b + c).Error?
  {
    if Merge(b).Ok? {
      NestedDictsOk(a, b, c, Merge(b).value);
    } else {
      var k := RaisingKey(b);
      SelectThree(a, b, c, k);
      assert NestedAt(a, b, c, k);
      KeysAreUnited(a + b + c, k);
    }
  }

  lemma NestedDictsOk(a: seq<Value>, b: seq<Value>, c: seq<Value>, v: Value)
    requires |b| > 1 && AllDicts(a) && AllDicts(b) && AllDicts(c) && Merge(b) == Ok(v)
    requires forall k :: k in Keys(b) ==> NestedAt(a, b, c, k)
    ensures Merge(a + [v] + c) == Merge(a + b + c)
  {
    var all, short := a + b + c, a + [v] + c;
    NestedKeys(a, b, c, v);
    forall k | k in Keys(short)
      ensures Merge(Select(short, k)) == Merge(Select(all, k))
    {
      NestedEntryOf(a, b, c, v, k);
    }
    SameEntries(short, all);
  }

  lemma NestedKeys(a: seq<Value>, b: seq<Value>, c: seq<Value>, v: Value)
    requires b != [] && AllDicts(a) && AllDicts(b) && AllDicts(c) && Merge(b) == Ok(v)
    ensures v.Dict? && v.entries.Keys == Keys(b)
    ensures AllDicts(a + [v] + c) && AllDicts(a + b + c) && Keys(a + [v] + c) == Keys(a + b + c)
  {
    KeysAreUnited(b, "");
    SelectThree(a, b, c, "");
    SelectThree(a, [v], c, "");
    SelectOne(v, "");
  }

  lemma NestedEntryOf(a: seq<Value>, b: seq<Value>, c: seq<Value>, v: Value, k: string)
    requires b != [] && AllDicts(a) && AllDicts(b) && AllDicts(c) && Merge(b) == Ok(v)
    requires k in Keys(b) ==> NestedAt(a, b, c, k)
    ensures AllDicts(a + [v] + c) && AllDicts(a + b + c)
    ensures Merge(Select(a + [v] + c, k)) == Merge(Select(a + b + c, k))
  {
    KeysAreUnited(b, k);
    NestedEntry(a, b, c, v, k);
  }

  /** Dictionaries whose values merge alike under every key merge alike. */
  lemma SameEntries(a: seq<Value>, b: seq<Value>)
    requires a != [] && b != [] && AllDicts(a) && AllDicts(b) && Keys(a) == Keys(b)
    requires forall k :: k in Keys(a) ==> Merge(Select(a, k)) == Merge(Select(b, k))
    ensures Merge(a) == Merge(b)
  {
    MergeOfDicts(a);
    MergeOfDicts(b);
    assert MergedEntries(a) == MergedEntries(b);
  }

  lemma NestedEntry(a: seq<Value>, b: seq<Value>, c: seq<Value>, v: Value, k: string)
    requires AllDicts(a) && AllDicts(b) && AllDicts(c) && v.Dict? && v.entries.Keys == Keys(b)
    requires k in Keys(b) ==> Merge(Select(b, k)) == Ok(v.entries[k]) && NestedAt(a, b, c, k)
    ensures AllDicts(a + [v] + c) && AllDicts(a + b + c)
    ensures Merge(Select(a + [v] + c, k)) == Merge(Select(a + b + c, k))
  {
    SelectThree(a, b, c, k);
    SelectThree(a, [v], c, k);
    SelectOne(v, k);
  }

  /** A way of bracketing a merge: some arguments are themselves merges. */
  datatype Plan = One(argument: Value) | Group(parts: seq<Plan>)

  predicate Sensible(plan: Plan) {
    plan.One? || (plan.parts != [] && forall i :: 0 <= i < |plan.parts| ==> Sensible(plan.parts[i]))
  }

  function Leaves(plan: Plan): seq<Value>
    decreases plan, 1
  {
    match plan
    case One(argument) => [argument]
    case Group(parts) => LeavesOf(parts)
  }

  function LeavesOf(parts: seq<Plan>): seq<Value>
    decreases parts, 0
  {
    if parts == [] then [] else Leaves(parts[0]) + LeavesOf(parts[1..])
  }

  /** Evaluates the nested calls; an inner exception passes through. */
  function Evaluate(plan: Plan): Result<Value>
    decreases plan, 1
  {
    match plan
    case One(argument) => Ok(argument)
    case Group(parts) =>
      var arguments := Arguments(parts);
      if arguments.Error? then Error else Merge(arguments.value)
  }

  function Arguments(parts: seq<Plan>): Result<seq<Value>>
    decreases parts, 0
  {
    if parts == [] then Ok([])
    else
      var first, rest := Evaluate(parts[0]), Arguments(parts[1..]);
      if first.Error? || rest.Error? then Error else Ok([first.value] + rest.value)
  }

  lemma {:induction false} LeavesExist(plan: Plan)
    requires Sensible(plan)
    ensures Leaves(plan) != []
    decreases plan
  {
    if plan.Group? {
      LeavesExist(plan.parts[0]);
    }
  }

  /** With any arguments before them, the evaluated parts merge like their leaves. */
  lemma {:induction false} ArgumentsAreLeaves(before: seq<Value>, parts: seq<Plan>)
    requires forall i :: 0 <= i < |parts| ==> Sensible(parts[i])
    ensures if Arguments(parts).Ok? then Merge(before + Arguments(parts).value) == Merge(before + LeavesOf(parts))
            else Merge(before + LeavesOf(parts)).Error?
    decreases parts, 0
  {
    if parts != [] {
      var leaves, rest := Leaves(parts[0]), parts[1..];
      LeavesExist(parts[0]);
      BracketsDoNotMatter(parts[0]);
      MergeNested(before, leaves, LeavesOf(rest));
      assert before + leaves + LeavesOf(rest) == before + LeavesOf(parts);
      if Evaluate(parts[0]).Ok? {
        var v := Evaluate(parts[0]).value;
        ArgumentsAreLeaves(before + [v], rest);
        if Arguments(rest).Ok? {
          assert before + [v] + Arguments(rest).value == before + Arguments(parts).value;
        }
      }
    }
  }

  /** An n-ary merge equals every bracketing of it into smaller merges, in its value and in whether
      it raises. */
  lemma {:induction false} BracketsDoNotMatter(plan: Plan)
    requires Sensible(plan)
    ensures Evaluate(plan) == Merge(Leaves(plan))
    decreases plan, 1
  {
    match plan
    case One(argument) => MergeOne(argument);
    case Group(parts) =>
      ArgumentsAreLeaves([], parts);
      assert [] + LeavesOf(parts) == LeavesOf(parts);
      if Arguments(parts).Ok? {
        assert [] + Arguments(parts).value == Arguments(parts).value;
      }
  }
}
