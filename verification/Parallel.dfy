/** Parallel inference: one asynchronous task per loadable model, collected in launch order,
    and the choice of the most confident response. */
module Parallel {
  import opened Common

  datatype ModelResponse = ModelResponse(response: string, confidence: real, modelName: string)

  /** `get_model`, whose answer does not change during one call, and the reply of a model to the
      prompt at hand. */
  datatype Pool<!M> = Pool(load: string -> Option<M>, chat: M -> ModelResponse)

  // ---------- Sequential meaning ----------

  function LoadableNames<M>(pool: Pool<M>, names: seq<string>): (r: seq<string>)
    ensures |r| <= |names|
    ensures forall name :: name in r ==> name in names && pool.load(name).Some?
  {
    if names == [] then []
    else (if pool.load(names[0]).Some? then [names[0]] else []) + LoadableNames(pool, names[1..])
  }

  function Reply<M>(pool: Pool<M>, name: string): ModelResponse
    requires pool.load(name).Some?
  {
    pool.chat(pool.load(name).value)
  }

  /** Ask the loadable models one after the other. */
  function Responses<M>(pool: Pool<M>, names: seq<string>): seq<ModelResponse> {
    var loadable := LoadableNames(pool, names);
    seq(|loadable|, i requires 0 <= i < |loadable| => Reply(pool, loadable[i]))
  }

  // ---------- Tasks in any interleaving ----------

  datatype Task<M> = Running(model: M) | Done(response: ModelResponse)

  /** Names looked at so far, tasks in launch order, and responses collected so far. */
  datatype State<M> = State(seen: nat, tasks: seq<Task<M>>, collected: seq<ModelResponse>)

  datatype Action = Launch | Complete(task: nat) | Collect

  function Init<M>(): State<M> {
    State(0, [], [])
  }

  predicate Enabled<M>(names: seq<string>, s: State<M>, a: Action) {
    match a
    case Launch => s.seen < |names|
    case Complete(i) => i < |s.tasks| && s.tasks[i].Running?
    // `future.get()` waits until the response is there
    case Collect => s.seen >= |names| && |s.collected| < |s.tasks| && s.tasks[|s.collected|].Done?
  }

  function Apply<M>(pool: Pool<M>, names: seq<string>, s: State<M>, a: Action): State<M>
    requires Enabled(names, s, a)
  {
    match a
    case Launch =>
      var model := pool.load(names[s.seen]);
      s.(seen := s.seen + 1, tasks := s.tasks + (if model.Some? then [Running(model.value)] else []))
    case Complete(i) =>
      s.(tasks := s.tasks[i := Done(pool.chat(s.tasks[i].model))])
    case Collect =>
      s.(collected := s.collected + [s.tasks[|s.collected|].response])
  }

  /** The state after the given actions, if each is possible when its turn comes. */
  function RunOf<M>(pool: Pool<M>, names: seq<string>, actions: seq<Action>): Option<State<M>> {
    if actions == [] then Some(Init())
    else match RunOf(pool, names, actions[..|actions| - 1])
      case None => None
      case Some(before) =>
        var last := actions[|actions| - 1];
        if Enabled(names, before, last) then Some(Apply(pool, names, before, last)) else None
  }

  predicate Finished<M>(names: seq<string>, s: State<M>) {
    s.seen >= |names| && |s.collected| == |s.tasks|
  }

  /** Task `i` runs the `i`-th loadable model, or is done with its reply. */
  ghost predicate TasksMatch<M>(pool: Pool<M>, loadable: seq<string>, tasks: seq<Task<M>>)
    requires forall name :: name in loadable ==> pool.load(name).Some?
  {
    && |tasks| == |loadable|
    && forall i :: 0 <= i < |tasks| ==>
         match tasks[i]
         case Running(model) => model == pool.load(loadable[i]).value
         case Done(response) => response == Reply(pool, loadable[i])
  }

  /** The responses collected so far are those of the first tasks, which are done. */
  ghost predicate CollectedMatch<M>(tasks: seq<Task<M>>, collected: seq<ModelResponse>) {
    && |collected| <= |tasks|
    && forall i :: 0 <= i < |collected| ==> tasks[i] == Done(collected[i])
  }

  ghost predicate Invariant<M>(pool: Pool<M>, names: seq<string>, s: State<M>) {
    && s.seen <= |names|
    && TasksMatch(pool, LoadableNames(pool, names[..s.seen]), s.tasks)
    && CollectedMatch(s.tasks, s.collected)
    && (s.collected != [] ==> s.seen == |names|)
  }

  lemma {:induction false} LoadableAppend<M>(pool: Pool<M>, a: seq<string>, b: seq<string>)
    ensures LoadableNames(pool, a + b) == LoadableNames(pool, a) + LoadableNames(pool, b)
  {
    if a == [] {
      assert a + b == b;
    } else {
      assert (a + b)[1..] == a[1..] + b;
      LoadableAppend(pool, a[1..], b);
    }
  }

  lemma LaunchKeepsInvariant<M>(pool: Pool<M>, names: seq<string>, s: State<M>)
    requires Invariant(pool, names, s) && Enabled(names, s, Launch)
    ensures Invariant(pool, names, Apply(pool, names, s, Launch))
  {
    LoadableNext(pool, names, s.seen);
  }

  lemma CompleteKeepsInvariant<M>(pool: Pool<M>, names: seq<string>, s: State<M>, i: nat)
    requires Invariant(pool, names, s) && Enabled(names, s, Complete(i))
    ensures Invariant(pool, names, Apply(pool, names, s, Complete(i)))
  {
  }

  lemma CollectKeepsInvariant<M>(pool: Pool<M>, names: seq<string>, s: State<M>)
    requires Invariant(pool, names, s) && Enabled(names, s, Collect)
    ensures Invariant(pool, names, Apply(pool, names, s, Collect))
  {
  }

  lemma InvariantStep<M>(pool: Pool<M>, names: seq<string>, s: State<M>, a: Action)
    requires Invariant(pool, names, s) && Enabled(names, s, a)
    ensures Invariant(pool, names, Apply(pool, names, s, a))
  {
    match a
    case Launch => LaunchKeepsInvariant(pool, names, s);
    case Complete(i) => CompleteKeepsInvariant(pool, names, s, i);
    case Collect => CollectKeepsInvariant(pool, names, s);
  }

  lemma {:induction false} ReachableInvariant<M>(pool: Pool<M>, names: seq<string>, actions: seq<Action>, s: State<M>)
    requires RunOf(pool, names, actions) == Some(s)
    ensures Invariant(pool, names, s)
    decreases |actions|
  {
    if actions != [] {
      var init, last := actions[..|actions| - 1], actions[|actions| - 1];
      var before := RunOf(pool, names, init).value;
      ReachableInvariant(pool, names, init, before);
      InvariantStep(pool, names, before, last);
    }
  }

  /** However launches, completions and collections interleave, a finished run has the responses
      of the sequential pass, in launch order. */
  lemma ParallelDeterminism<M>(pool: Pool<M>, names: seq<string>, actions: seq<Action>, s: State<M>)
    requires RunOf(pool, names, actions) == Some(s) && Finished(names, s)
    ensures s.collected == Responses(pool, names)
  {
    ReachableInvariant(pool, names, actions, s);
    assert names[..s.seen] == names;
  }

  function RunningTasks<M>(tasks: seq<Task<M>>): nat {
    if tasks == [] then 0 else RunningTasks(tasks[..|tasks| - 1]) + (if tasks[|tasks| - 1].Running? then 1 else 0)
  }

  lemma {:induction false} CompletingOne<M>(tasks: seq<Task<M>>, i: nat, response: ModelResponse)
    requires i < |tasks| && tasks[i].Running?
    ensures RunningTasks(tasks[i := Done(response)]) == RunningTasks(tasks) - 1
    decreases |tasks|
  {
    var after := tasks[i := Done(response)];
    if i < |tasks| - 1 {
      CompletingOne(tasks[..|tasks| - 1], i, response);
      assert after[..|after| - 1] == tasks[..|tasks| - 1][i := Done(response)];
    } else {
      assert after[..|after| - 1] == tasks[..|tasks| - 1];
    }
  }

  function Remaining<M>(names: seq<string>, s: State<M>): int {
    3 * (|names| - s.seen) + (|s.tasks| - |s.collected|) + RunningTasks(s.tasks)
  }

  lemma StepDecreases<M>(pool: Pool<M>, names: seq<string>, s: State<M>, a: Action)
    requires Invariant(pool, names, s) && Enabled(names, s, a)
    ensures Remaining(names, Apply(pool, names, s, a)) < Remaining(names, s)
  {
    match a
    case Launch =>
      var s' := Apply(pool, names, s, a);
      if s'.tasks != s.tasks {
        assert s'.tasks[..|s'.tasks| - 1] == s.tasks;
      }
    case Complete(i) => CompletingOne(s.tasks, i, pool.chat(s.tasks[i].model));
    case Collect =>
  }

  /** No run is longer than three actions per name, and a run that has not finished can always
      go on: every interleaving ends in a finished state. */
  lemma {:induction false} EveryRunFinishes<M>(pool: Pool<M>, names: seq<string>, actions: seq<Action>, s: State<M>)
    requires RunOf(pool, names, actions) == Some(s)
    ensures |actions| + Remaining(names, s) <= 3 * |names| && Remaining(names, s) >= 0
    ensures Finished(names, s) <==> forall a :: !Enabled(names, s, a)
    decreases |actions|
  {
    ReachableInvariant(pool, names, actions, s);
    if actions != [] {
      var init, last := actions[..|actions| - 1], actions[|actions| - 1];
      var before := RunOf(pool, names, init).value;
      EveryRunFinishes(pool, names, init, before);
      ReachableInvariant(pool, names, init, before);
      StepDecreases(pool, names, before, last);
    }
    if s.seen < |names| {
      assert Enabled(names, s, Launch);
    } else if |s.collected| < |s.tasks| {
      assert Enabled(names, s, if s.tasks[|s.collected|].Running? then Complete(|s.collected|) else Collect);
    } else {
      AllCollected(pool, names, s);
    }
  }

  lemma AllCollected<M>(pool: Pool<M>, names: seq<string>, s: State<M>)
    requires Invariant(pool, names, s) && Finished(names, s)
    ensures forall a :: !Enabled(names, s, a)
  {
  }

  /** The two loops of `parallel_inference` under the schedule in which each task ends when its
      result is asked for; by `ParallelDeterminism` no schedule gives another result. */
  method ParallelInference<M>(pool: Pool<M>, names: seq<string>) returns (responses: seq<ModelResponse>)
    ensures responses == Responses(pool, names)
  {
    var futures: seq<M> := [];
    for i := 0 to |names|
      invariant |futures| == |LoadableNames(pool, names[..i])|
      invariant forall k :: 0 <= k < |futures| ==> pool.load(LoadableNames(pool, names[..i])[k]) == Some(futures[k])
    {
      LoadableNext(pool, names, i);
      var model := pool.load(names[i]);
      if model.None? { continue; }
      futures := futures + [model.value];
    }
    assert names[..|names|] == names;
    responses := [];
    for i := 0 to |futures|
      invariant responses == Responses(pool, names)[..i]
    {
      responses := responses + [pool.chat(futures[i])];
    }
  }

  lemma LoadableNext<M>(pool: Pool<M>, names: seq<string>, i: nat)
    requires i < |names|
    ensures LoadableNames(pool, names[..i + 1])
         == LoadableNames(pool, names[..i]) + (if pool.load(names[i]).Some? then [names[i]] else [])
  {
    assert names[..i + 1] == names[..i] + [names[i]];
    LoadableAppend(pool, names[..i], [names[i]]);
    assert [names[i]][1..] == [];
  }

  // ---------- The most confident response ----------

  /** The first response of maximal confidence. */
  ghost predicate IsFirstMax(responses: seq<ModelResponse>, k: nat) {
    && k < |responses|
    && (forall i :: 0 <= i < |responses| ==> responses[i].confidence <= responses[k].confidence)
    && (forall i :: 0 <= i < k ==> responses[i].confidence < responses[k].confidence)
  }

  lemma FirstMaxUnique(responses: seq<ModelResponse>, j: nat, k: nat)
    requires IsFirstMax(responses, j) && IsFirstMax(responses, k)
    ensures j == k
  {
    assert responses[j].confidence == responses[k].confidence;
  }

  function FirstMax(responses: seq<ModelResponse>): (k: nat)
    requires responses != []
    ensures IsFirstMax(responses, k)
  {
    var n := |responses| - 1;
    if n == 0 then 0
    else
      var k := FirstMax(responses[..n]);
      if responses[n].confidence > responses[k].confidence then n else k
  }

  /** `get_best_response`. */
  method GetBestResponse(responses: seq<ModelResponse>) returns (best: ModelResponse)
    ensures best == if responses == [] then ModelResponse("No response available", 0.0, "none")
                    else responses[FirstMax(responses)]
  {
    if responses == [] {
      return ModelResponse("No response available", 0.0, "none");
    }
    best := responses[0];
    ghost var k := 0;
    for i := 0 to |responses|
      invariant k < |responses| && (k < i || k == 0) && best == responses[k]
      invariant forall j :: 0 <= j < i ==> responses[j].confidence <= best.confidence
      invariant forall j :: 0 <= j < k ==> responses[j].confidence < best.confidence
    {
      if responses[i].confidence > best.confidence {
        best := responses[i];
        k := i;
      }
    }
    FirstMaxUnique(responses, k, FirstMax(responses));
  }
}
