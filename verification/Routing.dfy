/** Parallel chat end to end: winner selection, attribution to an instance, and the single
    fallback hop for a winner below its confidence threshold. */
module Routing {
  import opened Common
  import opened Parallel

  datatype Candidate = Candidate(instanceName: string, response: ModelResponse)

  datatype TraceEvent =
    | Selection(candidates: nat, instance: string, confidence: real)
    | FellBack(eventType: string, threshold: real, instance: string)

  datatype ChatResult = ChatResult(
    selectedInstance: string, selected: ModelResponse, fallbackUsed: bool, fallbackInstance: string,
    candidates: seq<Candidate>, trace: seq<TraceEvent>)

  /** The routing columns of a catalog row. */
  datatype Route = Route(threshold: real, fallback: string)

  /** Catalog lookups, model loading, chat with an explicit prompt, and the server defaults. */
  datatype Router<!M> = Router(
    route: string -> Option<Route>, load: string -> Option<M>, chat: (M, string) -> ModelResponse,
    defaultThreshold: real, defaultFallback: Option<string>)
  {
    function Asking(prompt: string): Pool<M> {
      Pool(load, (m: M) => chat(m, prompt))
    }
  }

  datatype Options = Options(threshold: Option<real>, fallback: Option<string>)

  datatype Error = InstanceNotFound(name: string) | NoResponses

  // ---------- Selection ----------

  /** Response `i` is attributed to the `i`-th of all requested names. */
  function Attributed(names: seq<string>, responses: seq<ModelResponse>, i: nat): string
    requires i < |responses|
  {
    if i < |names| then names[i] else responses[i].modelName
  }

  function CandidatesFor(names: seq<string>, responses: seq<ModelResponse>): seq<Candidate> {
    seq(|responses|, i requires 0 <= i < |responses| => Candidate(Attributed(names, responses, i), responses[i]))
  }

  function Selected(names: seq<string>, responses: seq<ModelResponse>, k: nat): ChatResult
    requires k < |responses|
  {
    var instance := Attributed(names, responses, k);
    ChatResult(instance, responses[k], false, "", CandidatesFor(names, responses),
               [Selection(|responses|, instance, responses[k].confidence)])
  }

  /** The selection loop of `execute_parallel_chat_internal`; it picks the response that
      `get_best_response` would. */
  method SelectWinner(names: seq<string>, responses: seq<ModelResponse>) returns (result: ChatResult)
    requires responses != [] && names != []
    ensures result == Selected(names, responses, FirstMax(responses))
    ensures |result.candidates| == |responses|
    ensures forall i :: 0 <= i < |responses| ==>
              result.candidates[i] == Candidate(if i < |names| then names[i] else responses[i].modelName, responses[i])
    ensures exists k: nat :: IsFirstMax(responses, k)
              && result.selected == responses[k] && result.selectedInstance == result.candidates[k].instanceName
  {
    var best, bestInstance := responses[0], names[0];
    var candidates := [];
    ghost var k := 0;
    for i := 0 to |responses|
      invariant k < |responses| && (k < i || k == 0) && best == responses[k] && bestInstance == Attributed(names, responses, k)
      invariant candidates == CandidatesFor(names, responses)[..i]
      invariant forall j :: 0 <= j < i ==> responses[j].confidence <= best.confidence
      invariant forall j :: 0 <= j < k ==> responses[j].confidence < best.confidence
    {
      var instance := if i < |names| then names[i] else responses[i].modelName;
      candidates := candidates + [Candidate(instance, responses[i])];
      if responses[i].confidence > best.confidence {
        best := responses[i];
        bestInstance := instance;
        k := i;
      }
    }
    FirstMaxUnique(responses, k, FirstMax(responses));
    result := ChatResult(bestInstance, best, false, "", candidates,
                         [Selection(|responses|, bestInstance, best.confidence)]);
  }

  // ---------- Attribution ----------

  ghost predicate Distinct(names: seq<string>) {
    forall i, j :: 0 <= i < j < |names| ==> names[i] != names[j]
  }

  /** Position in `names` of the model that produced response `i`. */
  function Producer<M>(pool: Pool<M>, names: seq<string>, i: nat): (p: nat)
    requires i < |LoadableNames(pool, names)|
    ensures i <= p < |names| && names[p] == LoadableNames(pool, names)[i]
  {
    if pool.load(names[0]).Some? then
      if i == 0 then 0 else 1 + Producer(pool, names[1..], i - 1)
    else 1 + Producer(pool, names[1..], i)
  }

  predicate AllLoadUpTo<M>(pool: Pool<M>, names: seq<string>, p: nat)
    requires p < |names|
  {
    forall j :: 0 <= j <= p ==> pool.load(names[j]).Some?
  }

  lemma AllLoadCons<M>(pool: Pool<M>, names: seq<string>, p: nat)
    requires 1 + p < |names|
    ensures AllLoadUpTo(pool, names, 1 + p) <==> pool.load(names[0]).Some? && AllLoadUpTo(pool, names[1..], p)
  {
    var rest := names[1..];
    assert forall j :: 0 <= j < |rest| ==> rest[j] == names[j + 1];
    assert forall j :: 0 < j < |names| ==> names[j] == rest[j - 1];
  }

  /** With distinct names, response `i` is attributed to the model that produced it exactly when
      no name up to that model fails to load. */
  lemma {:induction false} AttributionIff<M>(pool: Pool<M>, names: seq<string>, i: nat)
    requires Distinct(names) && i < |LoadableNames(pool, names)|
    ensures names[i] == LoadableNames(pool, names)[i] <==> AllLoadUpTo(pool, names, Producer(pool, names, i))
    decreases |names|
  {
    var rest := names[1..];
    if pool.load(names[0]).None? {
      var p := Producer(pool, names, i);
      assert p > i && names[p] == LoadableNames(pool, names)[i];
      assert !AllLoadUpTo(pool, names, p) by { assert pool.load(names[0]).None?; }
    } else if i > 0 {
      AttributionIff(pool, rest, i - 1);
      AllLoadCons(pool, names, Producer(pool, rest, i - 1));
      assert LoadableNames(pool, names)[i] == LoadableNames(pool, rest)[i - 1];
    }
  }

  lemma {:induction false} AllLoad<M>(pool: Pool<M>, names: seq<string>)
    requires forall name :: name in names ==> pool.load(name).Some?
    ensures LoadableNames(pool, names) == names
  {
    if names != [] {
      AllLoad(pool, names[1..]);
    }
  }

  // ---------- Fallback ----------

  /** Request option over a positive model value over the server default. */
  function EffectiveThreshold<M>(router: Router<M>, options: Options, route: Route): (threshold: real)
    ensures options.threshold in {None, Some(threshold)}
    ensures options.threshold.None? ==> threshold in {route.threshold, router.defaultThreshold}
    ensures options.threshold.None? && threshold != route.threshold ==> route.threshold <= 0.0
    ensures options.threshold.None? && threshold != router.defaultThreshold ==> route.threshold > 0.0
  {
    if options.threshold.Some? then options.threshold.value
    else if route.threshold > 0.0 then route.threshold
    else router.defaultThreshold
  }

  /** Request option, even an empty one, over the model's fallback over the server default. */
  function ResolvedFallback<M>(router: Router<M>, options: Options, route: Route): (name: string)
    ensures options.fallback in {None, Some(name)}
    ensures options.fallback.None? && route.fallback != "" ==> name == route.fallback
    ensures name == "" ==> options.fallback == Some("") || (route.fallback == "" && router.defaultFallback in {None, Some("")})
    ensures name == "" || options.fallback == Some(name) || route.fallback == name || router.defaultFallback == Some(name)
  {
    if options.fallback.Some? then options.fallback.value
    else if route.fallback == "" && router.defaultFallback.Some? then router.defaultFallback.value
    else route.fallback
  }

  /** The fallback model is asked about the response it replaces, not about the prompt. */
  function MaybeApplyFallback<M>(router: Router<M>, input: ChatResult, options: Options, eventType: string): Result<ChatResult, Error> {
    match router.route(input.selectedInstance)
    case None => Err(InstanceNotFound(input.selectedInstance))
    case Some(route) =>
      var threshold := EffectiveThreshold(router, options, route);
      var fallback := ResolvedFallback(router, options, route);
      if input.selected.confidence >= threshold || fallback == "" || fallback == input.selectedInstance then Ok(input)
      else match router.load(fallback)
        case None => Err(InstanceNotFound(fallback))
        case Some(model) =>
          Ok(input.(fallbackUsed := true, fallbackInstance := fallback, selectedInstance := fallback,
                    selected := router.chat(model, input.selected.response),
                    trace := input.trace + [FellBack(eventType, threshold, fallback)]))
  }

  /** What parallel chat returns, given the responses of the sequential pass. */
  function ParallelChat<M>(router: Router<M>, prompt: string, names: seq<string>, options: Options): Result<ChatResult, Error> {
    var responses := Responses(router.Asking(prompt), names);
    if responses == [] then Err(NoResponses)
    else MaybeApplyFallback(router, Selected(names, responses, FirstMax(responses)), options, "parallel_chat")
  }

  method ExecuteParallelChat<M>(router: Router<M>, prompt: string, names: seq<string>, options: Options)
    returns (result: Result<ChatResult, Error>)
    ensures result == ParallelChat(router, prompt, names, options)
  {
    var responses := ParallelInference(router.Asking(prompt), names);
    if responses == [] { return Err(NoResponses); }
    var selected := SelectWinner(names, responses);
    result := MaybeApplyFallback(router, selected, options, "parallel_chat");
  }

  lemma {:induction false} AttributedWhenAllLoad<M>(router: Router<M>, prompt: string, names: seq<string>)
    requires forall name :: name in names ==> router.load(name).Some?
    ensures var responses := Responses(router.Asking(prompt), names);
            && |responses| == |names|
            && forall i :: 0 <= i < |names| ==>
                 && responses[i] == router.chat(router.load(names[i]).value, prompt)
                 && CandidatesFor(names, responses)[i] == Candidate(names[i], responses[i])
  {
    AllLoad(router.Asking(prompt), names);
  }

  lemma {:induction false} LoadableIff<M>(pool: Pool<M>, names: seq<string>)
    ensures LoadableNames(pool, names) != [] <==> exists name :: name in names && pool.load(name).Some?
  {
    if names != [] {
      LoadableIff(pool, names[1..]);
      assert names == [names[0]] + names[1..];
    }
  }

  lemma AllBelowIff(responses: seq<ModelResponse>, threshold: real)
    requires responses != []
    ensures (forall i :: 0 <= i < |responses| ==> responses[i].confidence < threshold)
       <==> responses[FirstMax(responses)].confidence < threshold
  {
  }

  function FallbackOf<M>(router: Router<M>, options: Options, winner: string): string
    requires router.route(winner).Some?
  {
    ResolvedFallback(router, options, router.route(winner).value)
  }

  /** The winner has a catalog row, every candidate is below its threshold, and a fallback other
      than the winner is configured. */
  ghost predicate WantsFallback<M>(router: Router<M>, responses: seq<ModelResponse>, options: Options, winner: string) {
    && router.route(winner).Some?
    && (forall i :: 0 <= i < |responses| ==>
          responses[i].confidence < EffectiveThreshold(router, options, router.route(winner).value))
    && FallbackOf(router, options, winner) !in {"", winner}
  }

  /** Response `k` is the answer, under the name at its index. */
  ghost predicate AnswersWith(names: seq<string>, responses: seq<ModelResponse>, k: nat, result: ChatResult) {
    && k < |responses| <= |names|
    && result.selectedInstance == names[k] && result.selected == responses[k]
    && !result.fallbackUsed && result.fallbackInstance == ""
    && result.trace == [Selection(|responses|, names[k], responses[k].confidence)]
  }

  /** The fallback of the name at index `k` has been asked about response `k` and is the answer;
      the selection event stays and one event is added. */
  ghost predicate HopsFrom<M>(router: Router<M>, names: seq<string>, responses: seq<ModelResponse>, k: nat, options: Options, result: ChatResult) {
    && k < |responses| <= |names| && router.route(names[k]).Some?
    && var name := FallbackOf(router, options, names[k]);
       var threshold := EffectiveThreshold(router, options, router.route(names[k]).value);
       && router.load(name).Some?
       && result.selectedInstance == name && result.selected == router.chat(router.load(name).value, responses[k].response)
       && result.fallbackUsed && result.fallbackInstance == name
       && result.trace == [Selection(|responses|, names[k], responses[k].confidence), FellBack("parallel_chat", threshold, name)]
  }

  /** Every response is a candidate, in order, under the name at its index. */
  ghost predicate ListsCandidates(names: seq<string>, responses: seq<ModelResponse>, candidates: seq<Candidate>) {
    && |candidates| == |responses| <= |names|
    && forall i :: 0 <= i < |responses| ==> candidates[i] == Candidate(names[i], responses[i])
  }

  /** The best candidate decides for all of them. */
  lemma WantsFallbackIff<M>(router: Router<M>, responses: seq<ModelResponse>, options: Options, winner: string)
    requires responses != [] && router.route(winner).Some?
    ensures var threshold := EffectiveThreshold(router, options, router.route(winner).value);
            WantsFallback(router, responses, options, winner)
            <==> responses[FirstMax(responses)].confidence < threshold && FallbackOf(router, options, winner) !in {"", winner}
  {
    AllBelowIff(responses, EffectiveThreshold(router, options, router.route(winner).value));
  }

  /** The branches of the fallback step after a selection, `wants` being the negation of its
      guard. */
  lemma FallbackDecision<M>(router: Router<M>, names: seq<string>, responses: seq<ModelResponse>, k: nat, options: Options, wants: bool)
    requires k < |responses| <= |names| && router.route(names[k]).Some?
    requires wants <==> responses[k].confidence < EffectiveThreshold(router, options, router.route(names[k]).value)
                        && FallbackOf(router, options, names[k]) !in {"", names[k]}
    ensures var result := MaybeApplyFallback(router, Selected(names, responses, k), options, "parallel_chat");
            && (result.Err? <==> wants && router.load(FallbackOf(router, options, names[k])).None?)
            && (result.Err? ==> result.error == InstanceNotFound(FallbackOf(router, options, names[k])))
            && (result.Ok? ==> ListsCandidates(names, responses, result.value.candidates))
            && (result.Ok? && !wants ==> AnswersWith(names, responses, k, result.value))
            && (result.Ok? && wants ==> HopsFrom(router, names, responses, k, options, result.value))
  {
    var before := Selected(names, responses, k);
    assert before.trace == [Selection(|responses|, names[k], responses[k].confidence)];
    assert ListsCandidates(names, responses, before.candidates);
  }

  /** Parallel chat for every list of names, loadable or not. It fails exactly when no name loads,
      or the name at the index of the first best response has no catalog row, or that name wants a
      fallback that does not load. Otherwise every response is a candidate, and the answer is the
      first best response itself, or, exactly when every candidate is below that name's threshold
      and a different fallback is configured, what the fallback says about it; then once, whatever
      its own confidence. */
  lemma {:induction false} RoutingEndToEnd<M>(router: Router<M>, prompt: string, names: seq<string>, options: Options, k: nat)
    requires IsFirstMax(Responses(router.Asking(prompt), names), k)
    ensures var responses, result := Responses(router.Asking(prompt), names), ParallelChat(router, prompt, names, options);
            && |responses| <= |names|
            && (result.Err? <==>
                  || router.route(names[k]).None?
                  || (WantsFallback(router, responses, options, names[k])
                      && router.load(FallbackOf(router, options, names[k])).None?))
            && (result.Err? ==>
                  result.error == InstanceNotFound(if router.route(names[k]).None? then names[k] else FallbackOf(router, options, names[k])))
            && (result.Ok? ==>
                  && ListsCandidates(names, responses, result.value.candidates)
                  && (result.value.fallbackUsed <==> WantsFallback(router, responses, options, names[k]))
                  && (if result.value.fallbackUsed then HopsFrom(router, names, responses, k, options, result.value)
                      else AnswersWith(names, responses, k, result.value)))
  {
    var responses := Responses(router.Asking(prompt), names);
    FirstMaxUnique(responses, FirstMax(responses), k);
    if router.route(names[k]).Some? {
      WantsFallbackIff(router, responses, options, names[k]);
      FallbackDecision(router, names, responses, k, options, WantsFallback(router, responses, options, names[k]));
    }
  }

  /** The remaining case: parallel chat complains about missing responses exactly when no name
      loads. */
  lemma NoResponsesIff<M>(router: Router<M>, prompt: string, names: seq<string>, options: Options)
    ensures ParallelChat(router, prompt, names, options) == Err(NoResponses)
       <==> forall name :: name in names ==> router.load(name).None?
  {
    LoadableIff(router.Asking(prompt), names);
  }

  /** The condition met by a call that fails although a model answered: the only model that
      answers stands behind a name that is not in the catalog. */
  lemma UnknownNameFirstFails<M>(router: Router<M>, prompt: string, unknown: string, known: string, options: Options)
    requires router.load(unknown).None? && router.route(unknown).None? && router.load(known).Some?
    ensures var names := [unknown, known];
            && Responses(router.Asking(prompt), names) == [router.chat(router.load(known).value, prompt)]
            && ParallelChat(router, prompt, names, options) == Err(InstanceNotFound(unknown))
  {
    var pool := router.Asking(prompt);
    assert [unknown, known][1..] == [known];
    assert [known][1..] == [];
    assert LoadableNames(pool, [known]) == [known];
    assert LoadableNames(pool, [unknown, known]) == [known];
    RoutingEndToEnd(router, prompt, [unknown, known], options, 0);
  }
}
