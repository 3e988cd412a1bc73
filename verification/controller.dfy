/**
  One iteration of the monitoring loop, as a pure function: look the managed
  rule up, create it when the lookup yields nothing, then issue at most one
  update that moves its paused flag to what the CPU reading calls for. The
  CPU sample and every HTTP status are inputs; the sleep between iterations
  is not modelled, and `Run` iterates ticks over a finite list of readings.
 */
module Controller {
  import opened Wrappers
  import opened Firewall
  import opened RulesApi

  /** An HTTP request the tick issued, in order. */
  datatype Call = Get | Post(request: RuleRequest) | Put(request: RuleRequest)

  /** The statuses of the calls a tick may make, and the ids a create would receive. */
  datatype Responses = Responses(lookup: int, create: CreateResponse, relookup: int, update: int)

  /** Why the loop stops: the create failed, or the re-listing after the create failed. */
  datatype StopReason = CreateFailed | NotFoundAfterCreate

  datatype Outcome = Continue | Stop(reason: StopReason)

  /** The state after the lookup-or-create phase of a tick. */
  datatype Ensured = Ensured(rule: Option<Rule>, store: Store, filterId: Option<string>, calls: seq<Call>, outcome: Outcome)

  datatype TickResult = TickResult(store: Store, filterId: Option<string>, calls: seq<Call>, outcome: Outcome)

  datatype Decision = Keep | Enable | Disable

  /** The update requests among `calls`, in order. */
  function Updates(calls: seq<Call>): seq<RuleRequest> {
    if |calls| == 0 then []
    else (if calls[0].Put? then [calls[0].request] else []) + Updates(calls[1..])
  }

  /** Whether any create request is among `calls`. */
  predicate HasPost(calls: seq<Call>) {
    exists i :: 0 <= i < |calls| && calls[i].Post?
  }

  /** The reconcile rule: compare the reading with the threshold, then the paused flag. */
  function Decide(cpu: real, rule: Rule): (d: Decision)
    ensures d == Keep <==> EffectivePaused(rule) == DesiredPaused(cpu)
    ensures d == Enable <==> EffectivePaused(rule) && !DesiredPaused(cpu)
    ensures d == Disable <==> !EffectivePaused(rule) && DesiredPaused(cpu)
  {
    if IsHigh(cpu) then
      if EffectivePaused(rule) then Enable else Keep
    else
      if !EffectivePaused(rule) then Disable else Keep
  }

  /**
    Find the managed rule; when the lookup yields nothing, create it and list
    again. The tick stops when the create fails or the second lookup yields
    nothing.
   */
  function EnsureRule(s: Store, filterId: Option<string>, http: Responses): (e: Ensured)
    ensures e.rule.Some? <==> e.outcome == Continue
    ensures e.outcome.Stop? <==>
      (!Succeeded(http.lookup) || !HasMatch(s)) && (!Succeeded(http.create.status) || !Succeeded(http.relookup))
    ensures e.outcome == Stop(CreateFailed) <==>
      (!Succeeded(http.lookup) || !HasMatch(s)) && !Succeeded(http.create.status)
    ensures e.rule.Some? ==> exists k :: IsFirstMatch(e.store, k) && e.rule.value == e.store[k]
    ensures e.rule.Some? ==> e.filterId == Some(e.rule.value.filter.id)
    ensures |e.calls| >= 1 && e.calls[0] == Get && Updates(e.calls) == []
    ensures Succeeded(http.lookup) && HasMatch(s) ==> e.store == s && e.calls == [Get]
    ensures e.outcome == Stop(CreateFailed) ==>
      e.store == s && e.filterId == filterId && e.calls == [Get, Post(CreateRequest())]
    ensures (!Succeeded(http.lookup) || !HasMatch(s)) && Succeeded(http.create.status) ==>
      && e.store == s + [Stored(CreateRequest(), http.create.ruleId, http.create.filterId)]
      && e.calls == [Get, Post(CreateRequest()), Get]
  {
    var found := GetRule(s, filterId, http.lookup);
    if found.rule.Some? then
      Ensured(found.rule, s, found.filterId, [Get], Continue)
    else
      var c := CreateRule(s, found.filterId, http.create);
      if !c.ok then
        NoPutNoUpdates([Get, Post(CreateRequest())]);
        Ensured(None, c.store, c.filterId, [Get, Post(CreateRequest())], Stop(CreateFailed))
      else
        assert Matches(c.store[|s|]);
        var again := GetRule(c.store, c.filterId, http.relookup);
        var calls := [Get, Post(CreateRequest()), Get];
        NoPutNoUpdates(calls);
        if again.rule.None? then
          Ensured(None, c.store, again.filterId, calls, Stop(NotFoundAfterCreate))
        else
          Ensured(again.rule, c.store, again.filterId, calls, Continue)
  }

  /**
    One iteration of the loop for the reading `cpu`. It issues at most one
    update, only when the tick did not stop, and that update asks for the
    paused state the reading calls for.
   */
  function Tick(s: Store, filterId: Option<string>, cpu: real, http: Responses): (t: TickResult)
    ensures t.outcome == EnsureRule(s, filterId, http).outcome
    ensures |Updates(t.calls)| <= 1
    ensures t.outcome.Stop? ==> Updates(t.calls) == []
    ensures forall i :: 0 <= i < |Updates(t.calls)| ==> Updates(t.calls)[i].paused == DesiredPaused(cpu)
  {
    var e := EnsureRule(s, filterId, http);
    match e.rule
    case None => TickResult(e.store, e.filterId, e.calls, e.outcome)
    case Some(rule) =>
      match Decide(cpu, rule)
      case Keep => TickResult(e.store, e.filterId, e.calls, Continue)
      case Enable => Reconcile(e, rule.id, true, http.update)
      case Disable => Reconcile(e, rule.id, false, http.update)
  }

  /** Send the update and record it after the calls of the lookup-or-create phase. */
  function Reconcile(e: Ensured, ruleId: string, enabled: bool, status: int): (t: TickResult)
    requires Updates(e.calls) == []
    ensures Updates(t.calls) == [UpdateRequest(ruleId, e.filterId, enabled)]
    ensures t.outcome == Continue && t.filterId == e.filterId
    ensures !Succeeded(status) ==> t.store == e.store
    ensures Succeeded(status) ==> |t.store| == |e.store|
    ensures Succeeded(status) ==> forall i :: 0 <= i < |e.store| ==>
      if e.store[i].id == ruleId then t.store[i].paused == Some(!enabled) && Canonical(t.store[i])
      else t.store[i] == e.store[i]
  {
    var u := UpdateRuleStatus(e.store, e.filterId, ruleId, enabled, status);
    UpdatesAppend(e.calls, [Put(u.request)]);
    assert Updates([Put(u.request)]) == [u.request];
    TickResult(u.store, e.filterId, e.calls + [Put(u.request)], Continue)
  }

  lemma {:induction false} UpdatesAppend(a: seq<Call>, b: seq<Call>)
    ensures Updates(a + b) == Updates(a) + Updates(b)
    decreases |a|
  {
    if |a| == 0 {
      assert a + b == b;
    } else {
      var head := if a[0].Put? then [a[0].request] else [];
      assert (a + b)[0] == a[0];
      assert (a + b)[1..] == a[1..] + b;
      UpdatesAppend(a[1..], b);
      assert Updates(a + b) == head + Updates(a[1..] + b);
      assert Updates(a) == head + Updates(a[1..]);
    }
  }

  /** A call list without PUT requests holds no updates. */
  lemma {:induction false} NoPutNoUpdates(calls: seq<Call>)
    requires forall i :: 0 <= i < |calls| ==> !calls[i].Put?
    ensures Updates(calls) == []
    decreases |calls|
  {
    if |calls| > 0 {
      NoPutNoUpdates(calls[1..]);
    }
  }

  /** The inputs of one iteration: the CPU reading and the HTTP statuses. */
  datatype Reading = Reading(cpu: real, http: Responses)

  /** The state after a run, the calls of each tick, and whether the loop stopped. */
  datatype RunResult = RunResult(store: Store, filterId: Option<string>, trace: seq<seq<Call>>, stopped: bool)

  /** The loop over a finite list of readings; it ends early when a tick stops. */
  function Run(s: Store, filterId: Option<string>, readings: seq<Reading>): (r: RunResult)
    ensures |r.trace| <= |readings|
    ensures !r.stopped ==> |r.trace| == |readings|
    ensures r.stopped ==> |r.trace| >= 1
    ensures |readings| > 0 ==> r.trace[0] == Tick(s, filterId, readings[0].cpu, readings[0].http).calls
    ensures |readings| > 0 && Tick(s, filterId, readings[0].cpu, readings[0].http).outcome.Stop? ==>
      r.stopped && |r.trace| == 1
    decreases |readings|
  {
    if |readings| == 0 then RunResult(s, filterId, [], false)
    else
      var t := Tick(s, filterId, readings[0].cpu, readings[0].http);
      if t.outcome.Stop? then RunResult(t.store, t.filterId, [t.calls], true)
      else
        var rest := Run(t.store, t.filterId, readings[1..]);
        RunResult(rest.store, rest.filterId, [t.calls] + rest.trace, rest.stopped)
  }
}
