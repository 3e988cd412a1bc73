/**
  Properties of the controller: how lookup, create and update fit together,
  the reconcile decision, convergence of the rule to the reading, idempotence
  of a repeated tick, and what a failed call does.
 */
module ControllerProperties {
  import opened Wrappers
  import opened Firewall
  import opened RulesApi
  import opened Controller

  /** The first managed rule in the listing exists and has the paused state `paused`. */
  predicate ConvergedTo(s: Store, paused: bool) {
    match FirstMatch(s)
    case None => false
    case Some(k) => EffectivePaused(s[k]) == paused
  }

  /** Every call of the tick succeeds. */
  predicate AllOk(http: Responses) {
    && Succeeded(http.lookup)
    && Succeeded(http.create.status)
    && Succeeded(http.relookup)
    && Succeeded(http.update)
  }

  lemma FirstMatchUnique(s: Store, k: int, k': int)
    requires IsFirstMatch(s, k) && IsFirstMatch(s, k')
    ensures k == k'
  {
  }

  /** The first match of the listing is the one FirstMatch finds. */
  lemma FirstMatchIs(s: Store, k: int)
    requires IsFirstMatch(s, k)
    ensures FirstMatch(s) == Some(k)
  {
    assert HasMatch(s);
    FirstMatchUnique(s, k, FirstMatch(s).value);
  }

  /** Appending rules to a listing that has a managed rule keeps its first match. */
  lemma AppendKeepsFirstMatch(s: Store, extra: Store)
    requires HasMatch(s)
    ensures FirstMatch(s + extra) == FirstMatch(s)
  {
    var k := FirstMatch(s).value;
    assert forall j :: 0 <= j <= k ==> (s + extra)[j] == s[j];
    FirstMatchIs(s + extra, k);
  }

  /**
    A failed listing is indistinguishable from a listing without the rule:
    the lookup yields nothing, keeps the remembered filter id, and the tick
    goes on to send the create request.
   */
  lemma FailedLookupIsNotFound(s: Store, filterId: Option<string>, cpu: real, http: Responses)
    requires !Succeeded(http.lookup)
    ensures GetRule(s, filterId, http.lookup) == GetRule([], filterId, StatusOk)
    ensures var t := Tick(s, filterId, cpu, http);
      |t.calls| >= 2 && t.calls[0] == Get && t.calls[1] == Post(CreateRequest())
  {
  }

  /**
    When the lookup yields nothing, the create request (for a paused rule)
    is the second call, before any update; an update, when one is issued,
    is the last call of the tick.
   */
  lemma CreatePrecedesUpdate(s: Store, filterId: Option<string>, cpu: real, http: Responses)
    requires !Succeeded(http.lookup) || !HasMatch(s)
    ensures var t := Tick(s, filterId, cpu, http);
      && |t.calls| >= 2
      && t.calls[1] == Post(CreateRequest())
      && t.calls[1].request.paused
      && (Updates(t.calls) != [] ==> |t.calls| == 4 && t.calls[..3] == [Get, Post(CreateRequest()), Get] && t.calls[3].Put?)
  {
  }

  /**
    Listing right after a successful create on a store without the rule finds
    the created rule: paused, with the fixed fields, and its filter id
    remembered.
   */
  lemma CreateThenLookup(s: Store, filterId: Option<string>, resp: CreateResponse)
    requires !HasMatch(s) && Succeeded(resp.status)
    ensures var c := CreateRule(s, filterId, resp);
      var l := GetRule(c.store, c.filterId, StatusOk);
      && l.rule == Some(c.store[|s|])
      && l.rule.value.id == resp.ruleId
      && Canonical(l.rule.value)
      && EffectivePaused(l.rule.value)
      && l.filterId == Some(resp.filterId)
  {
    var c := CreateRule(s, filterId, resp);
    assert forall j :: 0 <= j < |s| ==> c.store[j] == s[j];
    FirstMatchIs(c.store, |s|);
  }

  /**
    The enable and the disable request for a rule differ only in `paused`:
    both name the rule and the given filter id and carry the fixed action,
    description and filter.
   */
  lemma UpdateDirectionsDifferOnlyInPaused(ruleId: string, filterId: Option<string>)
    ensures UpdateRequest(ruleId, filterId, true) == UpdateRequest(ruleId, filterId, false).(paused := false)
    ensures forall enabled: bool :: UpdateRequest(ruleId, filterId, enabled).paused == !enabled
    ensures forall enabled: bool :: var req := UpdateRequest(ruleId, filterId, enabled);
      && req.id == Some(ruleId)
      && req.action == ChallengeAction
      && req.description == RuleName
      && req.filter == FilterRequest(filterId, FilterExpression, FilterDescription)
  {
  }

  /**
    On a rule already carrying the fixed fields, a successful update changes
    `paused` and nothing else; rules with another id are untouched.
   */
  lemma UpdateOnlyFlipsPaused(s: Store, filterId: Option<string>, ruleId: string, enabled: bool, status: int)
    requires Succeeded(status)
    ensures var u := UpdateRuleStatus(s, filterId, ruleId, enabled, status);
      forall i :: 0 <= i < |s| && Canonical(s[i]) ==>
        u.store[i] == s[i].(paused := if s[i].id == ruleId then Some(!enabled) else s[i].paused)
  {
  }

  /**
    The updates of a tick: an enable request is sent exactly when the reading
    is above the threshold and the rule is paused, a disable request exactly
    when it is not above and the rule is not paused, and nothing otherwise.
    The request names the reconciled rule and its own filter id.
   */
  lemma TickDecision(s: Store, filterId: Option<string>, cpu: real, http: Responses)
    ensures var e := EnsureRule(s, filterId, http);
      var t := Tick(s, filterId, cpu, http);
      && (e.rule.None? ==> Updates(t.calls) == [])
      && (e.rule.Some? ==>
            var rule := e.rule.value;
            && (IsHigh(cpu) && EffectivePaused(rule) ==>
                  Updates(t.calls) == [UpdateRequest(rule.id, Some(rule.filter.id), true)])
            && (!IsHigh(cpu) && !EffectivePaused(rule) ==>
                  Updates(t.calls) == [UpdateRequest(rule.id, Some(rule.filter.id), false)])
            && (EffectivePaused(rule) == DesiredPaused(cpu) ==> Updates(t.calls) == []))
  {
  }

  /** A reading exactly at the threshold never enables the rule. */
  lemma ThresholdReadingIsNotHigh(s: Store, filterId: Option<string>, http: Responses)
    ensures var t := Tick(s, filterId, CpuThreshold as real, http);
      forall i :: 0 <= i < |Updates(t.calls)| ==> Updates(t.calls)[i].paused
  {
  }

  /**
    A rule listed without `paused` counts as paused: a high reading enables
    it and a low reading sends nothing.
   */
  lemma MissingPausedCountsAsPaused(s: Store, filterId: Option<string>, cpu: real, http: Responses)
    requires EnsureRule(s, filterId, http).rule.Some?
    requires EnsureRule(s, filterId, http).rule.value.paused.None?
    ensures var rule := EnsureRule(s, filterId, http).rule.value;
      var t := Tick(s, filterId, cpu, http);
      && (IsHigh(cpu) ==> Updates(t.calls) == [UpdateRequest(rule.id, Some(rule.filter.id), true)])
      && (!IsHigh(cpu) ==> Updates(t.calls) == [])
  {
    TickDecision(s, filterId, cpu, http);
  }

  /**
    A failed update does not stop the loop and leaves the store and the
    remembered filter id as the lookup-or-create phase left them.
   */
  lemma FailedUpdateChangesNothing(s: Store, filterId: Option<string>, cpu: real, http: Responses)
    requires EnsureRule(s, filterId, http).rule.Some?
    requires !Succeeded(http.update)
    ensures var e := EnsureRule(s, filterId, http);
      var t := Tick(s, filterId, cpu, http);
      && t.outcome == Continue
      && t.store == e.store
      && t.filterId == e.filterId
      && (Succeeded(http.lookup) && HasMatch(s) ==> t.store == s)
  {
  }

  /**
    When the listing fails although the rule exists, a successful create
    adds a second rule with the managed description.
   */
  lemma FailedLookupDuplicatesRule(s: Store, filterId: Option<string>, cpu: real, http: Responses)
    requires HasMatch(s)
    requires !Succeeded(http.lookup) && Succeeded(http.create.status)
    ensures var t := Tick(s, filterId, cpu, http);
      exists i, j :: 0 <= i < j < |t.store| && Matches(t.store[i]) && Matches(t.store[j])
  {
    var t := Tick(s, filterId, cpu, http);
    var e := EnsureRule(s, filterId, http);
    var i :| 0 <= i < |s| && Matches(s[i]);
    var c := CreateRule(s, filterId, http.create);
    assert e.store == c.store;
    if e.rule.Some? {
      var rule := e.rule.value;
      match Decide(cpu, rule)
      case Keep =>
      case Enable =>
        assert t.store == UpdateRuleStatus(e.store, e.filterId, rule.id, true, http.update).store;
      case Disable =>
        assert t.store == UpdateRuleStatus(e.store, e.filterId, rule.id, false, http.update).store;
    }
    assert Matches(t.store[i]) && Matches(t.store[|s|]);
  }

  /** Applying a PUT for the first managed rule leaves a first managed rule with the PUT's paused value. */
  lemma PutSetsFirstMatchPaused(s: Store, k: int, req: RuleRequest)
    requires IsFirstMatch(s, k)
    requires req.id == Some(s[k].id) && req.description == RuleName
    ensures var s' := ApplyPut(s, req);
      FirstMatch(s').Some? && s'[FirstMatch(s').value].paused == Some(req.paused)
  {
    var s' := ApplyPut(s, req);
    assert Matches(s'[k]);
    var j := FirstMatch(s').value;
    assert j <= k;
    assert req.id == Some(s[j].id);
  }

  /**
    After a tick that did not stop and whose update (if any) succeeded, the
    first managed rule is paused exactly when the reading is not high.
   */
  lemma TickConverges(s: Store, filterId: Option<string>, cpu: real, http: Responses)
    requires Tick(s, filterId, cpu, http).outcome == Continue
    requires Updates(Tick(s, filterId, cpu, http).calls) == [] || Succeeded(http.update)
    ensures ConvergedTo(Tick(s, filterId, cpu, http).store, DesiredPaused(cpu))
  {
    var e := EnsureRule(s, filterId, http);
    var t := Tick(s, filterId, cpu, http);
    var rule := e.rule.value;
    var k :| IsFirstMatch(e.store, k) && rule == e.store[k];
    FirstMatchIs(e.store, k);
    match Decide(cpu, rule)
    case Keep =>
      assert t.store == e.store;
    case Enable =>
      var req := UpdateRequest(rule.id, e.filterId, true);
      assert t.store == ApplyPut(e.store, req);
      PutSetsFirstMatchPaused(e.store, k, req);
    case Disable =>
      var req := UpdateRequest(rule.id, e.filterId, false);
      assert t.store == ApplyPut(e.store, req);
      PutSetsFirstMatchPaused(e.store, k, req);
  }

  /**
    Idempotence: once the first managed rule agrees with a reading, a tick
    with a reading on the same side of the threshold sends no update, whatever
    the statuses; when its lookup succeeds it leaves the store unchanged and
    remembers the filter id of that first managed rule.
   */
  lemma ConvergedTickIssuesNoUpdate(s: Store, filterId: Option<string>, prev: real, cpu: real, http: Responses)
    requires ConvergedTo(s, DesiredPaused(prev))
    requires IsHigh(prev) == IsHigh(cpu)
    ensures var t := Tick(s, filterId, cpu, http);
      && Updates(t.calls) == []
      && (Succeeded(http.lookup) ==>
            t.store == s && t.outcome == Continue && t.filterId == Some(s[FirstMatch(s).value].filter.id))
  {
    var k := FirstMatch(s).value;
    var e := EnsureRule(s, filterId, http);
    if e.rule.Some? {
      var k' :| IsFirstMatch(e.store, k') && e.rule.value == e.store[k'];
      if Succeeded(http.lookup) {
        assert e.store == s;
      } else {
        var c := CreateRule(s, filterId, http.create);
        assert e.store == c.store == s + [c.store[|s|]];
        AppendKeepsFirstMatch(s, [c.store[|s|]]);
      }
      FirstMatchIs(e.store, k');
      assert e.rule.value == s[k];
      TickDecision(s, filterId, cpu, http);
    }
  }

  /**
    From a converged store, a tick whose calls all succeed continues, leaves
    the store converged to the new reading, and sends an update exactly when
    the reading crossed the threshold.
   */
  lemma ConvergedTickTracksCrossing(s: Store, filterId: Option<string>, prev: real, cpu: real, http: Responses)
    requires ConvergedTo(s, DesiredPaused(prev))
    requires AllOk(http)
    ensures var t := Tick(s, filterId, cpu, http);
      && t.outcome == Continue
      && ConvergedTo(t.store, DesiredPaused(cpu))
      && (Updates(t.calls) != [] <==> IsHigh(cpu) != IsHigh(prev))
  {
    var e := EnsureRule(s, filterId, http);
    var k' :| IsFirstMatch(e.store, k') && e.rule.value == e.store[k'];
    assert e.store == s;
    FirstMatchIs(s, k');
    TickDecision(s, filterId, cpu, http);
    TickConverges(s, filterId, cpu, http);
  }

  /** A tick whose calls all succeed never stops and leaves the store converged. */
  lemma AllOkTickConverges(s: Store, filterId: Option<string>, cpu: real, http: Responses)
    requires AllOk(http)
    ensures var t := Tick(s, filterId, cpu, http);
      t.outcome == Continue && ConvergedTo(t.store, DesiredPaused(cpu))
  {
    TickConverges(s, filterId, cpu, http);
  }

  /** One step of the loop: a tick that continues is followed by the run over the remaining readings. */
  lemma RunStep(s: Store, filterId: Option<string>, readings: seq<Reading>)
    requires |readings| > 0
    requires Tick(s, filterId, readings[0].cpu, readings[0].http).outcome == Continue
    ensures var t := Tick(s, filterId, readings[0].cpu, readings[0].http);
      var rest := Run(t.store, t.filterId, readings[1..]);
      Run(s, filterId, readings) == RunResult(rest.store, rest.filterId, [t.calls] + rest.trace, rest.stopped)
  {
  }

  /** The reading before position `i`, with `prev` before the first one. */
  function Previous(prev: real, readings: seq<Reading>, i: nat): real
    requires i < |readings|
  {
    if i == 0 then prev else readings[i - 1].cpu
  }

  /** Tick `i` of `trace` sent an update exactly when reading `i` crossed the threshold. */
  predicate TracksCrossings(trace: seq<seq<Call>>, prev: real, readings: seq<Reading>) {
    && |trace| == |readings|
    && forall i :: 0 <= i < |readings| ==> UpdatedIffCrossed(trace[i], readings[i].cpu, Previous(prev, readings, i))
  }

  /** The calls of one tick hold an update exactly when `cpu` and `before` lie on different sides of the threshold. */
  predicate UpdatedIffCrossed(calls: seq<Call>, cpu: real, before: real) {
    Updates(calls) != [] <==> IsHigh(cpu) != IsHigh(before)
  }

  lemma TracksCrossingsCons(first: seq<Call>, trace: seq<seq<Call>>, prev: real, readings: seq<Reading>)
    requires |readings| > 0
    requires UpdatedIffCrossed(first, readings[0].cpu, prev)
    requires TracksCrossings(trace, readings[0].cpu, readings[1..])
    ensures TracksCrossings([first] + trace, prev, readings)
  {
    var rest := readings[1..];
    var all := [first] + trace;
    forall i | 0 <= i < |readings|
      ensures UpdatedIffCrossed(all[i], readings[i].cpu, Previous(prev, readings, i))
    {
      if i > 0 {
        assert all[i] == trace[i - 1];
        assert rest[i - 1] == readings[i];
        assert Previous(readings[0].cpu, rest, i - 1) == Previous(prev, readings, i);
        assert UpdatedIffCrossed(trace[i - 1], rest[i - 1].cpu, Previous(readings[0].cpu, rest, i - 1));
      }
    }
  }

  lemma {:induction false} RunFromConverged(s: Store, filterId: Option<string>, prev: real, readings: seq<Reading>)
    requires ConvergedTo(s, DesiredPaused(prev))
    requires forall i :: 0 <= i < |readings| ==> AllOk(readings[i].http)
    ensures var r := Run(s, filterId, readings);
      && !r.stopped
      && TracksCrossings(r.trace, prev, readings)
      && ConvergedTo(r.store, DesiredPaused(if |readings| == 0 then prev else readings[|readings| - 1].cpu))
    decreases |readings|
  {
    if |readings| > 0 {
      var t := Tick(s, filterId, readings[0].cpu, readings[0].http);
      ConvergedTickTracksCrossing(s, filterId, prev, readings[0].cpu, readings[0].http);
      var rest := readings[1..];
      assert forall i :: 0 <= i < |rest| ==> rest[i] == readings[i + 1];
      RunFromConverged(t.store, t.filterId, readings[0].cpu, rest);
      RunStep(s, filterId, readings);
      var rr := Run(t.store, t.filterId, rest);
      TracksCrossingsCons(t.calls, rr.trace, prev, readings);
      if |rest| > 0 {
        assert rest[|rest| - 1] == readings[|readings| - 1];
      }
    }
  }

  /**
    Over readings whose calls all succeed, the loop never stops, every tick
    after the first sends an update exactly when the reading crossed the
    threshold since the previous tick, and the rule ends up matching the last
    reading.
   */
  lemma AllOkRunUpdatesOnCrossings(s: Store, filterId: Option<string>, readings: seq<Reading>)
    requires |readings| >= 1
    requires forall i :: 0 <= i < |readings| ==> AllOk(readings[i].http)
    ensures var r := Run(s, filterId, readings);
      && !r.stopped
      && |r.trace| == |readings|
      && (forall i :: 1 <= i < |readings| ==>
            (Updates(r.trace[i]) != [] <==> IsHigh(readings[i].cpu) != IsHigh(readings[i - 1].cpu)))
      && ConvergedTo(r.store, DesiredPaused(readings[|readings| - 1].cpu))
  {
    var t := Tick(s, filterId, readings[0].cpu, readings[0].http);
    AllOkTickConverges(s, filterId, readings[0].cpu, readings[0].http);
    var rest := readings[1..];
    assert forall i :: 0 <= i < |rest| ==> rest[i] == readings[i + 1];
    RunFromConverged(t.store, t.filterId, readings[0].cpu, rest);
    RunStep(s, filterId, readings);
    var rr := Run(t.store, t.filterId, rest);
    CrossingsAfterFirst([t.calls] + rr.trace, t.calls, rr.trace, readings);
    if |rest| > 0 {
      assert rest[|rest| - 1] == readings[|readings| - 1];
    }
  }

  lemma CrossingsAfterFirst(trace: seq<seq<Call>>, first: seq<Call>, tail: seq<seq<Call>>, readings: seq<Reading>)
    requires |readings| > 0 && trace == [first] + tail
    requires TracksCrossings(tail, readings[0].cpu, readings[1..])
    ensures |trace| == |readings|
    ensures forall i :: 1 <= i < |readings| ==>
      (Updates(trace[i]) != [] <==> IsHigh(readings[i].cpu) != IsHigh(readings[i - 1].cpu))
  {
    var rest := readings[1..];
    forall i | 1 <= i < |readings|
      ensures Updates(trace[i]) != [] <==> IsHigh(readings[i].cpu) != IsHigh(readings[i - 1].cpu)
    {
      assert trace[i] == tail[i - 1];
      assert rest[i - 1] == readings[i];
      assert Previous(readings[0].cpu, rest, i - 1) == readings[i - 1].cpu;
      assert UpdatedIffCrossed(tail[i - 1], rest[i - 1].cpu, Previous(readings[0].cpu, rest, i - 1));
    }
  }
}
