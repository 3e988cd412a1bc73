/**
  The three calls the controller makes to the rules endpoint: list (GET),
  create (POST) and update (PUT). Each call's response is reduced to its
  status code (plus, for a create, the ids the service assigned), and the
  remote store is changed only by a call that succeeded. The remembered
  filter id, process-wide state in the script, is passed in and returned.
 */
module RulesApi {
  import opened Wrappers
  import opened Firewall

  /** What a lookup returns: the rule found, and the remembered filter id afterwards. */
  datatype Lookup = Lookup(rule: Option<Rule>, filterId: Option<string>)

  /** Position of the first rule, in listing order, whose description is the rule name. */
  function FirstMatch(s: Store): (k: Option<nat>)
    ensures k.Some? ==> IsFirstMatch(s, k.value)
    ensures k.None? <==> !HasMatch(s)
  {
    if |s| == 0 then None
    else if Matches(s[0]) then Some(0)
    else
      match FirstMatch(s[1..])
      case None =>
        assert forall i :: 1 <= i < |s| ==> s[i] == s[1..][i - 1];
        None
      case Some(k) =>
        assert forall j :: 1 <= j < k + 1 ==> s[j] == s[1..][j - 1];
        Some(k + 1)
  }

  /**
    List the rules and take the first whose description is the rule name.
    A failed listing is reported exactly like a listing without a match.
   */
  function GetRule(s: Store, filterId: Option<string>, status: int): (l: Lookup)
    ensures !Succeeded(status) ==> l == Lookup(None, filterId)
    ensures Succeeded(status) ==> (l.rule.Some? <==> HasMatch(s))
    ensures l.rule.Some? ==> exists k :: IsFirstMatch(s, k) && l.rule.value == s[k]
    ensures l.rule.Some? ==> l.filterId == Some(l.rule.value.filter.id)
    ensures l.rule.None? ==> l.filterId == filterId
  {
    if !Succeeded(status) then Lookup(None, filterId)
    else
      match FirstMatch(s)
      case None => Lookup(None, filterId)
      case Some(k) => Lookup(Some(s[k]), Some(s[k].filter.id))
  }

  /** The response to a POST: its status and the ids the service assigned. */
  datatype CreateResponse = CreateResponse(status: int, ruleId: string, filterId: string)

  /** What a create returns: success, the store afterwards, the remembered filter id. */
  datatype Created = Created(ok: bool, store: Store, filterId: Option<string>)

  /** The body of the create request: a paused challenge rule with the fixed filter. */
  function CreateRequest(): (req: RuleRequest)
    ensures req.id == None && req.filter.id == None
    ensures req.paused
    ensures req.action == ChallengeAction && req.description == RuleName
    ensures req.filter.expression == FilterExpression && req.filter.description == FilterDescription
  {
    RuleRequest(None, true, ChallengeAction, RuleName,
                FilterRequest(None, FilterExpression, FilterDescription))
  }

  /** The rule the service stores for a POSTed body, under the ids it assigns. */
  function Stored(req: RuleRequest, ruleId: string, filterId: string): Rule {
    Rule(ruleId, Some(req.description), Some(req.paused), req.action,
         Filter(filterId, req.filter.expression, req.filter.description))
  }

  /**
    Create the managed rule in a paused state. On success the new rule joins
    the end of the listing and its filter id becomes the remembered one.
   */
  function CreateRule(s: Store, filterId: Option<string>, resp: CreateResponse): (c: Created)
    ensures c.ok <==> Succeeded(resp.status)
    ensures !c.ok ==> c.store == s && c.filterId == filterId
    ensures c.ok ==> |c.store| == |s| + 1 && c.store[..|s|] == s
    ensures c.ok ==> c.store[|s|].id == resp.ruleId && Canonical(c.store[|s|])
    ensures c.ok ==> c.store[|s|].paused == Some(true)
    ensures c.ok ==> c.store[|s|].filter.id == resp.filterId && c.filterId == Some(resp.filterId)
  {
    if Succeeded(resp.status) then
      var rule := Stored(CreateRequest(), resp.ruleId, resp.filterId);
      Created(true, s + [rule], Some(rule.filter.id))
    else
      Created(false, s, filterId)
  }

  /**
    The body of an update: it names the rule and the remembered filter id,
    sets `paused` to the opposite of `enabled`, and re-asserts the action,
    the description and the filter's expression and description.
   */
  function UpdateRequest(ruleId: string, filterId: Option<string>, enabled: bool): (req: RuleRequest)
    ensures req.id == Some(ruleId) && req.filter.id == filterId
    ensures req.paused == !enabled
    ensures req.action == ChallengeAction && req.description == RuleName
    ensures req.filter.expression == FilterExpression && req.filter.description == FilterDescription
  {
    RuleRequest(Some(ruleId), !enabled, ChallengeAction, RuleName,
                FilterRequest(filterId, FilterExpression, FilterDescription))
  }

  /** A rule after the service applied a PUT body to it; the filter keeps its id. */
  function Reassert(r: Rule, req: RuleRequest): Rule {
    r.(paused := Some(req.paused),
       action := req.action,
       description := Some(req.description),
       filter := r.filter.(expression := req.filter.expression,
                           description := req.filter.description))
  }

  /** The store after a successful PUT: every rule carrying the body's id is rewritten. */
  function ApplyPut(s: Store, req: RuleRequest): (s': Store)
    ensures |s'| == |s|
    ensures forall i :: 0 <= i < |s| && req.id != Some(s[i].id) ==> s'[i] == s[i]
    ensures forall i :: 0 <= i < |s| && req.id == Some(s[i].id) ==>
      && s'[i].id == s[i].id
      && s'[i].paused == Some(req.paused)
      && s'[i].filter.id == s[i].filter.id
  {
    seq(|s|, i requires 0 <= i < |s| =>
      if req.id == Some(s[i].id) then Reassert(s[i], req) else s[i])
  }

  /** What an update returns: success, the body sent, and the store afterwards. */
  datatype Updated = Updated(ok: bool, request: RuleRequest, store: Store)

  /**
    Enable or disable the rule `ruleId`. On success every rule with that id is
    paused exactly when `enabled` is false and carries the fixed fields; on
    failure the store is unchanged.
   */
  function UpdateRuleStatus(s: Store, filterId: Option<string>, ruleId: string, enabled: bool, status: int): (u: Updated)
    ensures u.ok <==> Succeeded(status)
    ensures !u.ok ==> u.store == s
    ensures u.ok ==> |u.store| == |s|
    ensures u.ok ==> forall i :: 0 <= i < |s| && s[i].id != ruleId ==> u.store[i] == s[i]
    ensures u.ok ==> forall i :: 0 <= i < |s| && s[i].id == ruleId ==>
      && u.store[i].id == ruleId
      && u.store[i].paused == Some(!enabled)
      && Canonical(u.store[i])
  {
    var req := UpdateRequest(ruleId, filterId, enabled);
    if Succeeded(status) then Updated(true, req, ApplyPut(s, req))
    else Updated(false, req, s)
  }
}
