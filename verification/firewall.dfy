/**
  The data the CPU monitor works on: the firewall rules held by the remote
  edge-security service, the request bodies it sends, and the configuration
  constants that take part in its decisions.
 */
module Firewall {
  import opened Wrappers

  /** Description that identifies the managed rule (RULE_NAME). */
  const RuleName: string := "ForceChallenge"

  /** CPU percentage above which the rule must be active (CPU_THRESHOLD). */
  const CpuThreshold: int := 70

  /** Action, match expression and filter description every request re-asserts. */
  const ChallengeAction: string := "challenge"
  const FilterExpression: string := "(http.request.uri contains \"/\")"
  const FilterDescription: string := "ForceChallenge rule"

  /** The only HTTP status the controller treats as success. */
  const StatusOk: int := 200

  datatype Filter = Filter(id: string, expression: string, description: string)

  /**
    A rule as the listing endpoint returns it. The listing may omit
    `description` or `paused`; `id` and `filter.id` are always present.
   */
  datatype Rule = Rule(
    id: string,
    description: Option<string>,
    paused: Option<bool>,
    action: string,
    filter: Filter)

  /** The service's rule listing, in the order the listing endpoint returns it. */
  type Store = seq<Rule>

  /**
    The body of a POST (no rule id, no filter id) or of a PUT (the rule id
    and the remembered filter id, which may still be unset).
   */
  datatype FilterRequest = FilterRequest(id: Option<string>, expression: string, description: string)

  datatype RuleRequest = RuleRequest(
    id: Option<string>,
    paused: bool,
    action: string,
    description: string,
    filter: FilterRequest)

  predicate Succeeded(status: int) {
    status == StatusOk
  }

  /** The rule the controller manages is recognised by its description alone. */
  predicate Matches(r: Rule) {
    r.description == Some(RuleName)
  }

  predicate HasMatch(s: Store) {
    exists i :: 0 <= i < |s| && Matches(s[i])
  }

  /** `k` is the position of the first managed rule in listing order. */
  predicate IsFirstMatch(s: Store, k: int) {
    && 0 <= k < |s|
    && Matches(s[k])
    && forall j :: 0 <= j < k ==> !Matches(s[j])
  }

  /** A rule whose listing omits `paused` counts as paused. */
  function EffectivePaused(r: Rule): bool {
    r.paused.GetOr(true)
  }

  /** The comparison with the threshold is strict: a reading at the threshold is not high. */
  predicate IsHigh(cpu: real) {
    cpu > CpuThreshold as real
  }

  /** The paused state the rule should have for a given reading. */
  function DesiredPaused(cpu: real): bool {
    !IsHigh(cpu)
  }

  /** The rule fields a request re-asserts hold their fixed values. */
  predicate Canonical(r: Rule) {
    && Matches(r)
    && r.action == ChallengeAction
    && r.filter.expression == FilterExpression
    && r.filter.description == FilterDescription
  }
}
