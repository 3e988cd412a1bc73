/**
  Concrete runs of one tick with a threshold of 70 %: the calls issued for
  a paused rule under high load, an active rule under normal load, an empty
  store under high load, and a failed listing.
 */
module Scenarios {
  import opened Wrappers
  import opened Firewall
  import opened RulesApi
  import opened Controller

  const ManagedFilter: Filter := Filter("f1", FilterExpression, FilterDescription)

  /** The managed rule as the listing returns it, with the given paused flag. */
  function Managed(paused: bool): Rule {
    Rule("r1", Some(RuleName), Some(paused), ChallengeAction, ManagedFilter)
  }

  /** An unrelated rule listed before the managed one. */
  const Other: Rule := Rule("r0", Some("OtherRule"), Some(false), "block", Filter("f0", "ip.src eq 1.2.3.4", ""))

  /** Every call succeeds; a create would receive ids r2 and f2. */
  const AllSucceed: Responses := Responses(200, CreateResponse(200, "r2", "f2"), 200, 200)

  /** CPU at 85 % with the rule paused: one enable request, and the rule ends up active. */
  lemma HighLoadEnablesPausedRule()
    ensures var t := Tick([Other, Managed(true)], None, 85.0, AllSucceed);
      && t.calls == [Get, Put(UpdateRequest("r1", Some("f1"), true))]
      && t.calls[1].request.paused == false
      && t.store == [Other, Managed(false)]
      && t.filterId == Some("f1")
  {
    var s := [Other, Managed(true)];
    assert FirstMatch(s[1..]) == Some(0);
    assert FirstMatch(s) == Some(1);
    var e := EnsureRule(s, None, AllSucceed);
    assert e == Ensured(Some(Managed(true)), s, Some("f1"), [Get], Continue);
    assert Decide(85.0, Managed(true)) == Enable;
  }

  /** CPU at 40 % with the rule active: one disable request, and the rule ends up paused. */
  lemma NormalLoadDisablesActiveRule()
    ensures var t := Tick([Other, Managed(false)], None, 40.0, AllSucceed);
      && t.calls == [Get, Put(UpdateRequest("r1", Some("f1"), false))]
      && t.calls[1].request.paused == true
      && t.store == [Other, Managed(true)]
  {
    var s := [Other, Managed(false)];
    assert FirstMatch(s[1..]) == Some(0);
    assert FirstMatch(s) == Some(1);
    var e := EnsureRule(s, None, AllSucceed);
    assert e == Ensured(Some(Managed(false)), s, Some("f1"), [Get], Continue);
    assert Decide(40.0, Managed(false)) == Disable;
  }

  /** CPU at exactly 70 % with the rule paused: nothing is sent. */
  lemma ThresholdLoadKeepsPausedRule()
    ensures var t := Tick([Managed(true)], None, 70.0, AllSucceed);
      t.calls == [Get] && t.store == [Managed(true)] && t.outcome == Continue
  {
  }

  /** CPU at 90 % and no rule: create a paused rule, list again, then enable it. */
  lemma HighLoadOnEmptyStoreCreatesThenEnables()
    ensures var t := Tick([], None, 90.0, AllSucceed);
      && t.calls == [Get, Post(CreateRequest()), Get, Put(UpdateRequest("r2", Some("f2"), true))]
      && t.calls[1].request.paused == true
      && t.store == [Rule("r2", Some(RuleName), Some(false), ChallengeAction, Filter("f2", FilterExpression, FilterDescription))]
      && t.filterId == Some("f2")
  {
  }

  /**
    A failed listing is not the end of the tick: the create request is sent,
    and with the rule already present a duplicate is stored while the update
    goes to the earlier rule.
   */
  lemma FailedListingStillCreates()
    ensures var http := AllSucceed.(lookup := 503);
      var t := Tick([Managed(true)], None, 90.0, http);
      && t.calls == [Get, Post(CreateRequest()), Get, Put(UpdateRequest("r1", Some("f1"), true))]
      && |t.store| == 2 && Matches(t.store[0]) && Matches(t.store[1])
  {
  }

  /** A failed create stops the loop after the listing and the create request. */
  lemma FailedCreateStops()
    ensures var http := AllSucceed.(create := CreateResponse(500, "", ""));
      var t := Tick([], Some("f0"), 90.0, http);
      t.calls == [Get, Post(CreateRequest())] && t.outcome == Stop(CreateFailed) && t.store == [] && t.filterId == Some("f0")
  {
  }
}
