# CPU-driven firewall rule controller — Dafny model

This project models the control loop of `script.py`: a host monitor that
reads the local CPU utilisation and keeps one firewall rule on a remote
edge-security service ("ForceChallenge", action `challenge`) active while
the CPU is above 70 % and paused otherwise.

One iteration of the loop (a *tick*) is the pure function `Controller.Tick`:

1. **Lookup** (`RulesApi.GetRule`): list the rules and take the first, in
   listing order, whose description is the rule name. A listing with a
   status other than 200 yields nothing, exactly like a listing without the
   rule. A match updates the remembered filter id.
2. **Create if missing** (`RulesApi.CreateRule`, `Controller.EnsureRule`):
   when the lookup yields nothing, send a create request for a paused rule
   with the fixed filter, then list again. The loop stops when the create
   fails or the second lookup still yields nothing.
3. **Reconcile** (`Controller.Decide`, `RulesApi.UpdateRuleStatus`): a
   reading strictly above the threshold with a paused rule sends an enable
   request; a reading at or below it with an active rule sends a disable
   request; otherwise nothing is sent. A rule listed without `paused` counts
   as paused. The update body re-asserts the action, description and filter
   and differs between the two directions only in `paused`. A failed update
   does not stop the loop.

Modules:

- `Wrappers` (`wrappers.dfy`): `Option`, for fields a listing may omit.
- `Firewall` (`firewall.dfy`): rules, the store (the service's listing, a
  sequence in listing order), request bodies, the constants `RULE_NAME`,
  `CPU_THRESHOLD`, the fixed action/expression/filter description, and the
  predicates every other module uses (`Matches`, `EffectivePaused`,
  `IsHigh`, `DesiredPaused`).
- `RulesApi` (`rules_api.dfy`): `get_rule`, `create_rule`,
  `update_rule_status`. Each HTTP response is reduced to its status code
  (plus, for a create, the rule id and filter id the service assigns). The
  process-wide `filter_id` is passed in and returned.
- `Controller` (`controller.dfy`): the decision, one tick (`Tick`), and
  `Run`, the loop over a finite list of readings, which ends early when a
  tick stops. Each tick records the HTTP requests it issued, in order.
- `ControllerProperties` (`properties.dfy`): lemmas on lookup/create
  round-trips, the decision, convergence, idempotence and failure handling.
- `Scenarios` (`scenarios.dfy`): concrete ticks at 85 %, 40 %, 70 % and
  90 % load, and with a failed listing or a failed create.

The remote service's side of each call is an abstraction: a failed call
changes nothing; a successful create appends the stored rule to the end of
the listing; a successful update rewrites `paused`, action, description and
the filter's expression and description of every rule carrying the body's
rule id, keeping the filter's id (the model proves the body's filter id is
that rule's own); a successful listing shows every stored rule, including
one created just before it.

Two behaviours of the code deserve a note:

- A failed listing is not an error. `get_rule` returns `None` for any
  non-200 status, exactly as for a missing rule (`script.py:26-36`), so the
  tick goes on to create the rule (`script.py:94-97`).
  `FailedLookupIsNotFound` states this, and `FailedLookupDuplicatesRule`
  shows its consequence: when the rule already exists, a successful create
  leaves two rules with the managed description, although `script.py:8`
  asks for the name to be unique.
- `filter_id` lives for the whole process (`script.py:19-20`); the model
  threads it through every tick.

## Model

| member | source | states |
|---|---|---|
| RulesApi.FirstMatch | script.py:28-34 | the position found holds the first rule in listing order whose description is the rule name; no position exactly when no rule has that description |
| RulesApi.GetRule | script.py:22-36 | a non-200 listing yields no rule and keeps the remembered filter id; a 200 listing yields a rule iff some rule has the rule name, that rule is the first such, and its filter id becomes the remembered one |
| RulesApi.CreateRule | script.py:38-60 | succeeds iff the status is 200; on success the store gains exactly one rule at the end, paused, with action challenge, the rule name and the fixed filter, under the assigned ids, and the remembered filter id becomes the new filter id; on failure store and filter id are unchanged |
| RulesApi.CreateRequest | script.py:41-51 | the create body names no rule or filter id and asks for a paused challenge rule with the rule name, the fixed expression and the fixed filter description; CreateThenLookup shows the rule it stores is found by the next listing |
| RulesApi.UpdateRequest | script.py:66-78 | the update body names the rule and the remembered filter id, asks for paused exactly when not enabled, and carries the fixed action, description, expression and filter description; UpdateDirectionsDifferOnlyInPaused shows the two directions differ only in paused |
| RulesApi.UpdateRuleStatus | script.py:62-84 | succeeds iff the status is 200; on failure the store is unchanged; on success rules with another id are unchanged and each rule with the given id is paused exactly when not enabled and carries the fixed action, description and filter |
| Controller.EnsureRule | script.py:93-104 | a successful listing with the rule hands on the store unchanged after the single listing call; otherwise the second call is the create request, a failed create stops the tick with store and filter id unchanged, and a successful one hands on the store with the paused created rule appended after listing, create and listing again; the tick stops iff the lookup yields nothing and the create or the second lookup fails; when it goes on, the rule handed on is the first managed rule of that store and the remembered filter id is that rule's; no update is sent |
| Controller.Decide | script.py:106-127 | keeps the rule iff its effective paused state (absent counts as paused) already equals "not above the threshold"; enables iff it is paused and the reading is strictly above; disables iff it is active and the reading is not above |
| Controller.Reconcile | script.py:110-125 | sends exactly one update, for the given rule, direction and remembered filter id, and continues the loop; a failed update leaves the store unchanged, a successful one sets the rule's paused to the opposite of the direction |
| Controller.Tick | script.py:86-127 | at most one update per tick, none when the tick stops, and any update asks for the paused state the reading calls for |
| Controller.Run | script.py:88-104 | the loop runs one tick per reading, in order, and runs them all unless a tick stops; a tick that stops (failed create, or the re-listing after the create failed) is the last one |
| ControllerProperties.FailedLookupIsNotFound | script.py:94-97 | a failed listing gives the same lookup result as a successful listing of an empty store, and the tick's second call is the create request |
| ControllerProperties.CreatePrecedesUpdate | script.py:95-113 | when the lookup yields nothing, the second call is the create request for a paused rule, and any update is the fourth and last call, after listing, create and listing again |
| ControllerProperties.CreateThenLookup | script.py:41-58 | listing right after a successful create on a store without the rule finds the created rule, paused, with its assigned id and the fixed fields, and remembers its filter id |
| ControllerProperties.UpdateDirectionsDifferOnlyInPaused | script.py:66-78 | the enable and disable bodies for a rule are equal except for `paused`, which is the negation of the requested state; both name the rule and filter id and carry the fixed action, description, expression and filter description |
| ControllerProperties.UpdateOnlyFlipsPaused | script.py:66-80 | on rules that already carry the fixed fields, a successful update changes only `paused` of the rules with the given id and nothing else |
| ControllerProperties.TickDecision | script.py:106-127 | an enable request is sent when the reading is above the threshold and the reconciled rule is paused, a disable request when it is not above and the rule is active, none when the rule is already in the desired state or no rule was obtained; the request names the rule and its own filter id |
| ControllerProperties.ThresholdReadingIsNotHigh | script.py:110 | a reading exactly at the threshold never sends an enable request |
| ControllerProperties.MissingPausedCountsAsPaused | script.py:107-127 | a rule listed without `paused` is enabled by a high reading and left alone by a low one |
| ControllerProperties.FailedUpdateChangesNothing | script.py:113-125 | a failed update does not stop the loop and leaves the store and the remembered filter id as the lookup-or-create phase left them |
| ControllerProperties.FailedLookupDuplicatesRule | script.py:94-97 | a failed listing on a store that holds the rule, followed by a successful create, leaves two rules with the managed description |
| ControllerProperties.TickConverges | script.py:106-127 | after a tick that did not stop and either sent no update or had its update succeed, the first managed rule is paused exactly when the reading is not above the threshold |
| ControllerProperties.ConvergedTickIssuesNoUpdate | script.py:106-127 | once the first managed rule agrees with a reading, a tick with a reading on the same side of the threshold sends no update whatever the statuses; with a successful listing it leaves the store unchanged and remembers that rule's filter id |
| ControllerProperties.ConvergedTickTracksCrossing | script.py:106-127 | from an agreeing store, a tick whose calls all succeed continues, leaves the store agreeing with the new reading, and sends an update iff the reading crossed the threshold |
| ControllerProperties.AllOkTickConverges | script.py:93-127 | a tick whose calls all succeed, from any store, continues and leaves the first managed rule agreeing with the reading |
| Scenarios.HighLoadEnablesPausedRule | script.py:110-113 | at 85 % with the rule paused, the tick lists, sends one update with `paused` false and the rule's own filter id, and the rule becomes active while an unrelated rule is untouched |
| Scenarios.NormalLoadDisablesActiveRule | script.py:119-122 | at 40 % with the rule active, the tick lists, sends one update with `paused` true, and the rule becomes paused |
| Scenarios.ThresholdLoadKeepsPausedRule | script.py:110-127 | at exactly 70 % with the rule paused, the tick only lists |
| Scenarios.HighLoadOnEmptyStoreCreatesThenEnables | script.py:94-113 | at 90 % with no rule, the tick lists, creates a paused rule, lists again and enables the created rule, remembering its filter id |
| Scenarios.FailedListingStillCreates | script.py:94-113 | a failed listing with the rule present still sends the create request; the store then holds two managed rules and the update goes to the earlier one |
| Scenarios.FailedCreateStops | script.py:97-99 | a failed create stops the loop after the listing and the create request, leaving the store and the remembered filter id unchanged |
| ControllerProperties.AllOkRunUpdatesOnCrossings | script.py:88-131 | over readings whose calls all succeed, the loop never stops, every tick after the first sends an update iff the reading crossed the threshold since the previous one, and the rule ends up agreeing with the last reading |

## Left out

- HTTP transport, headers, JSON encoding and decoding (`script.py:13-17`, `25`, `52`, `79`): each call is reduced to its status code, and the service's reaction is the abstract store effect described above.
- Exceptions raised on malformed responses: a listed rule without `id` or `filter.id`, or a create response with an empty `result`, would raise and end the process; the model assumes these fields are present.
- A `paused` field present with a JSON null or a non-boolean value: Python's truthiness would treat null as active; the model distinguishes only absent, true and false.
- CPU sampling with `psutil.cpu_percent` (`script.py:90`): the reading is a `real` input, and only its comparison with the threshold is modelled.
- `time.sleep`, the endless `while True` loop and the `KeyboardInterrupt` handler (`script.py:88`, `131`, `133-137`): `Run` iterates ticks over a finite list of readings.
- Logging with `print`, and the constants `API_TOKEN`, `ZONE_ID`, `CHECK_INTERVAL` and `RULES_ENDPOINT`, which do not affect any decision.
- ControllerProperties.ConvergedTickIssuesNoUpdate: its no-update claim for a tick whose listing fails rests on the model's assumption that the service lists a newly created rule after the existing ones; `script.py` fixes no listing order, and with the new rule listed first the re-lookup would reconcile the new paused rule instead. With a successful listing the claim does not depend on this.
- Scenarios.FailedListingStillCreates: that the update goes to the earlier rule rests on the same assumption that a created rule is listed last.
- ControllerProperties.AllOkTickConverges: "continues" rests on the model's assumption that a successful listing shows every stored rule, including one created a moment earlier; `script.py:101-104` guards against a successful re-listing that still lacks the new rule, and in the model that exit happens only when the re-listing fails.
- ControllerProperties.AllOkRunUpdatesOnCrossings: "never stops" rests on the same assumption that a successful listing shows a rule created just before.
- HTTP calls that raise instead of returning a status (connection or DNS failure, `script.py:25`, `52`, `79`): the exception propagates out of `check_and_manage_rule` and ends the process, since only `KeyboardInterrupt` is caught (`script.py:134-137`); the model treats every call as returning a status, so such a failure is not represented, and a failed listing always goes on to create.
- Calls that never return: the requests carry no timeout, so a hung call blocks the loop forever; the model has every call complete.
- Controller.Run: its contract states only how many ticks run and when the run ends early; what each tick does is stated by the lemmas on `Tick` and by `AllOkRunUpdatesOnCrossings`.
