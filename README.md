# Vanity role rule — a Dafny model

The vanity bot gives a Discord member a configured role while the member's
activity (its "custom status" or game name) shows one of the server's vanity
strings, and takes the role away again when it stops showing it. The decision is
made by `handle_presence_update` in `vanity.py` whenever a member's presence
changes. This project models that handler and proves what it does.

- `substring.dfy` (module `Substring`) models Python's `needle in haystack` on
  `str`: case-sensitive containment of a contiguous run of characters. It is
  proved equal to "some start position matches".
- `vanity.dfy` (module `Vanity`) models the handler as the method
  `HandlePresenceUpdate`. The method takes the before and after snapshots
  (status and optional activity name), the vanity list and two failure inputs.
  It returns the ordered trace of the role calls and log calls that complete
  (the role fetch itself is not recorded):
  - `AddRole` or `RemoveRole` on the member;
  - `Log(Assigned | Removed, activity)` for each log entry.

  Its loop is proved equal to the function `Outcome`. `Outcome` flattens
  `Plan`, the list-ordered sequence of per-vanity decisions (`Decide`), into
  call/log pairs, and cuts it short at a failing role call. The other lemmas
  state the rule's properties against `Outcome`:
  - the offline guard;
  - the per-vanity decision table;
  - each role call followed at once by the right log entry;
  - the three activity-presence cases, counted per vanity with duplicates included;
  - the failure paths;
  - the role membership that results. `RoleHeld` folds the trace over "member holds the role".

The handler decides for each vanity on its own. It does not take one decision
per event on "some vanity matches", so one event can both grant and revoke
the role. The model follows the code, and the consequence is recorded under
"## Findings".

The failures are inputs:
- `roleFound = false` stands for `fetch_role` raising (line 56). No role call and
  no log entry come after it.
- `failingCall = Some(k)` stands for role call number `k` (counting from 0)
  raising. That call is made, but it raises instead of completing. It is not
  recorded in the trace, its effect on the member's role is taken not to have
  happened, and no later call is made.

Both exceptions are caught by the handler's own `except` (lines 91-93), so the
handler always returns normally. The log routine `send_role_assigned_embed`
catches its own exceptions (lines 8, 25-27). A log entry is therefore an issued
call whether or not delivery succeeds, and never cuts the trace short.

## Model

| member | source | states |
|---|---|---|
| Substring.ContainsIffOccurs | vanity.py:64 | `Contains(v, s)`, the model of `v in s`, holds exactly when `v` occupies some contiguous positions `i .. i+|v|` of `s`; the empty string is in every string |
| Vanity.DecideTable | vanity.py:61-89 | for one vanity: a Grant exactly when the new activity contains it and the old one is absent or does not; a Revoke exactly when the old activity contains it and the new one is absent or does not; so nothing when both contain it, neither does, or both activities are absent; a Grant carries the new name, a Revoke the old one |
| Vanity.HandlePresenceUpdate | vanity.py:45-93 | the handler's trace (offline guard, role fetch, loop over the vanities in order, abort on a failing role call) equals `Outcome` of its inputs |
| Vanity.OfflineIgnored | vanity.py:50-52 | if either status is offline the trace is empty, whatever the activities, vanities or failures |
| Vanity.RoleFetchFailureIgnored | vanity.py:54-56 | when fetching the role raises, no role call and no log entry is made, and the handler returns normally (the except at lines 91-93) |
| Vanity.FailureTruncates | vanity.py:61-93 | when role call `k` raises, the trace is a prefix of the undisturbed trace with exactly `min(k, number of decided actions)` call/log pairs |
| Vanity.PlanFits | vanity.py:65-89 | every decided action quotes the right activity: a Grant the after name, a Revoke the before name |
| Vanity.EffectsAt | vanity.py:65-89 | action `j` becomes call `2j` (its add or remove) followed immediately by call `2j+1` (its log entry) |
| Vanity.EffectsPaired | vanity.py:65-89 | a trace built from fitting actions consists wholly of pairs: add then "Assigned" with the after name, or remove then "Removed" with the before name |
| Vanity.OutcomePaired | vanity.py:65-89 | every trace of the handler, including a truncated one, pairs each role call with its own log entry as above |
| Vanity.OutcomeBounded | vanity.py:61-89 | each vanity contributes at most one role call and one log entry, so the trace has at most `2·|vanities|` calls |
| Vanity.PlanConcat | vanity.py:61 | the decisions for a concatenated vanity list are the decisions for the first part followed by those for the second |
| Vanity.PlanSplit | vanity.py:61-89 | the action for vanity `i` (if any) comes after the actions of all earlier vanities and before those of all later ones |
| Vanity.NoActivityNoEffects | vanity.py:61-89 | with both activities absent, no branch fires and the trace is empty |
| Vanity.ArrivalGrants | vanity.py:63-68 | activity appears: the plan is exactly one Grant of the new name per vanity it contains, with duplicates counted, and no Revoke |
| Vanity.DepartureRevokes | vanity.py:84-89 | activity disappears: the plan is exactly one Revoke of the old name per vanity it contained, with duplicates counted, and no Grant |
| Vanity.StableMatchNoEffects | vanity.py:71-81 | switching between two activities that each vanity either matches in both or in neither produces no role call |
| Vanity.RoleHeldAfterEffects | vanity.py:65-86 | after carrying out a list of actions the member holds the role exactly when the last one is a Grant; with no action the membership is unchanged |
| Vanity.ArrivalHoldsRole | vanity.py:63-68 | when an activity appears, the member ends holding the role exactly when it held it already or the activity contains some vanity |
| Vanity.DepartureDropsRole | vanity.py:84-89 | when an activity disappears, the member ends holding the role exactly when it held it and the old activity contained no vanity |
| Vanity.Description | vanity.py:66-89 | the log description starts with the member's mention and ends with the activity name the entry is for, and is longer than both together |
| Vanity.DescriptionTellsAction | vanity.py:66-89 | the texts for an assignment ("has been assigned the role") and for a removal ("has been removed from the role") differ for the same activity, member and role |
| Vanity.DescriptionNamesRole | vanity.py:66-89 | the log description of either kind contains the role's name |
| Vanity.CountInMatches | vanity.py:61-64 | the number of vanities contained in a name is positive exactly when some vanity is contained in it, tying the per-vanity count to "some vanity matches" |
| Vanity.PresenceCasesKeepRoleInStep | vanity.py:63-89 | when an activity appears or disappears, a member who held the role exactly when the old activity matched a vanity ends holding it exactly when the new activity matches one |
| Vanity.OrderDecidesRole | vanity.py:61-89 | switching activity `x` to `y` (neither contained in the other) with vanities `[y, x]` grants for `y` and then revokes for `x`, so the member ends without the role although the new activity matches a vanity; with `[x, y]` it ends with the role |
| Vanity.IntendedDecision | vanity.py:61-89 | one decision per event on "some vanity matches" before and after; a Grant carries the after name and a Revoke the before name |
| Vanity.IntendedKeepsRoleInStep | vanity.py:61-89 | under the one-decision rule a member holding the role exactly when the old activity matched ends holding it exactly when the new one matches, making at most one role call, whatever the vanity order |

## Left out

- Discord objects are abstract. A member's presence is a `Snapshot` of status and optional activity name. `mention` and the role's name enter only as strings given to `Description`; the guild and the role lookup enter only through `roleFound`.
- An activity is modelled as always having a string name. An activity whose `name` is `None` would make `vanity_url in name` raise a `TypeError`, which the handler's `except` would swallow. That case is not modelled.
- Rendering and delivery of the log embed are left out: title, colour, author, fields, timestamp, channel lookup and sending (vanity.py:7-27). A log entry is modelled as the issued call `Log(action, activity)`. Its text is `Description`.
- A role call that raises is modelled as not completing. The trace leaves it out, and `RoleHeld` treats the member's role as unchanged by it. Whether Discord applied the change before the error reached the bot is not modelled.
- Vanity.Description: the trace's `Log` entries carry only the action and the activity name. The description text is a separate function of the action, the member's mention and the role name. It is not carried on the trace.
- The debugging `print` (line 59) and the `print`/`traceback` lines in the except clauses are left out.
- Concurrency is left out. Async scheduling, overlapping handlers and Discord's own rate limits or retries are not modelled; each role call either succeeds or raises, as the `failingCall` input says.
- The role membership is folded from the trace (`RoleHeld`). The Discord server's actual state is not modelled. For instance, removing a role the member does not hold is simply a call.
- These are not part of this model: `handle_ready`, the chat commands (`ping_command`, `info_command`, `server_info`, `say`, `say_error`), the random commands (`flip`, `roll`, `eight_ball`), and all of `main.py` (configuration loading, bot construction, event registration, `bot.run`). All of them are I/O or library wiring.

## Findings

| source | as written | input that shows it | evidently intended | confidence | as-written member | corrected member |
|---|---|---|---|---|---|---|
| vanity.py:61-89 | each vanity is judged on its own, so a later vanity's Revoke can undo an earlier vanity's Grant within one event | vanities `["gg/b", "gg/a"]`, activity changes from `"gg/a"` to `"gg/b"`: the role is added for `gg/b`, then removed for `gg/a`, and the member ends without the role while showing a vanity | the member holds the role exactly when its current activity shows some vanity, whatever the order of the vanity list | medium, not executed | Vanity.OrderDecidesRole | Vanity.IntendedKeepsRoleInStep |
