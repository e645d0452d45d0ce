/**
 The presence-to-role rule of the vanity bot (`handle_presence_update`).

 A presence update carries a member's status and activity before and after the
 change. Unless either status is offline, the handler fetches the configured
 role and walks the configured vanity strings in order; for each one it may
 issue one role call (add or remove) on the member, followed by a log entry
 ("Assigned" with the new activity name, "Removed" with the old one). Any
 exception from the role fetch or a role call ends the handler quietly.

 The handler is modelled as a method that returns the ordered trace of the
 role calls and log calls that complete (the role fetch itself is not
 recorded). The trace is specified by `Outcome`, a function built from the
 per-vanity decision `Decide`; the lemmas below state what the source promises
 about that trace and about the role membership it leaves behind.
 */
module Vanity {
  import opened Substring

  datatype Option<T> = None | Some(value: T)

  /** A member's overall status, as the gateway reports it. */
  datatype Status = Online | Idle | DoNotDisturb | Invisible | Offline

  /** What one side of a presence update shows: status and activity name, if any. */
  datatype Snapshot = Snapshot(status: Status, activity: Option<string>)

  /** The `action` argument given to the log routine. */
  datatype LogAction = Assigned | Removed

  /** One completed role call or log call of the handler, in the order it is
      issued (the role fetch itself is not recorded). */
  datatype Effect =
    | AddRole                                   // member.add_roles(role)
    | RemoveRole                                // member.remove_roles(role)
    | Log(action: LogAction, activity: string)  // log entry naming the activity that caused the change

  /** A role change decided for one vanity, with the activity name to log. */
  datatype Action = Grant(activity: string) | Revoke(activity: string)

  /** The snapshot an action's activity name is taken from: a Grant quotes the
      new activity, a Revoke the old one. */
  predicate Fits(a: Action, before: Option<string>, after: Option<string>)
  {
    match a
    case Grant(name) => after == Some(name)
    case Revoke(name) => before == Some(name)
  }

  /** The decision of one loop iteration for `vanity`: its three branches on
      which activities are present, and the containment tests inside them. */
  function Decide(before: Option<string>, after: Option<string>, vanity: string): Option<Action>
  {
    if before.None? && after.Some? then
      if Contains(vanity, after.value) then Some(Grant(after.value)) else None
    else if before.Some? && after.Some? then
      if Contains(vanity, before.value) && !Contains(vanity, after.value) then Some(Revoke(before.value))
      else if !Contains(vanity, before.value) && Contains(vanity, after.value) then Some(Grant(after.value))
      else None
    else if before.Some? && after.None? then
      if Contains(vanity, before.value) then Some(Revoke(before.value)) else None
    else
      None
  }

  /** The decision table for one vanity: a Grant exactly when the new activity
      contains it and the old one is absent or does not; a Revoke exactly when
      the old activity contains it and the new one is absent or does not;
      nothing when both contain it or neither does. */
  lemma DecideTable(before: Option<string>, after: Option<string>, vanity: string)
    ensures var d := Decide(before, after, vanity);
            ((d.Some? && d.value.Grant?) <==>
             (after.Some? && Contains(vanity, after.value) && (before.Some? ==> !Contains(vanity, before.value)))) &&
            ((d.Some? && d.value.Revoke?) <==>
             (before.Some? && Contains(vanity, before.value) && (after.Some? ==> !Contains(vanity, after.value)))) &&
            (d.Some? ==> Fits(d.value, before, after))
  {
  }

  function AsSeq(d: Option<Action>): seq<Action>
  {
    if d.Some? then [d.value] else []
  }

  /** The role changes decided for `vanities`, in list order. */
  function Plan(before: Option<string>, after: Option<string>, vanities: seq<string>): (p: seq<Action>)
    ensures |p| <= |vanities|
  {
    if vanities == [] then []
    else AsSeq(Decide(before, after, vanities[0])) + Plan(before, after, vanities[1..])
  }

  function RoleCall(a: Action): Effect
  {
    match a
    case Grant(_) => AddRole
    case Revoke(_) => RemoveRole
  }

  function LogEntry(a: Action): Effect
  {
    match a
    case Grant(name) => Log(Assigned, name)
    case Revoke(name) => Log(Removed, name)
  }

  /** The calls that carry out `actions`: each role call, then its log entry. */
  function Effects(actions: seq<Action>): (t: seq<Effect>)
    ensures |t| == 2 * |actions|
  {
    if actions == [] then []
    else [RoleCall(actions[0]), LogEntry(actions[0])] + Effects(actions[1..])
  }

  /** The actions carried out when the role call with index `failingCall`
      (counting from 0) raises: that call is made but does not complete, so it
      is not recorded, it is taken to leave the role unchanged, and no later
      call is made. */
  function Completed(p: seq<Action>, failingCall: Option<nat>): (q: seq<Action>)
    ensures q <= p
  {
    if failingCall.Some? && failingCall.value < |p| then p[..failingCall.value] else p
  }

  /** The whole trace of one presence update. `roleFound` is false when fetching
      the role raises; `failingCall` names the role call that raises, if any. */
  function Outcome(before: Snapshot, after: Snapshot, vanities: seq<string>,
                   roleFound: bool, failingCall: Option<nat>): seq<Effect>
  {
    if before.status == Offline || after.status == Offline then []
    else if !roleFound then []
    else Effects(Completed(Plan(before.activity, after.activity, vanities), failingCall))
  }

  /** `handle_presence_update`: the offline guard, the role fetch, and the loop
      over the vanities, each iteration issuing at most one role call and its
      log entry. Exceptions end the handler; they never reach the caller. */
  method HandlePresenceUpdate(before: Snapshot, after: Snapshot, vanities: seq<string>,
                              roleFound: bool, failingCall: Option<nat>)
    returns (trace: seq<Effect>)
    ensures trace == Outcome(before, after, vanities, roleFound, failingCall)
  {
    trace := [];
    if before.status == Offline || after.status == Offline {
      return;
    }
    if !roleFound {
      // fetch_role raised; the handler's except clause swallows it
      return;
    }
    ghost var full := Plan(before.activity, after.activity, vanities);
    ghost var done: seq<Action> := [];
    var calls := 0;
    for i := 0 to |vanities|
      invariant full == done + Plan(before.activity, after.activity, vanities[i..])
      invariant trace == Effects(done) && calls == |done|
      invariant failingCall.Some? ==> calls <= failingCall.value
    {
      // the iteration's three branches on which activities are present
      var action := Decide(before.activity, after.activity, vanities[i]);
      ghost var rest := Plan(before.activity, after.activity, vanities[i + 1..]);
      PlanUnfold(before.activity, after.activity, vanities, i);
      if action.Some? {
        AppendAssoc(done, [action.value], rest);
        if failingCall == Some(calls) {
          // the role call is made and raises: it is not recorded, and the
          // exception leaves the loop and is swallowed
          OutcomeWhenStopped(before, after, vanities, done, action.value, rest);
          return;
        }
        EffectsSnoc(done, action.value);
        trace := trace + [RoleCall(action.value), LogEntry(action.value)];
        calls := calls + 1;
        done := done + [action.value];
      } else {
        assert [] + rest == rest;
      }
    }
    assert vanities[|vanities|..] == [];
    OutcomeWhenFinished(before, after, vanities, done, failingCall);
  }

  /** The trace when role call `|done|` raises, `done` being the actions before it. */
  lemma OutcomeWhenStopped(before: Snapshot, after: Snapshot, vanities: seq<string>,
                           done: seq<Action>, a: Action, rest: seq<Action>)
    requires before.status != Offline && after.status != Offline
    requires Plan(before.activity, after.activity, vanities) == done + ([a] + rest)
    ensures Outcome(before, after, vanities, true, Some(|done|)) == Effects(done)
  {
    assert (done + ([a] + rest))[..|done|] == done;
  }

  /** The trace when the loop runs to the end, `done` being every action decided. */
  lemma OutcomeWhenFinished(before: Snapshot, after: Snapshot, vanities: seq<string>,
                            done: seq<Action>, failingCall: Option<nat>)
    requires before.status != Offline && after.status != Offline
    requires Plan(before.activity, after.activity, vanities) == done + []
    requires failingCall.Some? ==> |done| <= failingCall.value
    ensures Outcome(before, after, vanities, true, failingCall) == Effects(done)
  {
    assert done + [] == done;
  }

  /** Log description passed with each entry; `mention` and `roleName` come
      from the member and the fetched role. */
  function Description(entry: Action, mention: string, roleName: string): (r: string)
    ensures |r| > |mention| + |entry.activity|
    ensures r[..|mention|] == mention
    ensures r[|r| - |entry.activity|..] == entry.activity
  {
    match entry
    case Grant(name) => mention + " has been assigned the role **" + roleName + "** for activity: " + name
    case Revoke(name) => mention + " has been removed from the role **" + roleName + "** for activity: " + name
  }

  /** The two templates differ: the text tells an assignment from a removal
      even for the same activity, member and role. */
  lemma DescriptionTellsAction(name: string, mention: string, roleName: string)
    ensures Description(Grant(name), mention, roleName) != Description(Revoke(name), mention, roleName)
  {
    var g, v := Description(Grant(name), mention, roleName), Description(Revoke(name), mention, roleName);
    assert g[|mention| + 10] == 'a';
    assert v[|mention| + 10] == 'r';
  }

  /** The text names the role, right after the template's opening phrase. */
  lemma {:induction false} DescriptionNamesRole(entry: Action, mention: string, roleName: string)
    ensures Contains(roleName, Description(entry, mention, roleName))
  {
    var r := Description(entry, mention, roleName);
    var lead := mention + (if entry.Grant? then " has been assigned the role **"
                           else " has been removed from the role **");
    var tail := "** for activity: " + entry.activity;
    assert r == lead + roleName + tail;
    assert r[|lead|..|lead| + |roleName|] == roleName;
    PositionGivesContains(roleName, r, |lead|);
  }

  // ---------------------------------------------------------------------------
  // Structure of the plan and of the trace

  lemma AppendAssoc(p: seq<Action>, q: seq<Action>, r: seq<Action>)
    ensures p + (q + r) == (p + q) + r
    ensures (p + (q + r))[..|p|] == p
  {
  }

  /** The vanities from `i` on: the decision for vanity `i`, then the rest. */
  lemma PlanUnfold(before: Option<string>, after: Option<string>, vanities: seq<string>, i: nat)
    requires i < |vanities|
    ensures Plan(before, after, vanities[i..]) ==
            AsSeq(Decide(before, after, vanities[i])) + Plan(before, after, vanities[i + 1..])
  {
    assert vanities[i..][1..] == vanities[i + 1..];
  }

  /** A Grant always quotes the new activity, a Revoke the old one. */
  lemma {:induction false} PlanFits(before: Option<string>, after: Option<string>, vanities: seq<string>)
    ensures forall k :: 0 <= k < |Plan(before, after, vanities)| ==>
              Fits(Plan(before, after, vanities)[k], before, after)
  {
    if vanities != [] {
      PlanFits(before, after, vanities[1..]);
      DecideTable(before, after, vanities[0]);
    }
  }

  lemma {:induction false} PlanConcat(before: Option<string>, after: Option<string>, xs: seq<string>, ys: seq<string>)
    ensures Plan(before, after, xs + ys) == Plan(before, after, xs) + Plan(before, after, ys)
  {
    if xs == [] {
      assert xs + ys == ys;
    } else {
      var d := AsSeq(Decide(before, after, xs[0]));
      assert (xs + ys)[0] == xs[0];
      assert (xs + ys)[1..] == xs[1..] + ys;
      PlanConcat(before, after, xs[1..], ys);
      assert d + (Plan(before, after, xs[1..]) + Plan(before, after, ys)) ==
             (d + Plan(before, after, xs[1..])) + Plan(before, after, ys);
    }
  }

  /** The actions for vanity `i` sit after those of every earlier vanity and
      before those of every later one; each vanity yields at most one action. */
  lemma PlanSplit(before: Option<string>, after: Option<string>, vanities: seq<string>, i: nat)
    requires i < |vanities|
    ensures Plan(before, after, vanities) ==
            Plan(before, after, vanities[..i]) + AsSeq(Decide(before, after, vanities[i])) +
            Plan(before, after, vanities[i + 1..])
  {
    var front, back := vanities[..i], vanities[i..];
    PlanConcat(before, after, front, back);
    assert front + back == vanities;
    PlanUnfold(before, after, vanities, i);
  }

  /** Action `j` becomes calls `2j` (the role call) and `2j + 1` (its log entry). */
  lemma {:induction false} EffectsAt(actions: seq<Action>, j: nat)
    requires j < |actions|
    ensures Effects(actions)[2 * j] == RoleCall(actions[j])
    ensures Effects(actions)[2 * j + 1] == LogEntry(actions[j])
  {
    if j > 0 {
      EffectsAt(actions[1..], j - 1);
    }
  }

  lemma {:induction false} EffectsConcat(p: seq<Action>, q: seq<Action>)
    ensures Effects(p + q) == Effects(p) + Effects(q)
  {
    if p == [] {
      assert p + q == q;
    } else {
      var c := [RoleCall(p[0]), LogEntry(p[0])];
      assert (p + q)[0] == p[0];
      assert (p + q)[1..] == p[1..] + q;
      EffectsConcat(p[1..], q);
      assert c + (Effects(p[1..]) + Effects(q)) == (c + Effects(p[1..])) + Effects(q);
    }
  }

  lemma EffectsSnoc(p: seq<Action>, a: Action)
    ensures Effects(p + [a]) == Effects(p) + [RoleCall(a), LogEntry(a)]
  {
    EffectsConcat(p, [a]);
    assert [a][1..] == [];
  }

  /** Calls `2k` and `2k + 1` of `t` are a role call and its log entry: an add
      followed by "Assigned" with the new activity name, or a remove followed
      by "Removed" with the old one. */
  predicate PairAt(t: seq<Effect>, k: nat, before: Option<string>, after: Option<string>)
    requires 2 * k + 1 < |t|
  {
    (t[2 * k] == AddRole && after.Some? && t[2 * k + 1] == Log(Assigned, after.value)) ||
    (t[2 * k] == RemoveRole && before.Some? && t[2 * k + 1] == Log(Removed, before.value))
  }

  /** `t` consists of whole role-call/log-entry pairs (so its length is even). */
  ghost predicate Paired(t: seq<Effect>, before: Option<string>, after: Option<string>)
  {
    forall k: nat :: 2 * k < |t| ==> 2 * k + 1 < |t| && PairAt(t, k, before, after)
  }

  lemma EffectsPaired(p: seq<Action>, before: Option<string>, after: Option<string>)
    requires forall k :: 0 <= k < |p| ==> Fits(p[k], before, after)
    ensures Paired(Effects(p), before, after)
  {
    var t := Effects(p);
    forall k: nat | 2 * k < |t|
      ensures 2 * k + 1 < |t| && PairAt(t, k, before, after)
    {
      assert Fits(p[k], before, after);
      EffectsAt(p, k);
    }
  }

  lemma OutcomePaired(before: Snapshot, after: Snapshot, vanities: seq<string>,
                      roleFound: bool, failingCall: Option<nat>)
    ensures Paired(Outcome(before, after, vanities, roleFound, failingCall), before.activity, after.activity)
  {
    var p := Plan(before.activity, after.activity, vanities);
    var q := Completed(p, failingCall);
    PlanFits(before.activity, after.activity, vanities);
    assert forall k :: 0 <= k < |q| ==> q[k] == p[k];
    EffectsPaired(q, before.activity, after.activity);
  }

  /** Each vanity adds at most one role call and one log entry. */
  lemma OutcomeBounded(before: Snapshot, after: Snapshot, vanities: seq<string>,
                       roleFound: bool, failingCall: Option<nat>)
    ensures |Outcome(before, after, vanities, roleFound, failingCall)| <= 2 * |vanities|
  {
  }

  // ---------------------------------------------------------------------------
  // The guards and the failure paths

  lemma OfflineIgnored(before: Snapshot, after: Snapshot, vanities: seq<string>,
                       roleFound: bool, failingCall: Option<nat>)
    requires before.status == Offline || after.status == Offline
    ensures Outcome(before, after, vanities, roleFound, failingCall) == []
  {
  }

  lemma RoleFetchFailureIgnored(before: Snapshot, after: Snapshot, vanities: seq<string>, failingCall: Option<nat>)
    ensures Outcome(before, after, vanities, false, failingCall) == []
  {
  }

  /** A failing role call cuts the trace short: what was done is a prefix of
      the undisturbed trace, made of whole call/log pairs. */
  lemma FailureTruncates(before: Snapshot, after: Snapshot, vanities: seq<string>, k: nat)
    ensures Outcome(before, after, vanities, true, Some(k)) <= Outcome(before, after, vanities, true, None)
    ensures |Outcome(before, after, vanities, true, Some(k))| ==
            if before.status == Offline || after.status == Offline then 0
            else 2 * Min(k, |Plan(before.activity, after.activity, vanities)|)
  {
    if before.status != Offline && after.status != Offline {
      var p := Plan(before.activity, after.activity, vanities);
      if k < |p| {
        var done, rest := p[..k], p[k..];
        EffectsConcat(done, rest);
        assert done + rest == p;
      }
    }
  }

  function Min(a: nat, b: nat): nat
  {
    if a <= b then a else b
  }

  // ---------------------------------------------------------------------------
  // The activity-presence cases

  /** Whether a vanity occurs in the activity name (an absent activity matches none). */
  predicate MatchesAny(vanities: seq<string>, activity: Option<string>)
  {
    activity.Some? && exists i :: 0 <= i < |vanities| && Contains(vanities[i], activity.value)
  }

  /** The number of vanities (duplicates included) that `name` contains. */
  function CountIn(vanities: seq<string>, name: string): (n: nat)
    ensures n <= |vanities|
  {
    if vanities == [] then 0
    else (if Contains(vanities[0], name) then 1 else 0) + CountIn(vanities[1..], name)
  }

  lemma NoActivityNoEffects(before: Snapshot, after: Snapshot, vanities: seq<string>,
                            roleFound: bool, failingCall: Option<nat>)
    requires before.activity.None? && after.activity.None?
    ensures Outcome(before, after, vanities, roleFound, failingCall) == []
  {
    PlanFits(before.activity, after.activity, vanities);
  }

  /** Starting an activity: one Grant per vanity it contains, and nothing else. */
  lemma {:induction false} ArrivalGrants(vanities: seq<string>, name: string)
    ensures Plan(None, Some(name), vanities) == seq(CountIn(vanities, name), _ => Grant(name))
  {
    if vanities != [] {
      ArrivalGrants(vanities[1..], name);
    }
  }

  /** Ending an activity: one Revoke per vanity it contained, and nothing else. */
  lemma {:induction false} DepartureRevokes(vanities: seq<string>, name: string)
    ensures Plan(Some(name), None, vanities) == seq(CountIn(vanities, name), _ => Revoke(name))
  {
    if vanities != [] {
      DepartureRevokes(vanities[1..], name);
    }
  }

  /** Changing between activities that contain the same vanities issues no
      role call at all (matching stays matching, non-matching stays so). */
  lemma {:induction false} StableMatchNoEffects(vanities: seq<string>, oldName: string, newName: string)
    requires forall i :: 0 <= i < |vanities| ==> (Contains(vanities[i], oldName) <==> Contains(vanities[i], newName))
    ensures Plan(Some(oldName), Some(newName), vanities) == []
  {
    if vanities != [] {
      var rest := vanities[1..];
      assert forall i :: 0 <= i < |rest| ==> rest[i] == vanities[i + 1];
      StableMatchNoEffects(rest, oldName, newName);
    }
  }

  // ---------------------------------------------------------------------------
  // Role membership after the trace

  /** Whether the member holds the role after one call, starting from `held`. */
  function Apply(held: bool, e: Effect): bool
  {
    match e
    case AddRole => true
    case RemoveRole => false
    case Log(_, _) => held
  }

  /** Whether the member holds the role after `trace`, starting from `held`. */
  function RoleHeld(held: bool, trace: seq<Effect>): bool
    decreases |trace|
  {
    if trace == [] then held else RoleHeld(Apply(held, trace[0]), trace[1..])
  }

  /** The last action decides the membership; no action leaves it as it was. */
  lemma {:induction false} RoleHeldAfterEffects(held: bool, p: seq<Action>)
    ensures RoleHeld(held, Effects(p)) == if p == [] then held else p[|p| - 1].Grant?
    decreases |p|
  {
    if p != [] {
      var t := Effects(p);
      var h := Apply(Apply(held, RoleCall(p[0])), LogEntry(p[0]));
      assert t[1..][1..] == Effects(p[1..]);
      assert RoleHeld(held, t) == RoleHeld(h, Effects(p[1..]));
      RoleHeldAfterEffects(h, p[1..]);
      if p[1..] != [] {
        assert p[1..][|p[1..]| - 1] == p[|p| - 1];
      }
    }
  }

  lemma ArrivalHoldsRole(held: bool, before: Snapshot, after: Snapshot, vanities: seq<string>)
    requires before.status != Offline && after.status != Offline
    requires before.activity.None? && after.activity.Some?
    ensures RoleHeld(held, Outcome(before, after, vanities, true, None)) ==
            (held || CountIn(vanities, after.activity.value) > 0)
  {
    ArrivalGrants(vanities, after.activity.value);
    RoleHeldAfterEffects(held, Plan(before.activity, after.activity, vanities));
  }

  lemma DepartureDropsRole(held: bool, before: Snapshot, after: Snapshot, vanities: seq<string>)
    requires before.status != Offline && after.status != Offline
    requires before.activity.Some? && after.activity.None?
    ensures RoleHeld(held, Outcome(before, after, vanities, true, None)) ==
            (held && CountIn(vanities, before.activity.value) == 0)
  {
    DepartureRevokes(vanities, before.activity.value);
    RoleHeldAfterEffects(held, Plan(before.activity, after.activity, vanities));
  }

  /** Counting the matching vanities and asking whether one matches agree:
      some vanity is contained in `name` exactly when the count is positive. */
  lemma {:induction false} CountInMatches(vanities: seq<string>, name: string)
    ensures CountIn(vanities, name) > 0 <==> MatchesAny(vanities, Some(name))
  {
    if vanities != [] {
      var rest := vanities[1..];
      CountInMatches(rest, name);
      if MatchesAny(rest, Some(name)) {
        var i :| 0 <= i < |rest| && Contains(rest[i], name);
        assert vanities[i + 1] == rest[i];
      }
      if MatchesAny(vanities, Some(name)) && !Contains(vanities[0], name) {
        var i :| 0 <= i < |vanities| && Contains(vanities[i], name);
        assert rest[i - 1] == vanities[i];
      }
    }
  }

  /** On arrival and departure the code as written agrees with the intended
      rule: a member who held the role exactly when the old activity matched
      ends holding it exactly when the new activity matches. */
  lemma PresenceCasesKeepRoleInStep(before: Snapshot, after: Snapshot, vanities: seq<string>)
    requires before.status != Offline && after.status != Offline
    requires before.activity.None? != after.activity.None?
    ensures RoleHeld(MatchesAny(vanities, before.activity), Outcome(before, after, vanities, true, None)) ==
            MatchesAny(vanities, after.activity)
  {
    if before.activity.None? {
      ArrivalHoldsRole(false, before, after, vanities);
      CountInMatches(vanities, after.activity.value);
    } else {
      DepartureDropsRole(MatchesAny(vanities, before.activity), before, after, vanities);
      CountInMatches(vanities, before.activity.value);
    }
  }

  // ---------------------------------------------------------------------------
  // Switching activities: the result depends on the order of the vanities

  /** Switching from activity `x` to activity `y`, where the vanities are `x`
      and `y` themselves and neither name contains the other: listed as `y`
      then `x`, the handler grants the role for `y` and then revokes it for
      `x`, so the member ends without the role although the new activity
      contains a vanity; listed as `x` then `y`, the member ends with it. */
  lemma OrderDecidesRole(x: string, y: string, status: Status, held: bool)
    requires !Contains(x, y) && !Contains(y, x)
    requires status != Offline
    ensures var before, after := Snapshot(status, Some(x)), Snapshot(status, Some(y));
            Outcome(before, after, [y, x], true, None) == [AddRole, Log(Assigned, y), RemoveRole, Log(Removed, x)] &&
            !RoleHeld(held, Outcome(before, after, [y, x], true, None)) &&
            RoleHeld(held, Outcome(before, after, [x, y], true, None)) &&
            MatchesAny([y, x], Some(y))
  {
    SwitchPlans(x, y);
    assert Effects([Grant(y), Revoke(x)]) == [AddRole, Log(Assigned, y), RemoveRole, Log(Removed, x)] by {
      assert [Grant(y), Revoke(x)][1..] == [Revoke(x)];
      assert Effects([Revoke(x)]) == [RemoveRole, Log(Removed, x)] by {
        assert [Revoke(x)][1..] == [];
      }
    }
    RoleHeldAfterEffects(held, [Grant(y), Revoke(x)]);
    RoleHeldAfterEffects(held, [Revoke(x), Grant(y)]);
    assert Contains([y, x][0], y);
  }

  lemma SwitchPlans(x: string, y: string)
    requires !Contains(x, y) && !Contains(y, x)
    ensures Plan(Some(x), Some(y), [y, x]) == [Grant(y), Revoke(x)]
    ensures Plan(Some(x), Some(y), [x, y]) == [Revoke(x), Grant(y)]
  {
    var b, a := Some(x), Some(y);
    assert Decide(b, a, y) == Some(Grant(y)) by {
      assert Contains(y, y);
    }
    assert Decide(b, a, x) == Some(Revoke(x)) by {
      assert Contains(x, x);
    }
    assert Plan(b, a, [y, x]) == [Grant(y), Revoke(x)] by {
      assert [y, x][1..] == [x];
      assert Plan(b, a, [x]) == [Revoke(x)] by {
        assert [x][1..] == [];
      }
    }
    assert Plan(b, a, [x, y]) == [Revoke(x), Grant(y)] by {
      assert [x, y][1..] == [y];
      assert Plan(b, a, [y]) == [Grant(y)] by {
        assert [y][1..] == [];
      }
    }
  }

  /** One decision per event, taken on "some vanity matches" before and after. */
  function IntendedDecision(before: Option<string>, after: Option<string>, vanities: seq<string>): (d: Option<Action>)
    ensures d.Some? ==> Fits(d.value, before, after)
  {
    var was := MatchesAny(vanities, before);
    var now := MatchesAny(vanities, after);
    if !was && now then Some(Grant(after.value))
    else if was && !now then Some(Revoke(before.value))
    else None
  }

  /** The intended rule keeps the role in step with the activity: if the member
      held the role exactly when the old activity matched, it holds it exactly
      when the new one matches, whatever the order of the vanities. */
  lemma IntendedKeepsRoleInStep(before: Option<string>, after: Option<string>, vanities: seq<string>)
    ensures RoleHeld(MatchesAny(vanities, before), Effects(AsSeq(IntendedDecision(before, after, vanities)))) ==
            MatchesAny(vanities, after)
    ensures |AsSeq(IntendedDecision(before, after, vanities))| <= 1
  {
    RoleHeldAfterEffects(MatchesAny(vanities, before), AsSeq(IntendedDecision(before, after, vanities)));
  }
}
