/**
 * Concurrent policy resolutions: any number of them, advancing one await at a time in any order,
 * while policies change and cached entries are lost. A resolution that stops at an await is one that
 * is not advanced again.
 */
module PolicyRuns {
  import opened Results
  import opened Policy
  import opened PolicyMeaning
  import opened PolicyCache

  /** Where a resolution stands; from loading on it keeps the layers and the time it goes by. */
  datatype Pc =
    | Start
    | Checked
    | Loaded(layers: seq<Layer>, now: int)
    | Settled(layers: seq<Layer>, now: int, effective: EffectivePolicy, fromCache: bool)
    | Audited(layers: seq<Layer>, now: int, effective: EffectivePolicy)
    | Ended(layers: seq<Layer>, now: int, resolution: Resolution)
    | Failed(resolution: Resolution)

  /** How an await ends: well, with the device revoked, with no effect, or with its effect unanswered. */
  datatype Ending = Fine | Revoked | Down | Lost

  /** What the dependency awaited gives: the table that is read, the member's role, and the clock after it. */
  datatype Answer = Answer(ending: Ending, db: Database, role: Option<string>, now: int)

  datatype Entry = Entry(call: nat, event: AuditEvent)

  /** The requests, where each stands, the cache, and the audit trail in order. */
  datatype System = System(calls: seq<Context>, pcs: seq<Pc>, cache: Cache, audit: seq<Entry>)

  datatype Action = Advance(call: nat, answer: Answer) | Lose(key: string)

  function EndOf(layers: seq<Layer>, now: int, p: EffectivePolicy): Pc {
    Ended(layers, now, if p.permission.verdict == Deny then PolicyDenied else Resolved(p))
  }

  datatype Step = Step(pc: Pc, cache: Cache, events: seq<AuditEvent>)

  /** One await of a resolution and the code up to the next. */
  function StepCall(c: Context, pc: Pc, cache: Cache, a: Answer): Step {
    match pc
    case Start =>
      if a.ending == Revoked then Step(Failed(PolicyDenied), cache, [])
      else if a.ending != Fine then Step(Failed(DependencyUnavailable), cache, [])
      else Step(Checked, cache, [])
    case Checked =>
      if a.ending != Fine then Step(Failed(DependencyUnavailable), cache, [])
      else Step(Loaded(LoadPublished(a.db, c, a.role), a.now), cache, [])
    case Loaded(layers, now) =>
      if a.ending != Fine then Step(Failed(DependencyUnavailable), cache, [])
      else
        var computed := Fresh(c, layers, now);
        var cached := Get(cache, c, computed.policyVersion);
        var matches := cached.Some? && CacheMatches(cached.value, c, computed.policyVersion, now);
        Step(Settled(layers, now, if matches then cached.value else computed, matches), cache, [])
    case Settled(layers, now, effective, fromCache) =>
      var events := if a.ending in {Fine, Lost} then [AuditOf(c, effective)] else [];
      if a.ending != Fine then Step(Failed(DependencyUnavailable), cache, events)
      else if fromCache then Step(EndOf(layers, now, effective), cache, events)
      else Step(Audited(layers, now, effective), cache, events)
    case Audited(layers, now, effective) =>
      var published := if a.ending in {Fine, Lost} then cache[Key(effective.context) := effective] else cache;
      if a.ending != Fine then Step(Failed(DependencyUnavailable), published, [])
      else Step(EndOf(layers, now, effective), published, [])
    case Ended(_, _, _) => Step(pc, cache, [])
    case Failed(_) => Step(pc, cache, [])
  }

  function Entries(call: nat, events: seq<AuditEvent>): (entries: seq<Entry>)
    ensures |entries| == |events| && forall i :: 0 <= i < |events| ==> entries[i] == Entry(call, events[i])
  {
    if events == [] then [] else [Entry(call, events[0])] + Entries(call, events[1..])
  }

  function Next(s: System, action: Action): System
    requires |s.pcs| == |s.calls|
  {
    match action
    case Lose(key) => s.(cache := s.cache - {key})
    case Advance(call, answer) =>
      if call >= |s.calls| then s
      else
        var step := StepCall(s.calls[call], s.pcs[call], s.cache, answer);
        s.(pcs := s.pcs[call := step.pc], cache := step.cache, audit := s.audit + Entries(call, step.events))
  }

  function Run(s: System, actions: seq<Action>): (after: System)
    requires |s.pcs| == |s.calls|
    ensures |after.pcs| == |after.calls| && after.calls == s.calls
    decreases |actions|
  {
    if actions == [] then s else Next(Run(s, actions[..|actions| - 1]), actions[|actions| - 1])
  }

  /** Requests that have not begun, with nothing audited yet. */
  ghost predicate Initial(s: System, k: Catalogue) {
    && |s.pcs| == |s.calls| && (forall i :: 0 <= i < |s.pcs| ==> s.pcs[i] == Start) && s.audit == []
    && SoundCache(s.cache, k)
  }

  /** Every table that is read meets its constraints and holds rows of the catalogue only. */
  ghost predicate Governed(actions: seq<Action>, k: Catalogue) {
    forall i :: 0 <= i < |actions| && actions[i].Advance? ==> GovernedTable(actions[i].answer.db, k)
  }

  ghost predicate GovernedTable(db: Database, k: Catalogue) {
    ValidDatabase(db) && forall r :: r in db ==> FromCatalogue([r.layer], k)
  }

  // ----- one call's share of the audit trail -----

  function EventsOf(audit: seq<Entry>, call: nat): seq<AuditEvent> {
    if audit == [] then []
    else
      var n := |audit| - 1;
      EventsOf(audit[..n], call) + (if audit[n].call == call then [audit[n].event] else [])
  }

  lemma {:induction false} EventsAppend(audit: seq<Entry>, call: nat, other: nat, events: seq<AuditEvent>)
    requires |events| <= 1
    ensures EventsOf(audit + Entries(other, events), call) ==
            EventsOf(audit, call) + (if call == other then events else [])
  {
    var more := Entries(other, events);
    if events == [] {
      assert audit + more == audit;
      assert EventsOf(audit, call) + [] == EventsOf(audit, call);
    } else {
      assert (audit + more)[..|audit|] == audit;
      assert events == [events[0]];
    }
  }

  // ----- the invariant -----

  /** What the request settled on is what the layers it loaded compose to, and has not expired. */
  ghost predicate Agrees(p: EffectivePolicy, c: Context, layers: seq<Layer>, now: int) {
    SamePolicy(p, Fresh(c, layers, now)) && now < p.expiresAt && p.expiresAt == p.evaluatedAt + 300000
  }

  ghost predicate Loadable(layers: seq<Layer>, k: Catalogue) { AtMostOne(layers) && FromCatalogue(layers, k) }

  /** The audit entry of a fresh composition. */
  function Decision(c: Context, layers: seq<Layer>, now: int): AuditEvent { AuditOf(c, Fresh(c, layers, now)) }

  /** What holds of one resolution, where it stands, with its audit entries. */
  ghost predicate Stands(c: Context, pc: Pc, events: seq<AuditEvent>, k: Catalogue) {
    match pc
    case Start => events == []
    case Checked => events == []
    case Loaded(layers, now) => Loadable(layers, k) && events == []
    case Settled(layers, now, p, _) =>
      Loadable(layers, k) && Agrees(p, c, layers, now) && ComposedBefore(p, k) && events == []
    case Audited(layers, now, p) =>
      Loadable(layers, k) && Agrees(p, c, layers, now) && ComposedBefore(p, k) && events == [Decision(c, layers, now)]
    case Ended(layers, now, r) =>
      && (r.Resolved? <==> Sound(layers)) && (r == PolicyDenied <==> !Sound(layers))
      && (r.Resolved? ==> Agrees(r.policy, c, layers, now)) && events == [Decision(c, layers, now)]
    case Failed(r) =>
      !r.Resolved? &&
        (events == [] || exists layers, now :: Loadable(layers, k) && events == [Decision(c, layers, now)])
  }

  lemma {:induction false} SettlesWell(c: Context, layers: seq<Layer>, now: int, cache: Cache, a: Answer, k: Catalogue)
    requires SoundCache(cache, k) && Loadable(layers, k) && a.ending == Fine
    ensures var pc := StepCall(c, Loaded(layers, now), cache, a).pc;
            pc.Settled? && Agrees(pc.effective, c, layers, now) && ComposedBefore(pc.effective, k)
  {
    hide Fresh, AtMostOne, FromCatalogue, SamePolicy, Key, CacheMatches;
    EffectiveAgrees(cache, c, layers, now, k);
    var pc := StepCall(c, Loaded(layers, now), cache, a).pc;
    assert pc.effective == Effective(cache, c, Fresh(c, layers, now), now);
    LivesFiveMinutes(pc.effective, k);
  }

  lemma {:induction false} LivesFiveMinutes(p: EffectivePolicy, k: Catalogue)
    requires ComposedBefore(p, k)
    ensures p.expiresAt == p.evaluatedAt + 300000
  {
    hide Ordered, VersionOf, PermissionOf, ProvenanceOf, ReasonsOf, AtMostOne, FromCatalogue;
  }

  lemma {:induction false} EndsWell(c: Context, layers: seq<Layer>, now: int, p: EffectivePolicy)
    requires Agrees(p, c, layers, now)
    ensures var r := EndOf(layers, now, p).resolution;
            && (r.Resolved? <==> Sound(layers)) && (r == PolicyDenied <==> !Sound(layers)) &&
                  (r.Resolved? ==> r.policy == p)
    ensures AuditOf(c, p) == Decision(c, layers, now)
  {
    hide Ordered, VersionOf, PermissionOf, ProvenanceOf, ReasonsOf, Sound;
    AllowedExactly(c, layers, now, now + LIFETIME);
  }

  /** One await keeps what holds of the resolution, and the cache sound. */
  lemma {:induction false} StepStands(
    c: Context, pc: Pc, events: seq<AuditEvent>, cache: Cache, a: Answer, k: Catalogue)
    requires SoundCache(cache, k) && Stands(c, pc, events, k) && GovernedTable(a.db, k)
    ensures var step := StepCall(c, pc, cache, a);
            |step.events| <= 1 && SoundCache(step.cache, k) && Stands(c, step.pc, events + step.events, k)
  {
    hide Agrees, ComposedBefore, Sound, AtMostOne, FromCatalogue, Fresh, AuditOf, LoadPublished, ValidDatabase, Key,
         EndOf, Get, CacheMatches, Decision;
    assert events + [] == events;
    match pc
    case Start =>
    case Checked =>
      LoadsAtMostOne(a.db, c, a.role);
      LoadedFromCatalogue(a.db, c, a.role, k);
    case Loaded(layers, now) =>
      if a.ending == Fine { SettlesWell(c, layers, now, cache, a, k); }
    case Settled(layers, now, p, _) =>
      EndsWell(c, layers, now, p);
      EndShape(layers, now, p);
    case Audited(layers, now, p) =>
      EndsWell(c, layers, now, p);
      EndShape(layers, now, p);
    case Ended(_, _, _) =>
    case Failed(_) =>
  }

  lemma {:induction false} EndShape(layers: seq<Layer>, now: int, p: EffectivePolicy)
    ensures EndOf(layers, now, p) == Ended(layers, now, EndOf(layers, now, p).resolution)
  {
  }

  ghost predicate AllStand(s: System, k: Catalogue)
    requires |s.pcs| == |s.calls|
  {
    forall i :: 0 <= i < |s.calls| ==> Stands(s.calls[i], s.pcs[i], EventsOf(s.audit, i), k)
  }

  lemma {:induction false} RunStands(s: System, actions: seq<Action>, k: Catalogue)
    requires Initial(s, k) && Governed(actions, k)
    ensures AllStand(Run(s, actions), k) && SoundCache(Run(s, actions).cache, k)
    decreases |actions|
  {
    hide Stands, StepCall, ComposedBefore, GovernedTable;
    if actions == [] {
      forall i | 0 <= i < |s.calls| ensures Stands(s.calls[i], s.pcs[i], EventsOf(s.audit, i), k) {
        Begins(s.calls[i], k);
      }
    } else {
      var n := |actions| - 1;
      RunStands(s, actions[..n], k);
      var before, action := Run(s, actions[..n]), actions[n];
      if action.Advance? && action.call < |s.calls| {
        var call := action.call;
        var step := StepCall(before.calls[call], before.pcs[call], before.cache, action.answer);
        StepStands(before.calls[call], before.pcs[call], EventsOf(before.audit, call), before.cache, action.answer, k);
        forall i | 0 <= i < |s.calls|
          ensures Stands(s.calls[i], Run(s, actions).pcs[i], EventsOf(Run(s, actions).audit, i), k)
        {
          EventsAppend(before.audit, i, call, step.events);
          assert EventsOf(before.audit, i) + [] == EventsOf(before.audit, i);
        }
      }
    }
  }

  lemma {:induction false} Begins(c: Context, k: Catalogue)
    ensures Stands(c, Start, EventsOf([], 0), k)
  {
  }

  // ----- where the layers come from -----

  /** The layers and the time that a resolution goes by, from loading on. */
  function Basis(pc: Pc): Option<(seq<Layer>, int)> {
    match pc
    case Loaded(layers, now) => Some((layers, now))
    case Settled(layers, now, _, _) => Some((layers, now))
    case Audited(layers, now, _) => Some((layers, now))
    case Ended(layers, now, _) => Some((layers, now))
    case _ => None
  }

  /** One of the run's reads, made by this resolution, gave them. */
  ghost predicate WasRead(actions: seq<Action>, call: nat, c: Context, basis: (seq<Layer>, int)) {
    exists i :: 0 <= i < |actions| && Reads(actions[i], call, c, basis)
  }

  predicate Reads(action: Action, call: nat, c: Context, basis: (seq<Layer>, int)) {
    action.Advance? && action.call == call &&
    basis == (LoadPublished(action.answer.db, c, action.answer.role), action.answer.now)
  }

  lemma {:induction false} BasisStays(c: Context, pc: Pc, cache: Cache, a: Answer)
    ensures var after := StepCall(c, pc, cache, a).pc;
            Basis(after).Some? ==>
              Basis(after) == Basis(pc) || Basis(after) == Some((LoadPublished(a.db, c, a.role), a.now))
  {
    hide LoadPublished, Fresh, Get, CacheMatches, AuditOf, Key;
  }

  lemma {:induction false} BasisWasRead(s: System, actions: seq<Action>, call: nat)
    requires |s.pcs| == |s.calls| && call < |s.calls| && s.pcs[call] == Start
    ensures var pc := Run(s, actions).pcs[call];
            Basis(pc).Some? ==> WasRead(actions, call, s.calls[call], Basis(pc).value)
    decreases |actions|
  {
    hide StepCall, Basis, Reads;
    if actions == [] {
      assert Basis(Start).None? by { NoBasis(); }
    } else {
      var n := |actions| - 1;
      BasisWasRead(s, actions[..n], call);
      var before, action := Run(s, actions[..n]), actions[n];
      var pc := before.pcs[call];
      if Basis(pc).Some? && WasRead(actions[..n], call, s.calls[call], Basis(pc).value) {
        var i :| 0 <= i < n && Reads(actions[..n][i], call, s.calls[call], Basis(pc).value);
        assert actions[i] == actions[..n][i];
      }
      if action.Advance? && action.call == call {
        BasisStays(s.calls[call], pc, before.cache, action.answer);
        var after := StepCall(s.calls[call], pc, before.cache, action.answer).pc;
        if Basis(after).Some? && Basis(after) != Basis(pc) {
          assert Reads(action, call, s.calls[call], Basis(after).value) by { IsRead(action, s.calls[call]); }
        }
      }
    }
  }

  lemma {:induction false} NoBasis()
    ensures Basis(Start).None?
  {
  }

  lemma {:induction false} IsRead(action: Action, c: Context)
    requires action.Advance?
    ensures Reads(action, action.call, c, (LoadPublished(action.answer.db, c, action.answer.role), action.answer.now))
  {
  }

  // ----- the results -----

  /**
   * In every interleaving of resolutions, policy changes and lost entries, a resolution that ended is
   * resolved if and only if the layers that it read are sound. What it resolved to is what they compose
   * to, was composed less than five minutes before the time it read, and its one audit entry is that
   * decision, whatever others published meanwhile.
   */
  lemma {:induction false} CacheAgrees(s: System, actions: seq<Action>, call: nat, k: Catalogue)
    requires Initial(s, k) && Governed(actions, k) && call < |s.calls|
    ensures var after := Run(s, actions);
            var c, pc, events := s.calls[call], after.pcs[call], EventsOf(after.audit, call);
            && (pc.Ended? ==>
                  && WasRead(actions, call, c, (pc.layers, pc.now))
                  && (pc.resolution.Resolved? <==> Sound(pc.layers)) &&
                        (pc.resolution == PolicyDenied <==> !Sound(pc.layers))
                  && (pc.resolution.Resolved? ==>
                        SamePolicy(pc.resolution.policy, Fresh(c, pc.layers, pc.now)) &&
                        pc.resolution.policy.expiresAt > pc.now && pc.resolution.policy.evaluatedAt > pc.now - 300000)
                  && var made := Fresh(c, pc.layers, pc.now);
                     events == [AuditEvent(
                       c, made.policyVersion, made.permission.verdict, made.permission.denyReasons)])
            && (pc.Failed? ==> !pc.resolution.Resolved?)
            && |events| <= 1
  {
    hide Fresh, SamePolicy, Sound, Loadable, ComposedBefore, Run, Governed, SoundCache, WasRead;
    RunStands(s, actions, k);
    BasisWasRead(s, actions, call);
  }

  // ----- one resolution alone -----

  /** How the five awaits of one resolution end when one of them may fail. */
  function Endings(fault: Fault): (endings: seq<Ending>)
    ensures |endings| == 5
  {
    match fault
    case NoFault => [Fine, Fine, Fine, Fine, Fine]
    case DeviceRevoked => [Revoked, Fine, Fine, Fine, Fine]
    case SecurityDown => [Down, Fine, Fine, Fine, Fine]
    case LoadDown => [Fine, Down, Fine, Fine, Fine]
    case CacheDown => [Fine, Fine, Down, Fine, Fine]
    case AuditDown => [Fine, Fine, Fine, Down, Fine]
    case AuditLost => [Fine, Fine, Fine, Lost, Fine]
    case PublishDown => [Fine, Fine, Fine, Fine, Down]
    case PublishLost => [Fine, Fine, Fine, Fine, Lost]
  }

  function Alone(db: Database, role: Option<string>, now: int, endings: seq<Ending>): (actions: seq<Action>)
    ensures |actions| == |endings|
  {
    seq(|endings|, i requires 0 <= i < |endings| => Advance(0, Answer(endings[i], db, role, now)))
  }

  /** One await of the only resolution there is. */
  lemma {:induction false} NextAlone(c: Context, pc: Pc, cache: Cache, audit: seq<Entry>, a: Answer)
    ensures var step := StepCall(c, pc, cache, a);
            Next(System([c], [pc], cache, audit), Advance(0, a)) ==
            System([c], [step.pc], step.cache, audit + Entries(0, step.events))
    ensures |StepCall(c, pc, cache, a).events| <= 1
    ensures EventsOf(audit + Entries(0, StepCall(c, pc, cache, a).events), 0) ==
            EventsOf(audit, 0) + StepCall(c, pc, cache, a).events
  {
    hide LoadPublished, Fresh, Get, CacheMatches, AuditOf, Key, EventsOf;
    EventsAppend(audit, 0, 0, StepCall(c, pc, cache, a).events);
  }

  function After(c: Context, before: Step, a: Answer): Step {
    var step := StepCall(c, before.pc, before.cache, a);
    Step(step.pc, step.cache, before.events + step.events)
  }

  /** Where one resolution stands after these awaits, with the cache and its audit entries. */
  function Steps(c: Context, before: Step, db: Database, role: Option<string>, now: int, endings: seq<Ending>): Step
    decreases |endings|
  {
    if endings == [] then before
    else
      var n := |endings| - 1;
      After(c, Steps(c, before, db, role, now, endings[..n]), Answer(endings[n], db, role, now))
  }

  lemma {:induction false} RunAlone(
    c: Context, cache: Cache, db: Database, role: Option<string>, now: int, endings: seq<Ending>)
    ensures var after := Run(System([c], [Start], cache, []), Alone(db, role, now, endings));
            var step := Steps(c, Step(Start, cache, []), db, role, now, endings);
            && after.calls == [c] && after.pcs == [step.pc] && after.cache == step.cache
            && EventsOf(after.audit, 0) == step.events
    decreases |endings|
  {
    hide StepCall, Next;
    if endings != [] {
      var n := |endings| - 1;
      RunAlone(c, cache, db, role, now, endings[..n]);
      assert Alone(db, role, now, endings)[..n] == Alone(db, role, now, endings[..n]);
      var before := Run(System([c], [Start], cache, []), Alone(db, role, now, endings[..n]));
      NextAlone(c, before.pcs[0], before.cache, before.audit, Answer(endings[n], db, role, now));
    }
  }

  lemma {:induction false} FiveSteps(
    c: Context, before: Step, db: Database, role: Option<string>, now: int, endings: seq<Ending>)
    requires |endings| == 5
    ensures var one := After(c, before, Answer(endings[0], db, role, now));
            var two := After(c, one, Answer(endings[1], db, role, now));
            var three := After(c, two, Answer(endings[2], db, role, now));
            var four := After(c, three, Answer(endings[3], db, role, now));
            Steps(c, before, db, role, now, endings) == After(c, four, Answer(endings[4], db, role, now))
  {
    hide StepCall;
    assert endings[..4][..3] == endings[..3] && endings[..3][..2] == endings[..2] && endings[..2][..1] == endings[..1];
    assert endings[..1][..0] == [];
    assert Steps(c, before, db, role, now, []) == before;
    var one := Steps(c, before, db, role, now, endings[..1]);
    assert one == After(c, before, Answer(endings[0], db, role, now));
    var two := Steps(c, before, db, role, now, endings[..2]);
    assert two == After(c, one, Answer(endings[1], db, role, now));
    var three := Steps(c, before, db, role, now, endings[..3]);
    assert three == After(c, two, Answer(endings[2], db, role, now));
  }

  /** The first three awaits, when nothing fails, settle on a policy. */
  lemma {:induction false} ThreeFine(c: Context, cache: Cache, db: Database, role: Option<string>, now: int)
    ensures var a := Answer(Fine, db, role, now);
            var layers := LoadPublished(db, c, role);
            var computed := Fresh(c, layers, now);
            var cached := Get(cache, c, computed.policyVersion);
            var matches := cached.Some? && CacheMatches(cached.value, c, computed.policyVersion, now);
            After(c, After(c, After(c, Step(Start, cache, []), a), a), a) ==
            Step(Settled(layers, now, Effective(cache, c, computed, now), matches), cache, [])
  {
    hide LoadPublished, Fresh, Get, CacheMatches;
    var a := Answer(Fine, db, role, now);
    assert After(c, Step(Start, cache, []), a) == Step(Checked, cache, []);
    assert After(c, Step(Checked, cache, []), a) == Step(Loaded(LoadPublished(db, c, role), now), cache, []);
  }

  predicate FailsEarly(fault: Fault) { fault in {DeviceRevoked, SecurityDown, LoadDown, CacheDown} }

  lemma {:induction false} EarlyFault(
    c: Context, cache: Cache, db: Database, role: Option<string>, now: int, fault: Fault)
    requires FailsEarly(fault)
    ensures var step := Steps(c, Step(Start, cache, []), db, role, now, Endings(fault));
            var (r, whole) := ResolveTx(State(cache, []), c, LoadPublished(db, c, role), now, fault);
            step.pc == Failed(r) && step.cache == whole.cache && step.events == whole.audit
  {
    hide LoadPublished, Fresh, Get, CacheMatches, AuditOf, Key, Steps;
    FiveSteps(c, Step(Start, cache, []), db, role, now, Endings(fault));
  }

  lemma {:induction false} LateFault(
    c: Context, cache: Cache, db: Database, role: Option<string>, now: int, fault: Fault)
    requires !FailsEarly(fault)
    ensures var step := Steps(c, Step(Start, cache, []), db, role, now, Endings(fault));
            var (r, whole) := ResolveTx(State(cache, []), c, LoadPublished(db, c, role), now, fault);
            && (step.pc.Ended? || step.pc.Failed?) && step.pc.resolution == r
            && step.cache == whole.cache && step.events == whole.audit
  {
    hide LoadPublished, Fresh, Get, CacheMatches, AuditOf, Key, Steps;
    FiveSteps(c, Step(Start, cache, []), db, role, now, Endings(fault));
    ThreeFine(c, cache, db, role, now);
  }

  /** Not interleaved with anything, the awaits do what the resolution does as a whole. */
  lemma {:induction false} AloneIsResolve(
    c: Context, cache: Cache, db: Database, role: Option<string>, now: int, fault: Fault)
    ensures var after := Run(System([c], [Start], cache, []), Alone(db, role, now, Endings(fault)));
            var (r, whole) := ResolveTx(State(cache, []), c, LoadPublished(db, c, role), now, fault);
            && (after.pcs[0].Ended? || after.pcs[0].Failed?) && after.pcs[0].resolution == r
            && after.cache == whole.cache && EventsOf(after.audit, 0) == whole.audit
  {
    hide Run, LoadPublished, ResolveTx, EventsOf, Steps, Alone, Endings;
    RunAlone(c, cache, db, role, now, Endings(fault));
    if FailsEarly(fault) {
      EarlyFault(c, cache, db, role, now, fault);
    } else {
      LateFault(c, cache, db, role, now, fault);
    }
  }
}
