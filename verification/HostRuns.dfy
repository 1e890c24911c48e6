/** Whole runs of the Host update program: requests, health and reboots in any
    order, with faults, and the one interleaving that breaks its promises. */
module HostRuns {
  import opened Common
  import opened HostUpdate

  /** The boots of `past` from `first` on. A check writes a manual outcome
      down only on a boot that activated an administrator's rollback or that a
      stale record misled; without faults it does so exactly on the former. */
  predicate ManualOutcomes(past: Past, first: nat, faults: bool) {
    forall i :: first <= i < |past.boots| ==>
      var boot := past.boots[i];
      && (boot.recorded ==> boot.byManual || boot.misled)
      && !(boot.byManual && boot.misled)
      && (!faults ==> boot.checked && !boot.misled && (boot.recorded <==> boot.byManual))
  }

  /** The requests of `past` from the `first` on: without faults each retired
      the record it answers. */
  predicate RequestsRetired(past: Past, first: nat, faults: bool) {
    !faults ==> forall i :: first <= i < |past.requests| ==> past.requests[i].retired
  }

  /** What can happen; `PowerLost` is a reboot whose restore check does not
      come to run. */
  datatype Action =
    | Manual | Stage(pulled: DeploymentId) | Record | StartHealth | Poll(checks: HealthChecks, deadline: bool)
    | Reboot | PowerLost

  datatype Event = Event(action: Action, faulty: bool)

  datatype Moment = Moment(order: Deployments, files: Files, unit: HealthUnit)

  function At(host: Host): Moment
    reads host
  {
    Moment(host.order, host.files, host.unit)
  }

  function Reboots(script: seq<Event>): nat {
    if script == [] then 0
    else Reboots(script[..|script| - 1]) + if IsReboot(script[|script| - 1].action) then 1 else 0
  }

  predicate IsReboot(a: Action) {
    a.Reboot? || a.PowerLost?
  }

  /** What an action makes of a Host where nothing fails. */
  predicate Does(a: Action, m: Moment, n: Moment) {
    match a
    case Manual =>
      && n.unit == m.unit
      && (match ManualStep(Rollbackable(m.order, m.files.pending, m.files.manual), m.unit.finished)
          case Err(e) => n.order == m.order && n.files == if e == NoRollback then m.files.(manual := None) else m.files
          case Ok(s) => n.order == s.order && n.files == m.files.(pending := s.pending, manual := s.manual))
    case Stage(pulled) =>
      if IsEmpty(pulled) || !Fresh(m.order, pulled) then n == m
      else n == Moment(m.order.(staged := pulled),
                       m.files.(record := Some(UpdateRecord(m.order.booted, pulled)), pending := pulled.image), m.unit)
    case Record => n == if m.files.pending == "" then m.(files := m.files.(pending := m.order.staged.image)) else m
    case StartHealth =>
      n == if m.unit == HealthUnit("", false) then m.(unit := HealthUnit(m.files.pending, m.files.pending == "")) else m
    case Poll(checks, deadline) => if m.unit.watching == "" then n == m else Polls(checks, deadline, m, n)
    case Reboot => Boots(m, n)
    case PowerLost => n == Moment(Restarted(m.order), m.files, HealthUnit("", false))
  }

  /** One turn of health's loop. */
  predicate Polls(checks: HealthChecks, deadline: bool, m: Moment, n: Moment) {
    if !PendingIsThisBoot(m.unit.watching, m.order.booted.image) then n == m.(unit := HealthUnit("", true))
    else if Works(checks) then
      n == Moment(m.order, Files("", None, m.files.manual,
                                 Some(UpdateOutcome(m.order.booted.image, AcceptedRelease, None, None)),
                                   m.files.restore),
                  HealthUnit("", true))
    else if !deadline then n == m
    else if IsEmpty(m.order.rollback) then n == Moment(m.order, m.files.(pending := ""), HealthUnit("", true))
    else
      && Some(n.order) == RolledBack(m.order) && n.unit == HealthUnit("", true)
      && n.files.outcome.Some? && n.files.outcome.value.reason.Some?
      && FirstFailure(checks, n.files.outcome.value.reason.value)
      && n.files == m.files.(pending := "", outcome := Some(UpdateOutcome(m.order.booted.image, RolledBackRelease,
                               n.files.outcome.value.reason, None)))
  }

  /** A boot and its restore check. */
  predicate Boots(m: Moment, n: Moment) {
    var next := Restarted(m.order);
    var returned := m.files.record.Some? && ReturnedFromUpdate(m.files.record.value, next);
    && n.order == next && n.unit == HealthUnit("", false)
    && n.files.pending == m.files.pending && n.files.manual.None?
    && (if returned then n.files.record.None? && n.files.restore == Some(m.files.record.value.update.image)
        else n.files.record == m.files.record && n.files.restore == m.files.restore)
    && n.files.outcome ==
         if Activated(m.files.manual, next) then
           Some(UpdateOutcome(m.files.manual.value.source.image, RolledBackRelease, None,
                              Some(ManualOutcome(m.files.manual.value.target.image, returned))))
         else m.files.outcome
  }

  /** Without faults the power is not lost before a check either. */
  function Taken(e: Event, faults: bool): Action {
    if e.action.PowerLost? && !faults then Reboot else e.action
  }

  /** Every action of the script is taken: what does not fail does what it
      means, and a boot is one more in the history. */
  predicate Follows(script: seq<Event>, faults: bool, moments: seq<Moment>) {
    && |moments| == |script| + 1
    && forall k :: 0 <= k < |script| && (script[k].action.PowerLost? || !(script[k].faulty && faults)) ==>
         Does(Taken(script[k], faults), moments[k], moments[k + 1])
  }

  /** Over every run, a pre-update restoration is requested only on a direct
      return from an update boot that was not accepted, and a return is not
      requested again once a request has retired its record. In every run
      without faults each request does, so each return is requested at most
      once, and a manual rollback is recorded exactly on the boots that
      activated one an administrator had queued. */
  method AnyRun(host: Host, faults: bool, script: seq<Event>) returns (ghost moments: seq<Moment>)
    requires host.Valid() && (faults || host.Untroubled())
    modifies host
    ensures host.Valid() && (faults || host.Untroubled())
    ensures |moments| == |script| + 1 && Follows(script, faults, moments)
    ensures moments[0] == old(At(host)) && moments[|script|] == At(host)
    ensures |host.past.boots| == |old(host.past.boots)| + Reboots(script)
    ensures forall q :: q in host.past.requests ==> Answers(host.past.boots, q)
    ensures forall i, j :: 0 <= i < j < |host.past.requests| && host.past.requests[i].retired ==>
              host.past.requests[i].updateBoot < host.past.requests[i].at < host.past.requests[j].updateBoot
    ensures old(host.past.requests) <= host.past.requests
    ensures RequestsRetired(host.past, |old(host.past.requests)|, faults)
    ensures !faults ==> forall i, j :: |old(host.past.requests)| <= i < j < |host.past.requests| ==>
              host.past.requests[i].updateBoot != host.past.requests[j].updateBoot
    ensures ManualOutcomes(host.past, |old(host.past.boots)|, faults)
  {
    hide Follows, Does;
    moments := Happens(host, faults, script);
    RequestsAnswered(host.order, host.files, host.unit, host.past);
  }

  /** The script, action by action. */
  method Happens(host: Host, faults: bool, script: seq<Event>) returns (ghost moments: seq<Moment>)
    requires host.Valid() && (faults || host.Untroubled())
    modifies host
    ensures host.Valid() && (faults || host.Untroubled())
    ensures |moments| == |script| + 1 && Follows(script, faults, moments)
    ensures moments[0] == old(At(host)) && moments[|script|] == At(host)
    ensures |host.past.boots| == |old(host.past.boots)| + Reboots(script)
    ensures old(host.past.requests) <= host.past.requests
    ensures RequestsRetired(host.past, |old(host.past.requests)|, faults)
    ensures ManualOutcomes(host.past, |old(host.past.boots)|, faults)
  {
    hide ManualOutcomes, Does, Follows, Sound, Clean;
    moments := [At(host)];
    NoneYet(host.past, faults, At(host));
    for k := 0 to |script|
      invariant host.Valid() && (faults || host.Untroubled())
      invariant |moments| == k + 1 && Follows(script[..k], faults, moments)
      invariant moments[0] == old(At(host)) && moments[k] == At(host)
      invariant |host.past.boots| == |old(host.past.boots)| + Reboots(script[..k])
      invariant ManualOutcomes(host.past, |old(host.past.boots)|, faults)
      invariant old(host.past.requests) <= host.past.requests
      invariant RequestsRetired(host.past, |old(host.past.requests)|, faults)
    {
      assert script[..k + 1] == script[..k] + [script[k]];
      assert script[..k + 1][..k] == script[..k];
      host.faulty := script[k].faulty && faults;
      ghost var before := host.past;
      if IsReboot(script[k].action) {
        OneBoot(host, faults, Taken(script[k], faults), |old(host.past.boots)|);
      } else {
        OneRequest(host, script[k].action);
        SameOutcomes(before, host.past, |old(host.past.boots)|, faults);
      }
      RetiredLater(before, host.past, |old(host.past.requests)|, faults);
      FollowsOneMore(script[..k], script[k], faults, moments, At(host));
      moments := moments + [At(host)];
    }
    assert script[..|script|] == script;
  }

  lemma RetiredLater(a: Past, b: Past, first: nat, faults: bool)
    requires first <= |a.requests| && a.requests <= b.requests
    requires RequestsRetired(a, first, faults) && RequestsRetired(b, |a.requests|, faults)
    ensures RequestsRetired(b, first, faults)
  {
  }

  lemma NoneYet(past: Past, faults: bool, m: Moment)
    ensures ManualOutcomes(past, |past.boots|, faults) && Follows([], faults, [m])
  {
  }

  lemma FollowsOneMore(script: seq<Event>, e: Event, faults: bool, moments: seq<Moment>, n: Moment)
    requires Follows(script, faults, moments)
    requires e.action.PowerLost? || !(e.faulty && faults) ==> Does(Taken(e, faults), moments[|script|], n)
    ensures Follows(script + [e], faults, moments + [n])
  {
    hide Does, Taken;
  }

  lemma SameOutcomes(a: Past, b: Past, first: nat, faults: bool)
    requires SameManual(a, b) && ManualOutcomes(a, first, faults)
    ensures ManualOutcomes(b, first, faults)
  {
  }

  lemma RequestsAnswered(d: Deployments, files: Files, unit: HealthUnit, past: Past)
    requires Sound(d, files, unit, past)
    ensures forall q :: q in past.requests ==> Answers(past.boots, q)
    ensures forall i, j :: 0 <= i < j < |past.requests| && past.requests[i].retired ==>
              past.requests[i].updateBoot < past.requests[i].at < past.requests[j].updateBoot
  {
    assert forall i :: 0 <= i < |past.requests| ==> Answers(past.boots, past.requests[i]);
  }

  /** A reboot, with or without its restore check. */
  method OneBoot(host: Host, faults: bool, action: Action, ghost first: nat)
    requires host.Valid() && (faults || (host.Untroubled() && !host.faulty && action.Reboot?)) && IsReboot(action)
    requires first <= |host.past.boots| && ManualOutcomes(host.past, first, faults)
    modifies host`order, host`files, host`unit, host`past
    ensures host.Valid() && (faults || host.Untroubled())
    ensures action.PowerLost? || !host.faulty ==> Does(action, old(At(host)), At(host))
    ensures |host.past.boots| == |old(host.past.boots)| + 1 && ManualOutcomes(host.past, first, faults)
    ensures old(host.past.requests) <= host.past.requests
    ensures RequestsRetired(host.past, |old(host.past.requests)|, faults)
  {
    hide Sound, Clean, Restarted, DirectReturn, ReturnedFromUpdate, Misled, Activated;
    ghost var n := |host.past.boots|;
    ghost var boots := host.past.boots;
    if action.PowerLost? {
      host.Restart();
    } else {
      var check := host.Reboot();
    }
    assert forall i :: 0 <= i < n ==> host.past.boots[i] == boots[i];
  }

  method OneRequest(host: Host, action: Action)
    requires host.Valid() && !IsReboot(action)
    modifies host`order, host`files, host`unit, host`past
    ensures host.Valid() && SameManual(old(host.past), host.past)
    ensures !host.faulty ==> Does(action, old(At(host)), At(host))
    ensures !host.faulty && old(host.Untroubled()) ==> host.Untroubled()
  {
    assert host.past.boots != [];
    hide Sound, Clean, PendingIsThisBoot, Works, FirstFailure, Fresh, ManualStep;
    match action
    case Manual => var r := host.ManualRollback();
    case Stage(pulled) =>
      if IsEmpty(pulled) || Fresh(host.order, pulled) { var staged := host.Stage(pulled); }
    case Record => host.RecordStagedForHealth();
    case StartHealth =>
      if host.unit == HealthUnit("", false) { host.HealthStart(); }
    case Poll(checks, deadline) =>
      if host.unit.watching != "" { var verdict := host.HealthPoll(checks, deadline); }
  }

  /** The other exception, which needs a power loss. A manual record outlives
      its boot when an update is staged over the rollback it queued and the
      power goes before the update's restore check. The update boots, health
      gives up on it and queues its rollback; the record left lets a manual
      request cancel it, and the failed Release boots once more, unwatched. */
  method StaleRecordCancelsHealth(host: Host, pulled: DeploymentId, checks: HealthChecks)
    requires host.Valid() && !host.faulty && !host.order.rollbackQueued
    requires ManualStep(Rollbackable(host.order, host.files.pending, host.files.manual), host.unit.finished).Ok?
    requires Fresh(host.order, pulled) && Reference(pulled.image) != "" && !Works(checks)
    modifies host
    ensures host.Valid() && host.order == Deployments(pulled, NO_DEPLOYMENT, old(host.order.booted), false)
    ensures host.files.pending == "" && host.unit == HealthUnit("", true)
  {
    BootsOverQueue(host.order, pulled);
    hide Sound, Reference, DirectReturn, ReturnedFromUpdate, Ordered, Misled, Clean, Activated;
    StageOverQueue(host, pulled);
    host.HealthStart();
    var verdict := host.HealthPoll(checks, true);
    assert Reference("") == "" by { EmptyReference(); }
    var cancelled := host.ManualRollback();
  }

  lemma EmptyReference()
    ensures Reference("") == ""
  {
  }

  method StageOverQueue(host: Host, pulled: DeploymentId)
    requires host.Valid() && !host.faulty && !host.order.rollbackQueued
    requires ManualStep(Rollbackable(host.order, host.files.pending, host.files.manual), host.unit.finished).Ok?
    requires Fresh(host.order, pulled)
    modifies host`order, host`files, host`unit, host`past
    ensures host.Valid() && host.unit == HealthUnit("", false)
    ensures host.order == Deployments(pulled, NO_DEPLOYMENT, old(host.order.booted), false)
    ensures host.files.pending == pulled.image && host.files.manual.Some?
  {
    BootsOverQueue(host.order, pulled);
    hide Sound, Ordered, Misled, Clean, Activated, PendingIsThisBoot, Restarted;
    var queued := host.ManualRollback();
    var staged := host.Stage(pulled);
    host.Restart();
  }

  lemma BootsOverQueue(d: Deployments, pulled: DeploymentId)
    requires Fresh(d, pulled) && Ordered(d)
    ensures Restarted(d.(staged := pulled, rollbackQueued := true))
        == Deployments(pulled, NO_DEPLOYMENT, d.booted, false)
    ensures !IsEmpty(pulled) && !IsEmpty(d.booted)
  {
  }

  /** The condition is needed: an administrator's rollback boots, the power
      goes before its restore check, and the outcome is recorded on the boot
      after, which activated nothing. */
  method PowerLossMisleads(host: Host)
    requires host.Valid() && host.Untroubled() && !host.faulty && !host.order.rollbackQueued
    requires ManualStep(Rollbackable(host.order, host.files.pending, host.files.manual), host.unit.finished).Ok?
    modifies host
    ensures host.Valid() && |host.past.boots| == |old(host.past.boots)| + 2
    ensures var first, second := host.past.boots[|host.past.boots| - 2], Last(host.past);
      first.byManual && !first.recorded && !second.byManual && second.recorded
  {
    hide Sound, Restarted, TookEffect, DirectReturn, ReturnedFromUpdate, Ordered, PendingIsThisBoot, Checked, Clean,
         KindOf, ManualStep;
    QueueThenRestart(host);
    ghost var boots := host.past.boots;
    var check := host.Reboot();
    assert host.past.boots[|boots| - 1] == boots[|boots| - 1];
  }

  method QueueThenRestart(host: Host)
    requires host.Valid() && host.Untroubled() && !host.faulty && !host.order.rollbackQueued
    requires ManualStep(Rollbackable(host.order, host.files.pending, host.files.manual), host.unit.finished).Ok?
    modifies host`order, host`files, host`unit, host`past
    ensures host.Valid() && |host.past.boots| == |old(host.past.boots)| + 1
    ensures Last(host.past).byManual && !Last(host.past).recorded && !host.order.rollbackQueued
    ensures Restarted(host.order) == host.order && Activated(host.files.manual, host.order)
  {
    QueuedThenBooted(host.order);
    hide Sound, Restarted, Activated, Ordered, PendingIsThisBoot, Misled, Checked;
    var r := host.ManualRollback();
    assert host.past.byManual;
    host.Restart();
  }

  lemma QueuedThenBooted(d: Deployments)
    requires Ordered(d) && !IsEmpty(d.rollback)
    ensures var booted := Restarted(d.(staged := NO_DEPLOYMENT, rollbackQueued := true));
      Activated(Some(ManualRecord(d.booted, d.rollback)), booted) && Restarted(booted) == booted
  {
  }

  /** With faults a return can be requested twice: the power goes when its
      restoration is requested and the record not yet retired, and the next
      check requests it again. */
  method PowerLossRequestsTwice(host: Host)
    requires host.Valid() && !host.faulty
    requires host.files.record.Some? && ReturnedFromUpdate(host.files.record.value, Restarted(host.order))
    modifies host
    ensures host.Valid() && |host.past.requests| == |old(host.past.requests)| + 2
    ensures old(host.past.requests) <= host.past.requests
    ensures var n := |old(host.past.requests)|;
      && host.past.requests[n].updateBoot == host.past.requests[n + 1].updateBoot
      && !host.past.requests[n].retired && host.past.requests[n + 1].retired
  {
    hide Sound, Restarted, TookEffect, DirectReturn, ReturnedFromUpdate, Ordered, Misled, Activated;
    RequestThenRestart(host);
    var check := host.RestoreCheck();
  }

  method RequestThenRestart(host: Host)
    requires host.Valid() && !host.faulty
    requires host.files.record.Some? && ReturnedFromUpdate(host.files.record.value, Restarted(host.order))
    modifies host`order, host`files, host`unit, host`past
    ensures host.Valid() && host.past.boots != [] && !Checked(host.past) && !Last(host.past).recorded
    ensures host.unit == HealthUnit("", false) && !host.order.rollbackQueued
    ensures host.files.record.Some? && ReturnedFromUpdate(host.files.record.value, host.order)
    ensures host.past.since > 0
    ensures host.past.requests == old(host.past.requests)
        + [Request(|old(host.past.boots)|, host.past.since - 1, false)]
  {
    RestartedTwice(host.order);
    hide Sound, Restarted, TookEffect, DirectReturn, ReturnedFromUpdate, Ordered, Misled, Activated;
    host.Restart();
    host.WriteRequest();
    host.Restart();
  }

  lemma RestartedTwice(d: Deployments)
    requires Ordered(d)
    ensures Restarted(Restarted(d)) == Restarted(d)
    ensures IsEmpty(Restarted(d).staged) && !Restarted(d).rollbackQueued
  {
  }

  /** And staging needs an image that is not a deployment already: the record
      of the update looks like a return from it exactly if the image is the
      rollback deployment. */
  lemma StagedLooksReturned(order: Deployments, pulled: DeploymentId)
    requires Ordered(order) && Identified(pulled)
    ensures ReturnedFromUpdate(UpdateRecord(order.booted, pulled), order) <==> pulled.digest == order.rollback.digest
  {
    assert Reference("") == "";
    hide Reference;
  }

  /** Health is checking an update boot. */
  predicate Checking(order: Deployments, unit: HealthUnit) {
    unit.watching != "" && PendingIsThisBoot(unit.watching, order.booted.image)
  }

  /** The exception. Nothing stops an update being staged while health checks
      an update boot. Its health-pending record then replaces the one that
      keeps manual rollbacks out: one is queued, and when health gives up it
      toggles the queue off again. The failed Release boots once more, with no
      rollback queued, no health record and none of its own in the record. */
  method StagingDuringHealthLosesRollback(host: Host, pulled: DeploymentId, checks: HealthChecks)
    requires host.Valid() && !host.faulty
    requires Checking(host.order, host.unit) && !Works(checks)
    requires !host.order.rollbackQueued && !IsEmpty(host.order.rollback)
    requires Fresh(host.order, pulled) && !PendingIsThisBoot(pulled.image, host.order.booted.image)
    modifies host
    ensures host.Valid() && host.order == old(host.order).(staged := NO_DEPLOYMENT)
    ensures host.files.pending == "" && host.files.record == Some(UpdateRecord(old(host.order.booted), pulled))
  {
    NotYetBooted(host.order, pulled);
    hide Sound, PendingIsThisBoot, DirectReturn, ReturnedFromUpdate, Ordered, Fresh;
    StageThenQueue(host, pulled);
    var verdict := host.HealthPoll(checks, true);
    assert verdict.RollingBack? && !host.order.rollbackQueued;
    var check := host.Reboot();
  }

  lemma NotYetBooted(order: Deployments, pulled: DeploymentId)
    requires Ordered(order) && Fresh(order, pulled)
    ensures !ReturnedFromUpdate(UpdateRecord(order.booted, pulled), order)
  {
  }

  method StageThenQueue(host: Host, pulled: DeploymentId)
    requires host.Valid() && !host.faulty
    requires !host.order.rollbackQueued && !IsEmpty(host.order.rollback)
    requires Fresh(host.order, pulled) && !PendingIsThisBoot(pulled.image, host.order.booted.image)
    modifies host`order, host`files, host`past
    ensures host.Valid() && host.order == old(host.order).(staged := NO_DEPLOYMENT, rollbackQueued := true)
    ensures host.files.record == Some(UpdateRecord(old(host.order.booted), pulled))
  {
    assert pulled != NO_DEPLOYMENT;
    hide Sound, PendingIsThisBoot, Ordered, Fresh;
    var staged := host.Stage(pulled);
    var queued := host.ManualRollback();
  }

  /** And when health accepts the update boot instead, it retires the staged
      update's records: that update boots unchecked, and a rollback from it
      restores nothing. */
  method StagingDuringHealthEscapesHealth(host: Host, pulled: DeploymentId, checks: HealthChecks)
    requires host.Valid() && !host.faulty
    requires Checking(host.order, host.unit) && Works(checks)
    requires Fresh(host.order, pulled)
    modifies host
    ensures host.Valid() && host.order.booted == pulled
    ensures host.files.record.None? && host.unit == HealthUnit("", true)
  {
    hide Sound, PendingIsThisBoot, DirectReturn, ReturnedFromUpdate;
    assert !IsEmpty(pulled) && pulled != NO_DEPLOYMENT;
    var staged := host.Stage(pulled);
    var verdict := host.HealthPoll(checks, false);
    assert verdict.AcceptedBoot? && host.files.pending == "";
    var check := host.Reboot();
    host.HealthStart();
  }
}
