/** The Host update program across boots: staging, health, automatic and manual
    rollback, and the boot-time restore check, over a bootc boot order. */
module HostUpdate {
  import opened Common

  // ----- deployments ------------------------------------------------------------

  /** An empty image means there is no such deployment. */
  datatype DeploymentId = DeploymentId(image: string, digest: string)

  const NO_DEPLOYMENT := DeploymentId("", "")

  predicate IsEmpty(d: DeploymentId) {
    d.image == ""
  }

  const SCHEME := "docker://"

  function BeforeAt(s: string): string {
    if s == "" || s[0] == '@' then "" else [s[0]] + BeforeAt(s[1..])
  }

  /** An image reference without its transport and digest. */
  function Reference(image: string): string {
    BeforeAt(if SCHEME <= image then image[|SCHEME|..] else image)
  }

  predicate PendingIsThisBoot(pending: string, booted: string) {
    Reference(pending) != "" && Reference(booted) != "" && Reference(pending) == Reference(booted)
  }

  /** Digests decide when both are known, else the references. */
  predicate SameDeployment(a: DeploymentId, b: DeploymentId) {
    if a.digest != "" && b.digest != "" then a.digest == b.digest else PendingIsThisBoot(a.image, b.image)
  }

  /** `image` is the image called `name`: behind an optional transport, before
      an optional digest. */
  predicate Names(image: string, name: string) {
    var rest := if "docker://" <= image then image[9..] else image;
    '@' !in name && (rest == name || name + "@" <= rest)
  }

  lemma {:induction false} BeforeAtMeaning(s: string, name: string)
    ensures BeforeAt(s) == name <==> '@' !in name && (s == name || name + "@" <= s)
  {
    if s != "" && s[0] != '@' {
      if name != "" {
        BeforeAtMeaning(s[1..], name[1..]);
        assert name == [name[0]] + name[1..] && s == [s[0]] + s[1..];
        assert name[0] == s[0] ==> (name + "@" <= s <==> name[1..] + "@" <= s[1..]);
      }
    } else if name != "" && name + "@" <= s {
      assert (name + "@")[0] == s[0] && name[0] in name;
    }
  }

  lemma ReferenceMeaning(image: string, name: string)
    ensures Reference(image) == name <==> Names(image, name)
  {
    BeforeAtMeaning(if SCHEME <= image then image[|SCHEME|..] else image, name);
  }

  /** Two deployments are the same by their digests; by the name of their image
      where one has none. */
  lemma SameDeploymentMeaning(a: DeploymentId, b: DeploymentId)
    ensures SameDeployment(a, b) <==>
            if a.digest != "" && b.digest != "" then a.digest == b.digest
            else exists name :: name != "" && Names(a.image, name) && Names(b.image, name)
  {
    ReferenceMeaning(a.image, Reference(a.image));
    ReferenceMeaning(b.image, Reference(b.image));
    hide Reference, Names;
    if name :| name != "" && Names(a.image, name) && Names(b.image, name) {
      ReferenceMeaning(a.image, name);
      ReferenceMeaning(b.image, name);
    }
  }

  lemma PendingMeaning(pending: string, booted: string)
    ensures PendingIsThisBoot(pending, booted) <==>
            exists name :: name != "" && Names(pending, name) && Names(booted, name)
  {
    SameDeploymentMeaning(DeploymentId(pending, ""), DeploymentId(booted, ""));
  }

  datatype Deployments = Deployments(booted: DeploymentId, staged: DeploymentId, rollback: DeploymentId,
    rollbackQueued: bool)

  /** `bootc rollback`: toggles the boot order and discards a staged update. */
  function RolledBack(d: Deployments): Option<Deployments> {
    if IsEmpty(d.rollback) then None
    else Some(d.(staged := NO_DEPLOYMENT, rollbackQueued := !d.rollbackQueued))
  }

  /** A reboot: a staged deployment first, then a queued rollback. */
  function Restarted(d: Deployments): Deployments {
    if !IsEmpty(d.staged) then Deployments(d.staged, NO_DEPLOYMENT, d.booted, false)
    else if d.rollbackQueued then Deployments(d.rollback, NO_DEPLOYMENT, d.booted, false)
    else d
  }

  predicate Identified(d: DeploymentId) {
    d.image != "" && d.digest != ""
  }

  /** Every deployment has a digest of its own. */
  predicate Ordered(d: Deployments) {
    && Identified(d.booted)
    && (d.rollback == NO_DEPLOYMENT || (Identified(d.rollback) && d.rollback.digest != d.booted.digest))
    && (d.staged == NO_DEPLOYMENT || Fresh(d, d.staged))
    && (d.rollbackQueued ==> Identified(d.rollback))
  }

  /** A pulled image that is neither booted nor the rollback deployment. */
  predicate Fresh(d: Deployments, pulled: DeploymentId) {
    Identified(pulled) && pulled.digest != d.booted.digest && pulled.digest != d.rollback.digest
  }

  // ----- records ------------------------------------------------------------------

  datatype UpdateRecord = UpdateRecord(previous: DeploymentId, update: DeploymentId)

  datatype ManualRecord = ManualRecord(source: DeploymentId, target: DeploymentId)

  datatype Verdict = AcceptedRelease | RolledBackRelease

  datatype ManualOutcome = ManualOutcome(target: string, preUpdateNetwork: bool)

  /** `reason` is the health finding behind an automatic rollback. */
  datatype UpdateOutcome = UpdateOutcome(
    release: string,
    verdict: Verdict,
    reason: Option<ApplianceHealth>,
    manual: Option<ManualOutcome>)

  predicate ReturnedFromUpdate(r: UpdateRecord, d: Deployments) {
    SameDeployment(r.previous, d.booted) && SameDeployment(r.update, d.rollback)
  }

  predicate Returned(record: Option<UpdateRecord>, d: Deployments) {
    record.Some? && ReturnedFromUpdate(record.value, d)
  }

  predicate TookEffect(m: ManualRecord, d: Deployments) {
    SameDeployment(m.target, d.booted) && SameDeployment(m.source, d.rollback)
  }

  // ----- manual rollback, without faults --------------------------------------------

  datatype ManualKind = ImageOnly | UnacceptedUpdate

  datatype StepError = HealthUnfinished | NotManual | NoRollback | Faulted

  function KindOf(updateBootPending: bool, healthFinished: bool): Result<ManualKind, StepError> {
    if updateBootPending && !healthFinished then Err(HealthUnfinished)
    else if updateBootPending then Ok(UnacceptedUpdate)
    else Ok(ImageOnly)
  }

  /** What a manual rollback reads and changes. */
  datatype Rollbackable = Rollbackable(order: Deployments, pending: string, manual: Option<ManualRecord>)

  function ManualStep(s: Rollbackable, healthFinished: bool): Result<Rollbackable, StepError> {
    match KindOf(PendingIsThisBoot(s.pending, s.order.booted.image), healthFinished)
    case Err(e) => Err(e)
    case Ok(kind) =>
      var rolled := RolledBack(s.order);
      if s.order.rollbackQueued then
        if s.manual.None? then Err(NotManual)
        else if rolled.None? then Err(NoRollback)
        else Ok(Rollbackable(rolled.value, s.pending, None))
      else if rolled.None? then Err(NoRollback)
      else Ok(Rollbackable(rolled.value, if kind == ImageOnly then "" else s.pending,
                           Some(ManualRecord(s.order.booted, s.order.rollback))))
  }

  /** Requesting and cancelling is the identity exactly when there was nothing
      staged and no stale record, and the health-pending record was absent or
      this boot's own. */
  lemma RequestThenCancel(s: Rollbackable, healthFinished: bool)
    requires !s.order.rollbackQueued && ManualStep(s, healthFinished).Ok?
    requires s.order.staged.image == "" ==> s.order.staged == NO_DEPLOYMENT
    ensures ManualStep(ManualStep(s, healthFinished).value, healthFinished).Ok?
    ensures ManualStep(ManualStep(s, healthFinished).value, healthFinished).value == s <==>
            && IsEmpty(s.order.staged)
            && s.manual.None?
            && (s.pending == "" || PendingIsThisBoot(s.pending, s.order.booted.image))
  {
    assert Reference("") == "";
    hide Reference;
  }

  // ----- health -----------------------------------------------------------------------

  datatype NetdRestoration = NotRunning | Unrestored | Restored

  datatype HealthChecks = HealthChecks(defaultTarget: bool, fwd: bool, mgmt: bool, netd: NetdRestoration, ui: bool)

  datatype ApplianceHealth =
    | Healthy | DefaultTargetNotReached | FwdMissing | MgmtMissing | NetdNotRunning | DesiredStateNotRestored
    | UiNotRunning

  function AssessHealth(c: HealthChecks): ApplianceHealth {
    if !c.defaultTarget then DefaultTargetNotReached
    else if !c.fwd then FwdMissing
    else if !c.mgmt then MgmtMissing
    else if c.netd.NotRunning? then NetdNotRunning
    else if c.netd.Unrestored? then DesiredStateNotRestored
    else if !c.ui then UiNotRunning
    else Healthy
  }

  /** The appliance works: it booted, both namespaces exist, netd runs and has
      restored the Desired state, and the UI runs. */
  predicate Works(c: HealthChecks) {
    c.defaultTarget && c.fwd && c.mgmt && c.netd == Restored && c.ui
  }

  /** `h` names a check that failed, all before it having passed. */
  predicate FirstFailure(c: HealthChecks, h: ApplianceHealth) {
    match h
    case Healthy => false
    case DefaultTargetNotReached => !c.defaultTarget
    case FwdMissing => c.defaultTarget && !c.fwd
    case MgmtMissing => c.defaultTarget && c.fwd && !c.mgmt
    case NetdNotRunning => c.defaultTarget && c.fwd && c.mgmt && c.netd == NotRunning
    case DesiredStateNotRestored => c.defaultTarget && c.fwd && c.mgmt && c.netd == Unrestored
    case UiNotRunning => c.defaultTarget && c.fwd && c.mgmt && c.netd == Restored && !c.ui
  }

  lemma HealthMeaning(c: HealthChecks)
    ensures AssessHealth(c) == Healthy <==> Works(c)
    ensures AssessHealth(c) != Healthy <==> FirstFailure(c, AssessHealth(c))
  {
  }

  datatype HealthVerdict = Waiting | OtherBoot | AcceptedBoot | RollingBack | RollbackFailed | Undecided

  /** A boot: what ran, whether its restore check finished, whether an
      acceptance on it retired the update record, whether it activated a
      rollback an administrator had queued, whether its check recorded a manual
      rollback, and whether a stale manual record could make it do so. */
  datatype Boot = Boot(deployment: DeploymentId, checked: bool, released: bool, byManual: bool, recorded: bool,
    misled: bool)

  /** A restoration request: the boot that made it, the last boot of the
      update it returns from, and whether its record was retired with it. */
  datatype Request = Request(at: nat, updateBoot: nat, retired: bool)

  /** Files in the shared /var. */
  datatype Files = Files(
    pending: string,
    record: Option<UpdateRecord>,
    manual: Option<ManualRecord>,
    outcome: Option<UpdateOutcome>,
    restore: Option<string>)

  /** The health unit on this boot: what it read when it started, until it exits. */
  datatype HealthUnit = HealthUnit(watching: string, finished: bool)

  /** What really happened: every boot, where the current run of boots of one
      deployment began, when the records were written, whether the queued
      rollback is an administrator's, whether an update was staged on this
      boot before health had exited, and the restorations requested. */
  datatype Past = Past(
    boots: seq<Boot>,
    since: nat,
    stagedAt: nat,
    manualAt: nat,
    byManual: bool,
    raced: bool,
    requests: seq<Request>)

  function Last(past: Past): Boot
    requires past.boots != []
  {
    past.boots[|past.boots| - 1]
  }

  /** This boot's restore check has finished. */
  predicate Checked(past: Past)
    requires past.boots != []
  {
    Last(past).checked
  }

  /** The history tells who queued the rollback that is queued after a manual
      request, and the boot a new manual record is of. */
  predicate TellsManual(a: Past, wasQueued: bool, wasManual: Option<ManualRecord>, b: Past, queued: bool,
                        manual: Option<ManualRecord>)
  {
    && b == a.(manualAt := b.manualAt, byManual := b.byManual)
    && b.byManual == (a.byManual || (queued && !wasQueued))
    && (b.manualAt == a.manualAt || b.manualAt == |b.boots| - 1)
    && (manual.Some? && manual != wasManual ==> b.manualAt == |b.boots| - 1)
  }

  /** An acceptance that retires the update record is told in its boot. */
  predicate TellsRelease(a: Past, wasRecorded: Option<UpdateRecord>, b: Past, recorded: Option<UpdateRecord>)
    requires a.boots != []
  {
    || (b == a && recorded == wasRecorded)
    || (b == a.(boots := b.boots) && b.boots == a.boots[|a.boots| - 1 := Last(a).(released := true)] && recorded.None?)
  }

  /** One boot more, of what the order says; nothing is queued or raced yet. */
  predicate TellsBoot(a: Past, d: Deployments, b: Past) {
    && b.boots != []
    && b == a.(boots := a.boots + [Last(b)], since := b.since, byManual := false, raced := false)
    && b.since == (if IsEmpty(d.staged) && !d.rollbackQueued then a.since else |a.boots|)
    && Last(b) == Boot(if !IsEmpty(d.staged) then d.staged else if d.rollbackQueued then d.rollback else d.booted,
                       false, false, IsEmpty(d.staged) && d.rollbackQueued && a.byManual, false, Last(b).misled)
  }

  /** The rollback deployment is the one booted before the current run of
      boots of one deployment. */
  ghost predicate Trail(past: Past, booted: DeploymentId, rollback: DeploymentId) {
    && past.since < |past.boots|
    && (forall i :: past.since <= i < |past.boots| ==> past.boots[i].deployment == booted)
    && (past.since > 0 ==> past.boots[past.since - 1].deployment == rollback)
  }

  /** The record names the Release that staged the update, no acceptance has
      retired it, and the update is the rollback deployment only if it was
      booted since; a return from it has not been checked. */
  ghost predicate RecordKnown(past: Past, r: UpdateRecord, booted: DeploymentId, rollback: DeploymentId) {
    && past.stagedAt < |past.boots|
    && past.boots[past.stagedAt].deployment == r.previous
    && Identified(r.previous) && Identified(r.update) && r.previous.digest != r.update.digest
    && (r.update.digest == rollback.digest ==> past.since > 0 && past.since - 1 > past.stagedAt)
    && (forall i :: past.stagedAt < i < |past.boots| ==> !past.boots[i].released)
    && (r.update.digest == rollback.digest && r.previous.digest == booted.digest ==>
          forall i :: past.since <= i < |past.boots| ==> !past.boots[i].checked)
  }

  /** A manual record outlives its boot only while no restore check finishes. */
  ghost predicate ManualKnown(past: Past, m: ManualRecord, booted: DeploymentId, rollback: DeploymentId) {
    && past.manualAt < |past.boots|
    && (forall i :: past.manualAt < i < |past.boots| ==> !past.boots[i].checked)
    && (past.manualAt == |past.boots| - 1 ==> m == ManualRecord(booted, rollback))
  }

  /** Until health has exited on an update boot, it owns the rollback; one it
      queues has no manual record. */
  predicate HealthOwns(unit: HealthUnit, files: Files, booted: string, queued: bool, byManual: bool) {
    && (queued && !byManual ==> files.manual.None?)
    && (!unit.finished && PendingIsThisBoot(files.pending, booted) ==> files.manual.None? && !queued)
    && (unit.watching != "" && PendingIsThisBoot(unit.watching, booted) ==> files.pending == unit.watching)
  }

  /** A request was made on a boot of one Release that follows, through none
      but boots of the same Release whose checks did not finish, a boot of
      another one that was not accepted. */
  ghost predicate Answers(boots: seq<Boot>, q: Request) {
    && q.updateBoot < q.at < |boots|
    && !boots[q.updateBoot].released
    && (forall i :: q.updateBoot < i <= q.at ==> boots[i].deployment.digest != boots[q.updateBoot].deployment.digest)
    && (forall i :: q.updateBoot < i < q.at ==> boots[i].deployment == boots[q.at].deployment && !boots[i].checked)
  }

  /** Each request answers one return from one update boot, and a retired
      record is never answered again. */
  ghost predicate RequestsKnown(past: Past, recorded: bool) {
    && (forall i :: 0 <= i < |past.requests| ==> Answers(past.boots, past.requests[i]))
    && (forall i, j :: 0 <= i < j < |past.requests| && past.requests[i].retired ==>
        past.requests[i].at < past.requests[j].updateBoot)
    && (recorded ==> forall i :: 0 <= i < |past.requests| && past.requests[i].retired ==>
        past.requests[i].at <= past.stagedAt)
  }

  ghost predicate Sound(d: Deployments, files: Files, unit: HealthUnit, past: Past) {
    && Ordered(d)
    && Trail(past, d.booted, d.rollback)
    && (files.record.Some? ==> RecordKnown(past, files.record.value, d.booted, d.rollback))
    && (files.manual.Some? ==> ManualKnown(past, files.manual.value, d.booted, d.rollback))
    && (d.rollbackQueued && past.byManual ==> files.manual.Some? && past.manualAt == |past.boots| - 1)
    && (unit.watching != "" ==> !unit.finished)
    && (Checked(past) && !past.raced ==> HealthOwns(unit, files, d.booted.image, d.rollbackQueued, past.byManual))
    && RequestsKnown(past, files.record.Some?)
  }

  // ----- each write keeps the whole sound -------------------------------------------

  lemma CancelSound(d: Deployments, files: Files, unit: HealthUnit, past: Past)
    requires Sound(d, files, unit, past) && d.rollbackQueued
    requires files.manual.Some?
    requires KindOf(PendingIsThisBoot(files.pending, d.booted.image), unit.finished).Ok?
    ensures RolledBack(d).Some?
    ensures Sound(RolledBack(d).value, files, unit, past)
    ensures Sound(RolledBack(d).value, files.(manual := None), unit, past)
  {
    hide PendingIsThisBoot, Trail, RecordKnown, ManualKnown, RequestsKnown;
  }

  lemma RecordManualSound(d: Deployments, files: Files, unit: HealthUnit, past: Past)
    requires Sound(d, files, unit, past) && !d.rollbackQueued
    requires KindOf(PendingIsThisBoot(files.pending, d.booted.image), unit.finished).Ok?
    ensures Sound(d, files.(manual := Some(ManualRecord(d.booted, d.rollback))), unit,
        past.(manualAt := |past.boots| - 1))
    ensures Sound(d, files.(manual := None), unit, past.(manualAt := |past.boots| - 1))
  {
    hide PendingIsThisBoot;
  }

  lemma QueueManualSound(d: Deployments, files: Files, unit: HealthUnit, past: Past)
    requires Sound(d, files, unit, past) && !d.rollbackQueued && RolledBack(d).Some?
    requires files.manual.Some? && past.manualAt == |past.boots| - 1
    requires KindOf(PendingIsThisBoot(files.pending, d.booted.image), unit.finished).Ok?
    ensures Sound(RolledBack(d).value, files, unit, past.(byManual := true))
    ensures KindOf(PendingIsThisBoot(files.pending, d.booted.image), unit.finished) == Ok(ImageOnly) ==>
              Sound(RolledBack(d).value, files.(pending := ""), unit, past.(byManual := true))
  {
    assert Reference("") == "";
    hide Reference;
  }

  lemma SwitchSound(d: Deployments, files: Files, unit: HealthUnit, past: Past, pulled: DeploymentId)
    requires Sound(d, files, unit, past) && Fresh(d, pulled)
    ensures Sound(d.(staged := pulled), files, unit, past)
    ensures Sound(d.(staged := pulled), files.(record := Some(UpdateRecord(d.booted, pulled))), unit,
                  past.(stagedAt := |past.boots| - 1))
  {
    hide PendingIsThisBoot;
  }

  lemma PendingSound(d: Deployments, files: Files, unit: HealthUnit, past: Past, image: string)
    requires Sound(d, files, unit, past)
    ensures Sound(d, files.(pending := image), unit, past.(raced := past.raced || !unit.finished))
  {
    hide PendingIsThisBoot;
  }

  lemma WatchSound(d: Deployments, files: Files, past: Past)
    requires Sound(d, files, HealthUnit("", false), past)
    ensures Sound(d, files, HealthUnit(files.pending, files.pending == ""), past)
  {
    hide PendingIsThisBoot, Trail, RecordKnown, ManualKnown, RequestsKnown, TookEffect;
  }

  /** The health unit exits: it may have cleared the pending record. */
  lemma ExitSound(d: Deployments, files: Files, unit: HealthUnit, past: Past)
    requires Sound(d, files, unit, past)
    ensures forall pending, outcome ::
      Sound(d, files.(pending := pending, outcome := outcome), HealthUnit("", true), past)
  {
    hide PendingIsThisBoot, Trail, RecordKnown, ManualKnown, RequestsKnown, TookEffect;
  }

  lemma ReleaseSound(d: Deployments, files: Files, unit: HealthUnit, past: Past)
    requires Sound(d, files, unit, past)
    ensures Sound(d, files.(record := None), unit, Released(past))
  {
    hide PendingIsThisBoot, TookEffect;
  }

  /** The same boots but for acceptances, and the same requests. */
  predicate SameManual(a: Past, b: Past) {
    && a.requests == b.requests
    && |a.boots| == |b.boots|
    && forall i :: 0 <= i < |a.boots| ==> b.boots[i] == a.boots[i].(released := b.boots[i].released)
  }

  function Released(past: Past): Past
    requires past.boots != []
  {
    past.(boots := past.boots[|past.boots| - 1 := Last(past).(released := true)])
  }

  lemma AutoRollbackSound(d: Deployments, files: Files, unit: HealthUnit, past: Past)
    requires Sound(d, files, unit, past) && RolledBack(d).Some?
    requires unit.watching != "" && PendingIsThisBoot(unit.watching, d.booted.image)
    ensures Checked(past) && !past.raced ==> !d.rollbackQueued && files.manual.None?
    ensures Sound(RolledBack(d).value, files, unit.(watching := "", finished := true), past.(byManual := false))
  {
    hide PendingIsThisBoot;
  }

  // ----- reboots --------------------------------------------------------------------

  predicate Activated(manual: Option<ManualRecord>, d: Deployments) {
    manual.Some? && TookEffect(manual.value, d)
  }

  /** A manual record takes effect at the coming reboot though no
      administrator's rollback is queued: it is left from a boot whose check
      did not finish, or health queued the rollback, or a cancel failed. */
  predicate Misled(d: Deployments, manual: Option<ManualRecord>, byManual: bool) {
    !(d.rollbackQueued && byManual) && Activated(manual, Restarted(d))
  }

  function Rebooted(d: Deployments, manual: Option<ManualRecord>, past: Past): Past
    requires past.boots != []
  {
    past.(
      boots := past.boots + [Boot(Restarted(d).booted, false, false, IsEmpty(d.staged) && d.rollbackQueued
        && past.byManual,
                                  false, Misled(d, manual, past.byManual))],
      since := if !IsEmpty(d.staged) || d.rollbackQueued then |past.boots| else past.since,
      byManual := false,
      raced := false)
  }

  lemma RestartOrdered(d: Deployments)
    requires Ordered(d)
    ensures Ordered(Restarted(d)) && !Restarted(d).rollbackQueued && IsEmpty(Restarted(d).staged)
    ensures IsEmpty(d.staged) && !d.rollbackQueued ==> Restarted(d) == d
    ensures !IsEmpty(d.staged) || d.rollbackQueued ==>
        Restarted(d).rollback == d.booted && Restarted(d).booted.digest != d.booted.digest
    ensures TookEffect(ManualRecord(d.booted, d.rollback), Restarted(d)) <==> IsEmpty(d.staged) && d.rollbackQueued
  {
    assert Reference("") == "";
    hide Reference;
  }

  /** A reboot activates a manual record's rollback exactly when it is queued
      and nothing is staged, or when the staged image is the rollback
      deployment again. */
  lemma TakesEffectWhen(d: Deployments)
    requires Ordered(d.(staged := NO_DEPLOYMENT)) && (d.staged != NO_DEPLOYMENT ==> Identified(d.staged))
    requires d.staged.digest != d.booted.digest
    ensures TookEffect(ManualRecord(d.booted, d.rollback), Restarted(d)) <==>
              if IsEmpty(d.staged) then d.rollbackQueued else d.staged.digest == d.rollback.digest
  {
    assert Reference("") == "";
    hide Reference;
  }

  lemma RestartTrail(d: Deployments, manual: Option<ManualRecord>, past: Past)
    requires Ordered(d) && Trail(past, d.booted, d.rollback)
    ensures Trail(Rebooted(d, manual, past), Restarted(d).booted, Restarted(d).rollback)
  {
    RestartOrdered(d);
    hide Ordered, TookEffect;
  }

  lemma RestartRecordKnown(d: Deployments, manual: Option<ManualRecord>, past: Past, r: UpdateRecord)
    requires Ordered(d) && Trail(past, d.booted, d.rollback) && RecordKnown(past, r, d.booted, d.rollback)
    ensures RecordKnown(Rebooted(d, manual, past), r, Restarted(d).booted, Restarted(d).rollback)
  {
    RestartOrdered(d);
    hide Ordered, TookEffect, Identified;
    var next := Rebooted(d, manual, past);
    assert forall i :: 0 <= i < |past.boots| ==> next.boots[i] == past.boots[i];
    if past.stagedAt == |past.boots| - 1 { assert past.boots[past.stagedAt].deployment == d.booted; }
  }

  lemma RestartSound(d: Deployments, files: Files, unit: HealthUnit, past: Past)
    requires Sound(d, files, unit, past)
    ensures Sound(Restarted(d), files, HealthUnit("", false), Rebooted(d, files.manual, past))
  {
    RestartOrdered(d);
    RestartTrail(d, files.manual, past);
    if files.record.Some? { RestartRecordKnown(d, files.manual, past, files.record.value); }
    hide Ordered, TookEffect, Trail, RecordKnown, PendingIsThisBoot, Restarted, Misled;
    var next := Rebooted(d, files.manual, past);
    assert forall i :: 0 <= i < |past.boots| ==> next.boots[i] == past.boots[i];
    assert |past.boots| > 0 by { assert past.boots != []; }
  }

  /** What a manual record is evidence of: at any reboot it takes effect if an
      administrator's rollback is activated, or if the boot is misled, and
      never both. */
  lemma ActivatedMeaning(d: Deployments, files: Files, unit: HealthUnit, past: Past)
    requires Sound(d, files, unit, past) && past.boots != []
    ensures var boot := Last(Rebooted(d, files.manual, past));
      && (Activated(files.manual, Restarted(d)) <==> boot.byManual || boot.misled)
      && !(boot.byManual && boot.misled)
    ensures Checked(past) && !past.raced ==> !Misled(d, files.manual, past.byManual)
    ensures Clean(d, files, unit, past) ==> !Misled(d, files.manual, past.byManual)
  {
    RestartOrdered(d);
    hide Ordered, TookEffect, Trail, RecordKnown, PendingIsThisBoot, Restarted, RequestsKnown;
  }

  /** Which record misleads a reboot, in terms of the boot order: one that names
      the two deployments the reboot goes from and to, or that a reboot without
      a change finds in place. It is of an earlier boot, or health queued the
      rollback. */
  lemma MisledMeaning(d: Deployments, files: Files, unit: HealthUnit, past: Past)
    requires Sound(d, files, unit, past)
    ensures Misled(d, files.manual, past.byManual) <==>
      && files.manual.Some? && !(d.rollbackQueued && past.byManual)
      && var m := files.manual.value;
        if !IsEmpty(d.staged) then SameDeployment(m.target, d.staged) && SameDeployment(m.source, d.booted)
        else if d.rollbackQueued then SameDeployment(m.target, d.rollback) && SameDeployment(m.source, d.booted)
        else SameDeployment(m.target, d.booted) && SameDeployment(m.source, d.rollback)
    ensures Misled(d, files.manual, past.byManual) ==>
      past.manualAt + 1 < |past.boots| || (d.rollbackQueued && !past.byManual)
  {
    RestartOrdered(d);
    hide SameDeployment, Trail, RecordKnown, RequestsKnown, Ordered;
  }

  /** Without faults: a manual record is of this boot, and stands for the
      administrator's queued rollback, or for one that health, now exited,
      toggled off. */
  predicate Clean(d: Deployments, files: Files, unit: HealthUnit, past: Past) {
    files.manual.Some? ==>
      past.manualAt + 1 == |past.boots| && if d.rollbackQueued then past.byManual else unit.finished
  }

  function CheckedBoots(past: Past): Past
    requires past.boots != []
  {
    past.(boots := past.boots[|past.boots| - 1 := Last(past).(checked := true)])
  }

  function Recorded(past: Past, recorded: bool): Past
    requires past.boots != []
  {
    past.(boots := past.boots[|past.boots| - 1 := Last(past).(recorded := recorded)])
  }

  lemma RecordedSound(d: Deployments, files: Files, unit: HealthUnit, past: Past, recorded: bool)
    requires Sound(d, files, unit, past)
    ensures Sound(d, files, unit, Recorded(past, recorded))
  {
    hide PendingIsThisBoot, TookEffect;
  }

  lemma OutcomeSound(d: Deployments, files: Files, unit: HealthUnit, past: Past)
    requires Sound(d, files, unit, past)
    ensures forall outcome :: Sound(d, files.(outcome := outcome), unit, past)
    ensures !d.rollbackQueued ==> forall outcome :: Sound(d, files.(outcome := outcome, manual := None), unit, past)
  {
    hide PendingIsThisBoot, Trail, RecordKnown, ManualKnown, RequestsKnown;
  }

  /** The check is done: nothing manual is left, and no return unanswered. */
  lemma CheckedSound(d: Deployments, files: Files, past: Past)
    requires Sound(d, files, HealthUnit("", false), past) && !d.rollbackQueued && files.manual.None?
    requires files.record.Some? ==> !ReturnedFromUpdate(files.record.value, d)
    ensures Sound(d, files, HealthUnit("", false), CheckedBoots(past))
  {
    hide PendingIsThisBoot, TookEffect;
  }

  /** What a return means: the last boot of another deployment was of the
      update, no boot since its staging was accepted and retired the record,
      and no check has finished since that boot. */
  ghost predicate DirectReturn(past: Past, r: UpdateRecord) {
    && 0 < past.since < |past.boots|
    && past.stagedAt < past.since - 1
    && past.boots[past.stagedAt].deployment == r.previous
    && past.boots[past.since - 1].deployment.digest == r.update.digest
    && (forall i :: past.since <= i < |past.boots| ==>
          past.boots[i].deployment.digest == r.previous.digest && (i < |past.boots| - 1 ==> !past.boots[i].checked))
    && (forall i :: past.stagedAt < i < |past.boots| ==> !past.boots[i].released)
  }

  lemma ReturnIsDirect(d: Deployments, files: Files, unit: HealthUnit, past: Past)
    requires Sound(d, files, unit, past) && files.record.Some? && ReturnedFromUpdate(files.record.value, d)
    ensures DirectReturn(past, files.record.value)
  {
    assert Reference("") == "";
    hide Reference, HealthOwns, TookEffect;
  }

  function Requested(past: Past, retired: bool): Past
    requires past.boots != [] && past.since > 0
  {
    past.(requests := past.requests + [Request(|past.boots| - 1, past.since - 1, retired)])
  }

  /** A request written down for the return `b` is on: the one more that `b`
      has, with its record retired if it `must` be. */
  predicate Requests(a: Past, b: Past, requested: bool, must: bool) {
    if !requested then b.requests == a.requests
    else
      && |b.requests| == |a.requests| + 1 && a.requests <= b.requests
      && var q := b.requests[|a.requests|];
        q.at == |b.boots| - 1 && q.updateBoot == b.since - 1 && (must ==> q.retired)
  }

  lemma RequestAnswers(past: Past, r: UpdateRecord, booted: DeploymentId, rollback: DeploymentId)
    requires Trail(past, booted, rollback) && DirectReturn(past, r) && r.previous.digest != r.update.digest
    ensures Answers(past.boots, Request(|past.boots| - 1, past.since - 1, false))
    ensures Answers(past.boots, Request(|past.boots| - 1, past.since - 1, true))
  {
  }

  lemma RequestKnown(past: Past, recorded: bool, retired: bool)
    requires RequestsKnown(past, true) && 0 < past.since <= |past.boots| && past.stagedAt < past.since - 1
    requires Answers(past.boots, Request(|past.boots| - 1, past.since - 1, retired)) && (recorded ==> !retired)
    ensures RequestsKnown(Requested(past, retired), recorded)
  {
    hide Answers;
    var next := Requested(past, retired);
    assert forall i :: 0 <= i < |past.requests| ==> next.requests[i] == past.requests[i];
  }

  lemma RequestSound(d: Deployments, files: Files, unit: HealthUnit, past: Past, restore: string)
    requires Sound(d, files, unit, past) && files.record.Some? && DirectReturn(past, files.record.value)
    ensures Sound(d, files.(restore := Some(restore)), unit, Requested(past, false))
    ensures Sound(d, files.(restore := Some(restore), record := None), unit, Requested(past, true))
  {
    assert files.record.value.previous.digest != files.record.value.update.digest;
    RequestAnswers(past, files.record.value, d.booted, d.rollback);
    RequestKnown(past, true, false);
    RequestKnown(past, false, true);
    hide PendingIsThisBoot, TookEffect, HealthOwns, Ordered, Identified, RequestsKnown, DirectReturn;
  }

  /** How a restore check ended: whether it finished, recorded a manual
      rollback, and requested the pre-update network. */
  datatype CheckResult = CheckResult(done: bool, manual: bool, requested: bool)

  class Host {
    /** bootc's boot order. */
    var order: Deployments
    var files: Files
    var unit: HealthUnit
    /** Whether the environment may inject faults. */
    var faulty: bool
    ghost var past: Past

    ghost predicate Valid()
      reads this
    {
      Sound(order, files, unit, past)
    }

    ghost predicate Untroubled()
      reads this
    {
      Clean(order, files, unit, past)
    }

    /** An appliance that has never been updated, on its checked first boot. */
    constructor (booted: DeploymentId, rollback: DeploymentId)
      requires Ordered(Deployments(booted, NO_DEPLOYMENT, rollback, false))
      ensures Valid() && Untroubled() && past.requests == []
          && order == Deployments(booted, NO_DEPLOYMENT, rollback, false)
    {
      order := Deployments(booted, NO_DEPLOYMENT, rollback, false);
      files := Files("", None, None, None, None);
      unit := HealthUnit("", false);
      faulty := true;
      past := Past([Boot(booted, true, false, false, false, false)], 0, 0, 0, false, false, []);
    }

    // ----- requests -----------------------------------------------------------------

    /** `manual_rollback_step`. A fault leaves it between two operations. */
    method ManualRollback() returns (r: Result<ManualKind, StepError>)
      requires Valid()
      modifies `order, `files, `past
      ensures Valid()
      ensures TellsManual(old(past), old(order.rollbackQueued), old(files.manual), past, order.rollbackQueued,
          files.manual)
      ensures !faulty && old(Untroubled()) ==> Untroubled()
      ensures !faulty ==>
        match ManualStep(Rollbackable(old(order), old(files.pending), old(files.manual)), unit.finished)
        case Err(e) => r == Err(e) && order == old(order)
                       && files == if e == NoRollback then old(files).(manual := None) else old(files)
        case Ok(s) => r.Ok? && order == s.order && files == old(files).(pending := s.pending, manual := s.manual)
      ensures !faulty && old(order.rollbackQueued) ==>
        (!order.rollbackQueued <==>
           && old(files.manual).Some?
           && (PendingIsThisBoot(old(files.pending), old(order.booted.image)) ==> unit.finished))
      ensures !faulty && old(Untroubled()) && old(order.rollbackQueued) && !old(past.byManual) ==> order == old(order)
      ensures old(past.boots) != [] && old(Checked(past)) && !old(past.raced)
              && old(order.rollbackQueued) && !old(past.byManual) ==>
                r.Err? && order == old(order) && files == old(files)
    {
      assert past.boots != [];
      hide PendingIsThisBoot, Trail, RecordKnown, ManualKnown, RequestsKnown;
      var fault: bool :| fault ==> faulty;
      if fault { return Err(Faulted); }
      var kind := KindOf(PendingIsThisBoot(files.pending, order.booted.image), unit.finished);
      if kind.Err? { return Err(kind.error); }
      if !order.rollbackQueued {
        r := QueueManual(kind.value);
      } else if files.manual.None? {
        r := Err(NotManual);
      } else {
        r := CancelManual(kind.value);
      }
    }

    method CancelManual(kind: ManualKind) returns (r: Result<ManualKind, StepError>)
      requires Valid() && past.boots != [] && order.rollbackQueued && files.manual.Some?
      requires KindOf(PendingIsThisBoot(files.pending, order.booted.image), unit.finished) == Ok(kind)
      modifies `order, `files
      ensures Valid() && (files.manual.None? || files.manual == old(files.manual))
      ensures !faulty && old(Untroubled()) ==> Untroubled()
      ensures !faulty ==> r == Ok(kind) && Some(order) == RolledBack(old(order)) && files == old(files).(manual := None)
    {
      CancelSound(order, files, unit, past);
      hide Sound, PendingIsThisBoot;
      var fault: bool :| fault ==> faulty;
      if fault { return Err(Faulted); }
      order := RolledBack(order).value;
      fault :| fault ==> faulty;
      if fault { return Err(Faulted); }
      files := files.(manual := None);
      r := Ok(kind);
    }

    method QueueManual(kind: ManualKind) returns (r: Result<ManualKind, StepError>)
      requires Valid() && past.boots != [] && !order.rollbackQueued
      requires KindOf(PendingIsThisBoot(files.pending, order.booted.image), unit.finished) == Ok(kind)
      modifies `order, `files, `past
      ensures Valid() && TellsManual(old(past), false, old(files.manual), past, order.rollbackQueued, files.manual)
      ensures !faulty && old(Untroubled()) ==> Untroubled()
      ensures !faulty ==>
        match RolledBack(old(order))
        case None => r == Err(NoRollback) && order == old(order) && files == old(files).(manual := None)
        case Some(rolled) =>
          && r == Ok(kind) && order == rolled
          && files == old(files).(manual := Some(ManualRecord(old(order.booted), old(order.rollback))),
                                  pending := if kind == ImageOnly then "" else old(files.pending))
    {
      var written := WriteManual();
      if !written { return Err(Faulted); }
      r := ActivateManual(kind);
    }

    method WriteManual() returns (ok: bool)
      requires Valid() && past.boots != [] && !order.rollbackQueued
      requires KindOf(PendingIsThisBoot(files.pending, order.booted.image), unit.finished).Ok?
      modifies `files, `past
      ensures Valid() && TellsManual(old(past), false, old(files.manual), past, false, files.manual)
      ensures past.byManual == old(past.byManual)
      ensures !faulty ==> ok
      ensures files.pending == old(files.pending)
      ensures ok ==> files == old(files).(manual := Some(ManualRecord(order.booted, order.rollback)))
                     && past.manualAt == |past.boots| - 1
    {
      RecordManualSound(order, files, unit, past);
      hide Sound;
      var fault: bool :| fault ==> faulty;
      var visible: bool := *;
      if !fault || visible {
        files := files.(manual := Some(ManualRecord(order.booted, order.rollback)));
        past := past.(manualAt := |past.boots| - 1);
      }
      ok := !fault;
    }

    method ActivateManual(kind: ManualKind) returns (r: Result<ManualKind, StepError>)
      requires Valid() && past.boots != [] && !order.rollbackQueued
      requires KindOf(PendingIsThisBoot(files.pending, order.booted.image), unit.finished) == Ok(kind)
      requires files.manual.Some? && past.manualAt == |past.boots| - 1
      modifies `order, `files, `past
      ensures Valid() && past == old(past).(byManual := old(past.byManual) || order.rollbackQueued)
      ensures files.manual.None? || files.manual == old(files.manual)
      ensures !faulty ==> Untroubled()
      ensures !faulty ==>
        match RolledBack(old(order))
        case None => r == Err(NoRollback) && order == old(order) && files == old(files).(manual := None)
        case Some(rolled) =>
          && r == Ok(kind) && order == rolled
          && files == old(files).(pending := if kind == ImageOnly then "" else old(files.pending))
    {
      RecordManualSound(order, files, unit, past);
      assert past == past.(manualAt := |past.boots| - 1);
      hide Sound, PendingIsThisBoot;
      var rolled := RolledBack(order);
      var fault: bool :| fault ==> faulty;
      var kept: bool :| kept ==> faulty;
      if rolled.None? || fault {
        if !kept { files := files.(manual := None); }
        return Err(if rolled.None? then NoRollback else Faulted);
      }
      QueueManualSound(order, files, unit, past);
      order := rolled.value;
      past := past.(byManual := true);
      if kind == ImageOnly && !kept { files := files.(pending := ""); }
      r := Ok(kind);
    }

    /** `stage`: nothing is recorded unless `bootc switch` staged something.
        `pulled` is what the registry holds; a failure leaves what was done. An
        image that is a deployment already passes for one that was booted
        before, so only a fresh one keeps the records sound. */
    method Stage(pulled: DeploymentId) returns (staged: bool)
      requires Valid()
      modifies `order, `files, `past
      ensures IsEmpty(pulled) || Fresh(old(order), pulled) ==> Valid()
      ensures past == old(past).(stagedAt := past.stagedAt, raced := past.raced)
      ensures files.record != old(files.record) ==> past.stagedAt == |past.boots| - 1
      ensures past.stagedAt == old(past).stagedAt || past.stagedAt == |past.boots| - 1
      ensures past.raced ==> old(past).raced || !unit.finished
      ensures staged ==> past.stagedAt == |past.boots| - 1 && past.raced == (old(past).raced || !unit.finished)
      ensures !faulty && old(Untroubled()) ==> Untroubled()
      ensures staged ==>
        && order == old(order).(staged := pulled)
        && files == old(files).(record := Some(UpdateRecord(order.booted, pulled)), pending := pulled.image)
      ensures !faulty ==> staged == !IsEmpty(pulled)
      ensures IsEmpty(pulled) ==> order == old(order) && files == old(files)
    {
      hide Sound;
      ghost var sound := IsEmpty(pulled) || Fresh(order, pulled);
      hide Fresh;
      var fault: bool :| fault ==> faulty;
      if fault || IsEmpty(pulled) { return false; }
      staged := RecordStaged(pulled);
      fault :| fault ==> faulty;
      if !staged || fault { return false; }
      if sound { PendingSound(order, files, unit, past, pulled.image); }
      past := past.(raced := past.raced || !unit.finished);
      files := files.(pending := pulled.image);
    }

    /** `bootc switch`, then the record of what it staged. */
    method RecordStaged(pulled: DeploymentId) returns (ok: bool)
      requires Valid()
      modifies `order, `files, `past
      ensures Fresh(old(order), pulled) ==> Valid()
      ensures past == old(past).(stagedAt := past.stagedAt)
      ensures past.stagedAt == old(past).stagedAt || past.stagedAt == |past.boots| - 1
      ensures ok || files.record != old(files.record) ==> past.stagedAt == |past.boots| - 1
      ensures !faulty && old(Untroubled()) ==> Untroubled()
      ensures ok ==>
        && order == old(order).(staged := pulled)
        && files == old(files).(record := Some(UpdateRecord(order.booted, pulled)))
      ensures !faulty ==> ok
    {
      assert past.boots != [];
      if Fresh(order, pulled) { SwitchSound(order, files, unit, past, pulled); }
      hide Sound, Fresh, Ordered, PendingIsThisBoot;
      order := order.(staged := pulled);
      var fault: bool :| fault ==> faulty;
      if fault { return false; }
      past := past.(stagedAt := |past.boots| - 1);
      files := files.(record := Some(UpdateRecord(order.booted, pulled)));
      ok := true;
    }

    /** At service start: a staged update without a health record gets one. */
    method RecordStagedForHealth()
      requires Valid()
      modifies `files, `past
      ensures Valid()
      ensures past == old(past).(raced := old(past).raced || (files != old(files) && !unit.finished))
      ensures !faulty && old(Untroubled()) ==> Untroubled()
      ensures files == old(files) || (files == old(files).(pending := order.staged.image) && old(files.pending) == "")
      ensures !faulty && !IsEmpty(order.staged) ==> files.pending != ""
    {
      PendingSound(order, files, unit, past, order.staged.image);
      hide Sound;
      var fault: bool :| fault ==> faulty;
      if files.pending == "" && !IsEmpty(order.staged) && !fault {
        past := past.(raced := past.raced || !unit.finished);
        files := files.(pending := order.staged.image);
      }
    }

    // ----- health --------------------------------------------------------------------

    method HealthStart()
      requires Valid() && unit == HealthUnit("", false)
      modifies `unit
      ensures Valid() && unit == HealthUnit(files.pending, files.pending == "")
      ensures !faulty && old(Untroubled()) ==> Untroubled()
    {
      WatchSound(order, files, past);
      hide Sound;
      unit := HealthUnit(files.pending, files.pending == "");
    }

    /** One turn of `run_health`'s loop. */
    method HealthPoll(checks: HealthChecks, deadline: bool) returns (verdict: HealthVerdict)
      requires Valid() && unit.watching != ""
      modifies `order, `files, `unit, `past
      ensures Valid() && SameManual(old(past), past)
      ensures !faulty && old(Untroubled()) ==> Untroubled()
      ensures !faulty ==>
        verdict == (if !PendingIsThisBoot(old(unit.watching), old(order.booted.image)) then OtherBoot
                    else if Works(checks) then AcceptedBoot
                    else if !deadline then Waiting
                    else if IsEmpty(old(order.rollback)) then Undecided
                    else RollingBack)
      ensures verdict.Waiting? <==> unit == old(unit)
      ensures !verdict.Waiting? ==> unit == HealthUnit("", true)
      ensures verdict.Waiting? || verdict.OtherBoot? ==> files == old(files) && past == old(past)
      ensures verdict.AcceptedBoot? && old(past).boots != [] ==>
        TellsRelease(old(past), old(files.record), past, files.record)
      ensures verdict.RollingBack? || verdict.RollbackFailed? || verdict.Undecided? ==>
        past == old(past).(byManual := past.byManual)
      ensures verdict.AcceptedBoot? ==>
        && Works(checks) && PendingIsThisBoot(old(unit.watching), order.booted.image)
        && (!faulty ==> files == Files("", None, old(files.manual),
            Some(UpdateOutcome(order.booted.image, AcceptedRelease, None, None)), old(files.restore)))
      ensures verdict.RollingBack? || verdict.RollbackFailed? ==>
        && !Works(checks) && PendingIsThisBoot(old(unit.watching), order.booted.image) && deadline
      ensures verdict.RollingBack? ==>
        && Some(order) == RolledBack(old(order))
        && files.record == old(files.record) && files.manual == old(files.manual)
        && (!faulty ==>
              && files.outcome.Some? && files.outcome.value.reason.Some?
              && FirstFailure(checks, files.outcome.value.reason.value)
              && files == old(files).(pending := "",
                                      outcome := Some(UpdateOutcome(order.booted.image, RolledBackRelease,
                                                                    files.outcome.value.reason, None))))
        && (past.boots != [] && Checked(past) && !past.raced ==>
            order.rollbackQueued && !past.byManual && files.manual.None?)
      ensures verdict.RollingBack? ==> (order.rollbackQueued <==> !old(order.rollbackQueued))
      ensures !faulty && old(Untroubled()) && verdict.RollingBack? && order.rollbackQueued ==>
        files.manual.None? && !past.byManual
      ensures !verdict.RollingBack? ==> order == old(order)
      ensures verdict.Undecided? ==> files == old(files).(pending := files.pending) && (!faulty ==> files.pending == "")
    {
      assert past.boots != [];
      hide Sound, PendingIsThisBoot, Works, FirstFailure, AssessHealth, TellsRelease, Clean;
      var unreadable: bool :| unreadable ==> faulty;
      if !unreadable && !PendingIsThisBoot(unit.watching, order.booted.image) && !IsEmpty(order.booted) {
        Exit(false);
        return OtherBoot;
      }
      var thisBoot := !unreadable && PendingIsThisBoot(unit.watching, order.booted.image);
      var health := AssessHealth(checks);
      HealthMeaning(checks);
      if thisBoot && health == Healthy {
        Accept();
        return AcceptedBoot;
      }
      if !deadline { return Waiting; }
      if thisBoot && !IsEmpty(order.rollback) {
        verdict := AutoRollback(health);
        return;
      }
      Exit(thisBoot);
      verdict := Undecided;
    }

    /** The health unit ends, without or with the pending record cleared. */
    method Exit(cleared: bool)
      requires Valid()
      modifies `files, `unit
      ensures Valid() && unit == HealthUnit("", true)
      ensures !faulty && old(Untroubled()) ==> Untroubled()
      ensures files == old(files).(pending := files.pending)
      ensures files.pending == old(files.pending) || (cleared && files.pending == "")
      ensures !faulty && cleared ==> files.pending == ""
    {
      ExitSound(order, files, unit, past);
      hide Sound;
      var kept: bool :| kept ==> faulty;
      files := files.(pending := if cleared && !kept then "" else files.pending, outcome := files.outcome);
      unit := HealthUnit("", true);
    }

    method Accept()
      requires Valid()
      modifies `files, `unit, `past
      ensures Valid() && unit == HealthUnit("", true) && SameManual(old(past), past)
      ensures old(past).boots != [] && TellsRelease(old(past), old(files.record), past, files.record)
      ensures !faulty && old(Untroubled()) ==> Untroubled()
      ensures !faulty ==>
        files == Files("", None, old(files.manual),
          Some(UpdateOutcome(order.booted.image, AcceptedRelease, None, None)), old(files.restore))
    {
      assert past.boots != [];
      ReleaseSound(order, files, unit, past);
      hide Sound;
      var stranded: bool :| stranded ==> faulty;
      if !stranded {
        past := Released(past);
        files := files.(record := None);
      }
      var unwritten: bool :| unwritten ==> faulty;
      var kept: bool :| kept ==> faulty;
      ExitSound(order, files, unit, past);
      files := files.(pending := if kept then files.pending else "",
                      outcome := if unwritten then files.outcome
                        else Some(UpdateOutcome(order.booted.image, AcceptedRelease, None, None)));
      unit := HealthUnit("", true);
    }

    method AutoRollback(health: ApplianceHealth) returns (verdict: HealthVerdict)
      requires Valid() && unit.watching != "" && PendingIsThisBoot(unit.watching, order.booted.image)
          && !IsEmpty(order.rollback)
      modifies `order, `files, `unit, `past
      ensures Valid() && unit == HealthUnit("", true) && past == old(past).(byManual := past.byManual)
      ensures !faulty && old(Untroubled()) ==> Untroubled()
      ensures verdict.RollingBack? || verdict.RollbackFailed?
      ensures verdict.RollingBack? ==>
        && Some(order) == RolledBack(old(order))
        && files.record == old(files.record) && files.manual == old(files.manual)
        && (!faulty ==> files == old(files).(pending := "",
                                             outcome := Some(UpdateOutcome(order.booted.image, RolledBackRelease,
                                               Some(health), None))))
        && (past.boots != [] && Checked(past) && !past.raced ==>
            order.rollbackQueued && !past.byManual && files.manual.None?)
      ensures verdict.RollingBack? ==> !past.byManual
      ensures verdict.RollbackFailed? ==> order == old(order) && faulty
    {
      AutoRollbackSound(order, files, unit, past);
      hide Sound, PendingIsThisBoot;
      var unwritten: bool :| unwritten ==> faulty;
      var failed: bool :| failed ==> faulty;
      if !failed {
        order := RolledBack(order).value;
        past := past.(byManual := false);
        unit := HealthUnit("", true);
      }
      var kept: bool :| kept ==> faulty;
      ExitSound(order, files, unit, past);
      files := files.(pending := if failed || kept then files.pending else "",
                      outcome := if unwritten then files.outcome
                        else Some(UpdateOutcome(order.booted.image, RolledBackRelease, Some(health), None)));
      unit := HealthUnit("", true);
      verdict := if failed then RollbackFailed else RollingBack;
    }

    // ----- boots -----------------------------------------------------------------------

    /** `run_restore_check`: what it finds, and what of it is written down. */
    method RestoreCheck() returns (check: CheckResult)
      requires Valid() && past.boots != [] && !Checked(past) && unit == HealthUnit("", false) && !order.rollbackQueued
      requires !Last(past).recorded
      modifies `files, `past
      ensures Valid() && past.boots == old(past.boots)[|old(past.boots)| - 1 :=
                           old(Last(past)).(checked := check.done, recorded := Last(past).recorded)]
      ensures !faulty ==> check.done
      ensures check.done ==> files.manual.None?
      ensures check.manual ==> Activated(old(files.manual), order)
      ensures check.done && Activated(old(files.manual), order) ==> check.manual
      ensures Last(past).recorded ==> check.manual
      ensures !Last(past).recorded ==> files.outcome == old(files.outcome)
      ensures !faulty && check.manual ==> Last(past).recorded
      ensures check.requested ==> old(files.record).Some? && DirectReturn(old(past), old(files.record).value)
      ensures past == old(past).(boots := past.boots, requests := past.requests)
      ensures Requests(old(past), past, check.requested, !faulty)
      ensures !check.requested ==> files.restore == old(files.restore) && files.record == old(files.record)
      ensures files.pending == old(files.pending)
      ensures !faulty ==> (check.requested <==>
          old(files.record).Some? && ReturnedFromUpdate(old(files.record).value, order))
      ensures !faulty && check.requested ==>
          files.restore == Some(old(files.record).value.update.image) && files.record.None?
      ensures Last(past).recorded ==>
        var m := old(files.manual).value;
        files.outcome == Some(UpdateOutcome(m.source.image, RolledBackRelease, None,
                                            Some(ManualOutcome(m.target.image, Returned(old(files.record), order)))))
    {
      hide Sound, Activated, ReturnedFromUpdate, DirectReturn, Returned;
      ghost var recorded: bool;
      check, recorded := RunCheck();
      RecordedSound(order, files, unit, past, recorded);
      past := Recorded(past, recorded);
    }

    method RunCheck() returns (check: CheckResult, ghost recorded: bool)
      requires Valid() && past.boots != [] && !Checked(past) && unit == HealthUnit("", false) && !order.rollbackQueued
      modifies `files, `past
      ensures Valid() && past.boots == old(past.boots)[|old(past.boots)| - 1 := old(Last(past)).(checked := check.done)]
      ensures !faulty ==> check.done
      ensures check.done ==> files.manual.None?
      ensures check.manual ==> Activated(old(files.manual), order)
      ensures check.done && Activated(old(files.manual), order) ==> check.manual
      ensures recorded ==> check.manual
      ensures !recorded ==> files.outcome == old(files.outcome)
      ensures !faulty && check.manual ==> recorded
      ensures check.requested ==> old(files.record).Some? && DirectReturn(old(past), old(files.record).value)
      ensures past == old(past).(boots := past.boots, requests := past.requests)
      ensures Requests(old(past), past, check.requested, !faulty)
      ensures !check.requested ==> files.restore == old(files.restore) && files.record == old(files.record)
      ensures files.pending == old(files.pending)
      ensures !faulty ==> (check.requested <==>
          old(files.record).Some? && ReturnedFromUpdate(old(files.record).value, order))
      ensures !faulty && check.requested ==>
          files.restore == Some(old(files.record).value.update.image) && files.record.None?
      ensures recorded ==>
        var m := old(files.manual).value;
        files.outcome == Some(UpdateOutcome(m.source.image, RolledBackRelease, None,
                                            Some(ManualOutcome(m.target.image, Returned(old(files.record), order)))))
    {
      hide Sound, TookEffect, ReturnedFromUpdate, DirectReturn;
      recorded := false;
      var fault: bool :| fault ==> faulty;
      if fault && !(files.manual.None? && files.record.None?) { return CheckResult(false, false, false), false; }
      var returned := files.record.Some? && ReturnedFromUpdate(files.record.value, order);
      var activated := Activated(files.manual, order);
      assert activated ==> files.manual.Some?;
      hide Activated;
      var ok;
      ok, recorded := RecordManual(activated, returned);
      if !ok { return CheckResult(false, activated, false), recorded; }
      if returned {
        var requested, retired := RequestRestoration();
        if !retired { return CheckResult(false, activated, requested), recorded; }
      }
      FinishCheck();
      check := CheckResult(true, activated, returned);
    }

    method FinishCheck()
      requires Valid() && past.boots != [] && unit == HealthUnit("", false) && !order.rollbackQueued
          && files.manual.None?
      requires files.record.Some? ==> !ReturnedFromUpdate(files.record.value, order)
      modifies `past
      ensures Valid() && past == old(CheckedBoots(past))
    {
      CheckedSound(order, files, past);
      hide Sound, ReturnedFromUpdate;
      past := CheckedBoots(past);
    }

    method RecordManual(activated: bool, returned: bool) returns (ok: bool, ghost recorded: bool)
      requires Valid() && !order.rollbackQueued && (activated ==> files.manual.Some?)
      modifies `files
      ensures Valid()
      ensures !faulty ==> ok
      ensures ok ==> files.manual.None?
      ensures files == old(files).(manual := files.manual, outcome := files.outcome)
      ensures recorded ==> activated
      ensures !recorded ==> files.outcome == old(files.outcome)
      ensures !faulty && activated ==> recorded
      ensures recorded ==>
        var m := old(files.manual).value;
        files.outcome == Some(UpdateOutcome(m.source.image, RolledBackRelease, None,
          Some(ManualOutcome(m.target.image, returned))))
    {
      OutcomeSound(order, files, unit, past);
      hide Sound;
      if files.manual.None? { return true, false; }
      var m := files.manual.value;
      var unwritten: bool :| unwritten ==> faulty;
      recorded := activated && !unwritten;
      if activated && !unwritten {
        files := files.(outcome := Some(UpdateOutcome(m.source.image, RolledBackRelease, None,
          Some(ManualOutcome(m.target.image, returned)))));
      }
      var fault: bool :| fault ==> faulty;
      var visible: bool := *;
      if !fault || visible { files := files.(manual := None); }
      ok := !fault;
    }

    method RequestRestoration() returns (requested: bool, retired: bool)
      requires Valid() && files.record.Some? && ReturnedFromUpdate(files.record.value, order)
      modifies `files, `past
      ensures Valid() && past.boots == old(past.boots)
      ensures DirectReturn(old(past), old(files.record).value)
      ensures requested ==>
        past.requests == old(past.requests) + [Request(|past.boots| - 1, past.since - 1, files.record.None?)]
      ensures !requested ==> past == old(past) && files == old(files)
      ensures past == old(past).(requests := past.requests)
      ensures files == old(files).(restore := files.restore, record := files.record)
      ensures retired ==> requested && files.record.None?
      ensures !faulty ==> retired && files.restore == Some(old(files.record).value.update.image)
    {
      ReturnIsDirect(order, files, unit, past);
      RequestSound(order, files, unit, past, files.record.value.update.image);
      hide Sound, ReturnedFromUpdate, DirectReturn;
      ghost var was := past;
      var unwritten: bool :| unwritten ==> faulty;
      var visible: bool := *;
      if unwritten && !visible { return false, false; }
      WriteRequest();
      var kept: bool :| kept ==> faulty;
      var gone: bool := *;
      gone := !unwritten && (!kept || gone);
      if gone {
        past := Requested(was, true);
        files := files.(record := None);
      }
      return true, !unwritten && !kept;
    }

    /** The restoration is requested; its record is not retired yet. */
    method WriteRequest()
      requires Valid() && files.record.Some? && ReturnedFromUpdate(files.record.value, order)
      modifies `files, `past
      ensures Valid() && old(past).since > 0 && old(past).boots != [] && past == Requested(old(past), false)
      ensures files.record.Some? && files == old(files).(restore := Some(files.record.value.update.image))
    {
      ReturnIsDirect(order, files, unit, past);
      RequestSound(order, files, unit, past, files.record.value.update.image);
      hide Sound, ReturnedFromUpdate;
      past := Requested(past, false);
      files := files.(restore := Some(files.record.value.update.image));
    }

    /** A reboot, requested or not; the power may go again before the restore
        check has run. */
    method Restart()
      requires Valid()
      modifies `order, `unit, `past
      ensures Valid() && past.boots != [] && old(past.boots) != [] && unit == HealthUnit("", false)
      ensures order == Restarted(old(order)) && past == old(Rebooted(order, files.manual, past))
      ensures TellsBoot(old(past), old(order), past)
      ensures Activated(files.manual, order) <==> Last(past).byManual || Last(past).misled
      ensures !(Last(past).byManual && Last(past).misled)
      ensures (old(Checked(past)) && !old(past.raced)) || old(Untroubled()) ==> !Last(past).misled
      ensures !order.rollbackQueued
    {
      assert past.boots != [];
      RestartSound(order, files, unit, past);
      ActivatedMeaning(order, files, unit, past);
      RestartOrdered(order);
      hide Sound, Restarted, TookEffect, Ordered, Clean;
      past, order, unit := Rebooted(order, files.manual, past), Restarted(order), HealthUnit("", false);
    }

    /** A reboot, and the restore check before netd starts. */
    method Reboot() returns (check: CheckResult)
      requires Valid()
      modifies `order, `files, `unit, `past
      ensures Valid() && past.boots != [] && old(past.boots) != []
      ensures order == Restarted(old(order)) && unit == HealthUnit("", false)
      ensures TellsBoot(old(past), old(order), old(Rebooted(order, files.manual, past)))
      ensures !past.byManual && !past.raced
      ensures var next := old(Rebooted(order, files.manual, past));
        past.boots == next.boots[|next.boots| - 1 := Last(next).(checked := check.done,
          recorded := Last(past).recorded)]
      ensures !faulty ==> check.done && Untroubled()
      ensures Last(past).recorded ==> Last(past).byManual || Last(past).misled
      ensures !faulty ==> (Last(past).recorded <==> Last(past).byManual || Last(past).misled)
      ensures check.manual ==> Last(past).byManual || Last(past).misled
      ensures check.done && (Last(past).byManual || Last(past).misled) ==> check.manual
      ensures !(Last(past).byManual && Last(past).misled)
      ensures (old(Checked(past)) && !old(past.raced)) || old(Untroubled()) ==> !Last(past).misled
      ensures check.requested ==>
                old(files.record).Some? && DirectReturn(old(Rebooted(order, files.manual, past)),
                  old(files.record).value)
      ensures !faulty && check.requested ==>
          files.restore == Some(old(files.record).value.update.image) && files.record.None?
      ensures Requests(old(Rebooted(order, files.manual, past)), past, check.requested, !faulty)
      ensures !check.requested ==> files.record == old(files.record) && files.restore == old(files.restore)
      ensures !Last(past).recorded ==> files.outcome == old(files.outcome)
      ensures check.done ==> files.manual.None? && (check.manual <==> Activated(old(files.manual), order))
      ensures files.pending == old(files.pending)
      ensures !faulty ==> (check.requested <==>
          old(files.record).Some? && ReturnedFromUpdate(old(files.record).value, order))
      ensures check.manual ==> old(files.manual).Some?
      ensures !faulty && check.manual ==>
        files.outcome == Some(UpdateOutcome(old(files.manual).value.source.image, RolledBackRelease, None,
                                            Some(ManualOutcome(old(files.manual).value.target.image, check.requested))))
    {
      hide Sound, Restarted, TookEffect, DirectReturn, ReturnedFromUpdate, Ordered, Misled;
      Restart();
      check := RestoreCheck();
    }
  }
}
