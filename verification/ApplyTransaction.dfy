/** netd's journaled apply transaction over a directory of files that can fail,
    and a machine that can lose power, between any two operations. */
module ApplyTransaction {
  import opened Common
  import opened Desired
  import opened Journal
  import opened AcceptedHistory
  import opened Revalidation
  import Addressing
  import LiveState
  import Validation

  datatype Slot = PreviousFile | AttributionFile | JournalFile

  datatype Edit =
    | SetDesired(desired: DesiredState)
    | SetPrevious(previous: DesiredState)
    | SetAttribution(attribution: Attribution)
    | SetJournal(operation: Operation)

  function Edited(f: Files, e: Edit): Files {
    match e
    case SetDesired(d) => f.(desired := d)
    case SetPrevious(d) => f.(previous := Some(d))
    case SetAttribution(a) => f.(attribution := Some(a))
    case SetJournal(op) => f.(journal := Some(op))
  }

  predicate Absent(f: Files, slot: Slot) {
    match slot
    case PreviousFile => f.previous.None?
    case AttributionFile => f.attribution.None?
    case JournalFile => f.journal.None?
  }

  function Removed(f: Files, slot: Slot): Files {
    match slot
    case PreviousFile => f.(previous := None)
    case AttributionFile => f.(attribution := None)
    case JournalFile => f.(journal := None)
  }

  /** Which policy the kernel filters with, `Unfiltered` if it has come up with
      none; `guarded` puts an unconditional drop in front of the forward chain. */
  datatype Policy = Unfiltered | RecoveryOnly | PolicyOf(state: DesiredState)
  datatype Ruleset = Ruleset(policy: Policy, guarded: bool)

  datatype Intent = Ordinary | RecoveryRestore

  datatype Restoration = Unchanged | Restored | Required

  datatype Reply =
    | Busy
    | Rejected
    | Failed(restoration: Restoration)
    | Expired(restoration: Restoration)
    | Indeterminate
    | Pending(revision: nat, confirmationId: nat)
    | AcceptedReply(revision: nat)
    | RecoveredReply(revision: nat)

  const CONFIRMATION_WINDOW: nat := 120_000_000_000

  /** The kernel filters with the policy of the Desired file. */
  predicate Enforces(ruleset: Ruleset, f: Files) {
    ruleset.policy.PolicyOf? && Effective(ruleset.policy.state) == Effective(f.desired)
  }

  /** Every image of the directory is in flight for `t`: whatever the power
      loss leaves, a boot arrives at `t`. */
  ghost predicate AllInFlight(images: seq<Files>, t: Triple) {
    forall f :: f in images ==> InFlight(f) && Resolve(f) == t
  }

  class Netd {
    /** What the directory may be after a power loss: first the content of
        the last successful directory sync, last what a reader sees now. */
    var images: seq<Files>
    var on: bool
    var recoveryRequired: bool
    var ruleset: Ruleset
    /** The state the last completed programming made live, if none began since. */
    var live: Option<DesiredState>
    var lanReady: Option<nat>
    var clock: nat
    /** Whether the environment may inject faults and power losses. */
    var faulty: bool

    ghost const origin: Triple
    ghost var log: seq<Acceptance>
    /** An acceptance that was written but not known durable: a reboot decides. */
    ghost var doubt: Option<Acceptance>
    /** Set when a recovery's guard was lifted while it was still needed. */
    ghost var breach: bool

    function Visible(): Files
      requires images != []
      reads `images
      ensures Visible() in images
    {
      images[|images| - 1]
    }

    ghost function Accepted(): Triple
      reads `log
    {
      Committed(origin, log)
    }

    ghost predicate Holds(f: Files)
      reads `log, `doubt
    {
      if doubt.Some? && Completed(f) then TripleRewrites(After(doubt.value), Resolve(f))
      else TripleRewrites(Accepted(), Resolve(f)) && (doubt.Some? ==> InFlight(f))
    }

    /** The refinement: every image resolves to the log's Accepted triple, or,
        while an acceptance is in doubt, to the one it would append. */
    ghost predicate Coupled()
      reads `images, `log, `doubt, `breach
    {
      && images != []
      && !breach
      && ValidLog(origin, log)
      && Accepted().desired.revision >= 1
      && (doubt.Some? ==> Links(Accepted(), doubt.value))
      && forall f :: f in images ==> Holds(f)
    }

    /** The journal entry a pending confirmation is, over files it has not touched. */
    ghost predicate PendingImage(f: Files, op: Operation) {
      && f.journal == Some(op)
      && op.phase == PendingConfirmation
      && Resolve(f) == Triple(Effective(f.desired), f.previous, f.attribution)
      && op.proposed.Some? && op.confirmationId.Some? && op.deadline.Some?
      && op.proposed.value.revision == op.accepted.revision + 1
      && Programmed(op.proposed.value)
    }

    /** What is live is `d`, up to what programming made of it. */
    ghost predicate LiveIs(d: DesiredState)
      reads `live
    {
      live.Some? && Rewrites(d, Effective(live.value))
    }

    /** The kernel forwards, and filters with the policy of `d`. */
    ghost predicate FiltersFor(d: DesiredState)
      reads `ruleset
    {
      !ruleset.guarded && ruleset.policy.PolicyOf? && Rewrites(d, Effective(ruleset.policy.state))
    }

    /** What the kernel runs, wherever a request may rely on it. The Accepted
        state is live when nothing is in flight, and when a recovery has only
        forwarding left to reopen; the proposal is while its confirmation is
        awaited. Outside recovery forwarding is open, under the policy of the
        state that is live. */
    ghost predicate Shown()
      requires images != []
      reads `images, `on, `recoveryRequired, `live, `ruleset
    {
      on ==>
        && (Visible().journal.None? || (!recoveryRequired && !InFlight(Visible())) ==>
            LiveIs(Resolve(Visible()).desired))
        && (!recoveryRequired && !InFlight(Visible()) ==> FiltersFor(Resolve(Visible()).desired))
        && (!recoveryRequired && InFlight(Visible()) ==>
              live.Some? && live == Visible().journal.value.proposed && FiltersFor(live.value))
    }

    /** Between two requests. */
    ghost predicate Valid()
      reads `images, `log, `doubt, `breach, `on, `recoveryRequired, `live, `ruleset
    {
      && Coupled()
      && Shown()
      && (doubt.Some? ==> Completed(Visible()) || (!on && |images| == 1))
      && (on && doubt.Some? ==> recoveryRequired)
      && (on && !recoveryRequired && InFlight(Visible()) ==>
            forall f :: f in images ==> PendingImage(f, Visible().journal.value))
    }

    constructor (bootstrapped: Files)
      requires bootstrapped.journal.None?
      ensures Valid() && !on && log == [] && doubt.None?
      ensures images == [bootstrapped] && origin == Resolve(bootstrapped)
    {
      images := [bootstrapped];
      on := false;
      recoveryRequired := false;
      ruleset := Ruleset(Unfiltered, false);
      live := None;
      lanReady := None;
      clock := 0;
      faulty := true;
      origin := Resolve(bootstrapped);
      log := [];
      doubt := None;
      breach := false;
    }

    // ----- the environment ------------------------------------------------

    method Fault() returns (fault: bool)
      ensures fault ==> faulty
    {
      fault := *;
      fault := fault && faulty;
    }

    /** The boot clock only moves forward. */
    method Tick()
      modifies `clock
      ensures clock >= old(clock)
    {
      var elapsed :| elapsed >= 0;
      clock := clock + elapsed;
    }

    /** The process may die here, or the power go with it; only then is the
        directory one of its images. */
    method Hazard()
      requires images != []
      modifies `images, `on
      ensures images != []
      ensures on ==> old(on) && images == old(images)
      ensures !on && old(on) ==>
                faulty && (images == old(images) || (|images| == 1 && images[0] in old(images)))
      ensures !old(on) ==> images == old(images)
    {
      var fault := Fault();
      if on && fault {
        var powerLost: bool := *;
        if powerLost {
          var survivor :| 0 <= survivor < |images|;
          images := [images[survivor]];
        }
        on := false;
      }
    }

    // ----- src/durable.rs -------------------------------------------------

    method Write(e: Edit) returns (ok: bool)
      requires images != []
      modifies `images, `on
      ensures images != []
      ensures on ==> old(on)
      ensures ok ==> on && images == [Edited(old(Visible()), e)]
      ensures on && !ok ==> faulty && (images == old(images) || images == old(images) + [Edited(old(Visible()), e)])
      ensures !old(on) ==> images == old(images)
      ensures !on && old(on) ==>
                faulty && (|images| == 1 || images == old(images)
                  || images == old(images) + [Edited(old(Visible()), e)])
      ensures forall f :: f in images ==> f in old(images) || f == Edited(old(Visible()), e)
    {
      ok := false;
      Hazard();
      if !on { return; }
      var fault := Fault();
      if fault { return; }  // the temporary file was not created, written or renamed
      images := images + [Edited(Visible(), e)];
      Hazard();
      if !on { return; }
      fault := Fault();
      if fault { return; }  // renamed, but the directory sync failed
      images := [Visible()];
      ok := true;
    }

    method Remove(slot: Slot) returns (ok: bool)
      requires images != []
      modifies `images, `on
      ensures images != []
      ensures on ==> old(on)
      ensures ok ==>
        on && (images == [Removed(old(Visible()), slot)] || (images == old(images) && Absent(old(Visible()), slot)))
      ensures on && !ok ==> faulty && (images == old(images) || images == old(images) + [Removed(old(Visible()), slot)])
      ensures !old(on) ==> images == old(images)
      ensures !on && old(on) ==>
                faulty && (|images| == 1 || images == old(images)
                  || images == old(images) + [Removed(old(Visible()), slot)])
      ensures forall f :: f in images ==> f in old(images) || f == Removed(old(Visible()), slot)
    {
      ok := false;
      Hazard();
      if !on { return; }
      if Absent(Visible(), slot) { return true; }  // nothing to remove, nothing to sync
      var fault := Fault();
      if fault { return; }
      images := images + [Removed(Visible(), slot)];
      Hazard();
      if !on { return; }
      fault := Fault();
      if fault { return; }
      images := [Visible()];
      ok := true;
    }

    method RestorePrevious(saved: Option<DesiredState>) returns (ok: bool)
      requires images != []
      modifies `images, `on
      ensures images != []
      ensures on ==> old(on)
      ensures ok ==> on && Visible() == old(Visible()).(previous := saved)
      ensures on && !ok ==> faulty && (Visible() == old(Visible()) || Visible() == old(Visible()).(previous := saved))
      ensures !old(on) ==> images == old(images)
      ensures !on && old(on) ==>
                faulty && (|images| == 1 || Visible() == old(Visible())
                  || Visible() == old(Visible()).(previous := saved))
      ensures forall f :: f in images ==> f in old(images) || f == old(Visible()).(previous := saved)
    {
      match saved {
        case Some(d) => ok := Write(SetPrevious(d));
        case None => ok := Remove(PreviousFile);
      }
    }

    method RestoreAttribution(saved: Option<Attribution>) returns (ok: bool)
      requires images != []
      modifies `images, `on
      ensures images != []
      ensures on ==> old(on)
      ensures ok ==> on && Visible() == old(Visible()).(attribution := saved)
      ensures on && !ok ==>
        faulty && (Visible() == old(Visible()) || Visible() == old(Visible()).(attribution := saved))
      ensures !old(on) ==> images == old(images)
      ensures !on && old(on) ==>
                faulty && (|images| == 1 || Visible() == old(Visible())
                  || Visible() == old(Visible()).(attribution := saved))
      ensures forall f :: f in images ==> f in old(images) || f == old(Visible()).(attribution := saved)
    {
      match saved {
        case Some(a) => ok := Write(SetAttribution(a));
        case None => ok := Remove(AttributionFile);
      }
    }

    /** An operation on other files of the directory: its sync, if it makes
        one, also makes everything visible durable. */
    method Elsewhere()
      requires images != []
      modifies `images, `on
      ensures images != []
      ensures on ==> old(on) && Visible() == old(Visible())
      ensures !old(on) ==> images == old(images)
      ensures !on && old(on) ==> faulty && (|images| == 1 || Visible() == old(Visible()))
      ensures forall f :: f in images ==> f in old(images)
    {
      Hazard();
      var synced := *;
      if on && synced { images := [Visible()]; }
      Hazard();
    }

    /** Publish or withdraw the readiness marker of the Host LAN services.
        A failed sync is tolerated when the content reads back right. */
    method SetLanServicesReady(ready: bool) returns (ok: bool)
      requires images != []
      modifies `images, `on, `lanReady
      ensures images != []
      ensures on ==> old(on) && Visible() == old(Visible())
      ensures ok ==> on && lanReady.Some? == ready
      ensures on && !ok ==> faulty
      ensures !old(on) ==> images == old(images)
      ensures !on && old(on) ==> faulty && (|images| == 1 || Visible() == old(Visible()))
      ensures forall f :: f in images ==> f in old(images)
    {
      Elsewhere();
      ok := false;
      var fault := Fault();
      if !on { return; }
      if fault {
        var token := Fault();
        if ready && token { return; }  // no random generation
        var renamed := Fault();
        if !renamed { return; }        // the marker did not reach the requested state
        var unreadable := Fault();
        if unreadable { return; }
      }
      var generation :| generation >= 0;
      lanReady := if ready then Some(generation) else None;
      ok := true;
    }

    // ----- the kernel, as operations that succeed or fail -------------------

    method NftApply(rules: Ruleset) returns (ok: bool)
      requires images != []
      modifies `images, `on, `ruleset, `breach
      ensures images != []
      ensures on ==> old(on) && images == old(images)
      ensures ok ==> on && ruleset == rules
      ensures !ok ==> ruleset == old(ruleset)
      ensures on && !ok ==> faulty
      ensures !old(on) ==> images == old(images)
      ensures !on && old(on) ==> faulty && (|images| == 1 || Visible() == old(Visible()))
      ensures forall f :: f in images ==> f in old(images)
      ensures breach == (old(breach)
                         || (ok && recoveryRequired && old(ruleset).guarded && !rules.guarded
                             && (|| InFlight(Visible()) || rules.policy != PolicyOf(Resolve(Visible()).desired)
                                 || !LiveIs(Resolve(Visible()).desired))))
    {
      ok := false;
      Hazard();
      if !on { return; }
      var fault := Fault();
      if fault { return; }
      breach := breach
        || (recoveryRequired && ruleset.guarded && !rules.guarded
            && (|| InFlight(Visible()) || rules.policy != PolicyOf(Resolve(Visible()).desired)
                || !LiveIs(Resolve(Visible()).desired)));
      ruleset := rules;
      ok := true;
    }

    /** `apply`: a state the validator refuses changes nothing. Any other is
        rewritten as it stands live and programmed; the firewall is the last
        step. */
    method Program(state: DesiredState) returns (ok: bool, result: DesiredState)
      requires images != []
      modifies `images, `on, `ruleset, `breach, `live
      ensures images != []
      ensures on ==> old(on) && Visible() == old(Visible())
      ensures Rewrites(state, result)
      ensures ok ==> on && ruleset == Ruleset(PolicyOf(result), recoveryRequired) && live == Some(result)
      ensures ok ==> Validation.Validate(state).None? && Programmed(result)
      ensures !ok ==> ruleset == old(ruleset)
      ensures on && !ok ==> faulty || Validation.Validate(state).Some?
      ensures Validation.Validate(state).Some? ==> images == old(images) && on == old(on)
      ensures !old(on) ==> images == old(images)
      ensures !on && old(on) ==> faulty && (|images| == 1 || Visible() == old(Visible()))
      ensures breach == old(breach)
      ensures forall f :: f in images ==> f in old(images)
    {
      hide Validation.Validate, Rewrites;
      ok, result := false, state;
      RewritesReflexive(state);
      if Validation.Validate(state).Some? { return; }
      live := None;
      var filled := Fill(state);
      ProgramRewrites(state, filled);
      result := LiveState.Merged(filled);
      Elsewhere();
      var fault := Fault();
      if !on || fault { return; }
      ok := NftApply(Ruleset(PolicyOf(result), recoveryRequired));
      if ok { live := Some(result); }
    }

    /** Interfaces without addresses of their own may take live ones. */
    method Fill(state: DesiredState) returns (filled: DesiredState)
      ensures LiveState.FilledFrom(state, filled)
    {
      filled := state;
      for i := 0 to |state.interfaces|
        invariant LiveState.FilledFrom(state, filled)
        invariant forall j :: i <= j < |state.interfaces| ==> filled.interfaces[j] == state.interfaces[j]
      {
        var live: seq<Cidr> := *;
        var iface := filled.interfaces[i];
        if iface.addresses == [] && forall k :: 0 <= k < |live| ==> Addressing.WellFormed(live[k]) {
          filled := filled.(interfaces := filled.interfaces[i := iface.(addresses := live)]);
        }
      }
    }

    method ReadAccepted() returns (accepted: Option<DesiredState>)
      requires images != []
      ensures accepted.None? ==> faulty
      ensures accepted.Some? ==> accepted.value == Effective(Visible().desired)
    {
      var fault := Fault();
      accepted := if fault then None else Some(Effective(Visible().desired));
    }

    /** `operation_requires_recovery`: a journal that cannot be read counts. */
    method OperationRequiresRecovery() returns (required: bool)
      requires images != []
      ensures Visible().journal.None? ==> !required
      ensures Visible().journal.Some? && Visible().journal.value.phase == Applying ==> required
      ensures required && !faulty ==> Visible().journal.Some? && Visible().journal.value.phase == Applying
    {
      var fault := Fault();
      required := match Visible().journal
        case None => false
        case Some(op) => fault || op.phase == Applying;
    }

    method RecoveryPending() returns (pending: bool)
      requires images != []
      ensures !pending ==> !recoveryRequired && !(InFlight(Visible()) && Visible().journal.value.phase == Applying)
      ensures pending && !faulty ==>
        recoveryRequired || (InFlight(Visible()) && Visible().journal.value.phase == Applying)
      ensures recoveryRequired ==> pending
    {
      var operation := OperationRequiresRecovery();
      pending := recoveryRequired || operation;
    }

    /** `pending_operation`: Err when the journal cannot be read. */
    method PendingOperation() returns (pending: Result<Option<Operation>, ()>)
      requires images != []
      ensures pending.Err? ==> faulty && Visible().journal.Some?
      ensures pending.Ok? && pending.value.Some? ==>
        Visible().journal == pending.value && pending.value.value.phase == PendingConfirmation
      ensures pending.Ok? && pending.value.None? ==>
        !(Visible().journal.Some? && Visible().journal.value.phase == PendingConfirmation)
    {
      var fault := Fault();
      match Visible().journal {
        case None => pending := Ok(None);
        case Some(op) =>
          pending := if fault then Err(())
                     else Ok(if op.phase == PendingConfirmation then Some(op) else None);
      }
    }

    method ApplyBusy() returns (busy: bool)
      requires images != []
      ensures !busy ==> !recoveryRequired && !InFlight(Visible())
      ensures busy && !faulty ==> recoveryRequired || InFlight(Visible())
    {
      var recovery := RecoveryPending();
      var pending := PendingOperation();
      busy := recovery || pending.Err? || pending.value.Some?;
    }

    // ----- recovery ---------------------------------------------------------

    /** `read_recovery_target`: an Accepted journal is not a target; only a
        reboot finishes it. */
    method ReadRecoveryTarget() returns (target: Option<Operation>)
      requires images != []
      ensures target.Some? ==> Visible().journal == target && InFlight(Visible())
      ensures target.None? && !faulty ==> !InFlight(Visible())
    {
      var fault := Fault();
      target := if !fault && InFlight(Visible()) then Visible().journal else None;
    }

    method RequireRecoveryGuard() returns (ok: bool)
      requires images != []
      modifies `images, `on, `ruleset, `breach, `recoveryRequired
      ensures images != []
      ensures on ==> old(on) && images == old(images)
      ensures recoveryRequired
      ensures ok ==> on && ruleset.guarded
      ensures !ok ==> ruleset == old(ruleset)
      ensures on && !ok ==> faulty
      ensures !old(on) ==> images == old(images)
      ensures !on && old(on) ==> faulty && (|images| == 1 || Visible() == old(Visible()))
      ensures breach == old(breach)
      ensures forall f :: f in images ==> f in old(images)
    {
      recoveryRequired := true;
      var target := ReadRecoveryTarget();
      if target.Some? {
        ok := NftApply(Ruleset(PolicyOf(target.value.accepted), recoveryRequired));
        if ok { return; }
      }
      ok := NftApply(Ruleset(RecoveryOnly, true));
    }

    method ReopenRestoredForwarding(previous: DesiredState) returns (ok: bool)
      requires images != [] && (on ==>
          !InFlight(Visible()) && previous == Resolve(Visible()).desired && LiveIs(previous))
      modifies `images, `on, `ruleset, `breach, `recoveryRequired
      ensures images != []
      ensures on ==> old(on) && images == old(images)
      ensures ok ==> on && !recoveryRequired && ruleset == Ruleset(PolicyOf(previous), false)
      ensures on && !ok ==> faulty && recoveryRequired
      ensures !old(on) ==> images == old(images)
      ensures !on && old(on) ==> faulty && (|images| == 1 || Visible() == old(Visible()))
      ensures breach == old(breach)
      ensures forall f :: f in images ==> f in old(images)
    {
      ok := NftApply(Ruleset(PolicyOf(previous), false));
      if !ok {
        var guard := RequireRecoveryGuard();
        return;
      }
      recoveryRequired := false;
    }

    /** Complete a recovery: only once the in-flight marker is gone may
        forwarding reopen. */
    method FinishRecovery(previous: DesiredState) returns (ok: bool)
      requires Coupled() && doubt.None?
      requires on ==> InFlight(Visible())
                      && TripleRewrites(Accepted(), Resolve(Removed(Visible(), JournalFile)))
                      && previous == Resolve(Removed(Visible(), JournalFile)).desired
                      && LiveIs(previous)
      modifies `images, `on, `ruleset, `breach, `recoveryRequired
      ensures Coupled()
      ensures on ==> old(on)
      ensures ok ==> on && !recoveryRequired && ruleset == Ruleset(PolicyOf(previous), false)
                     && Visible() == Removed(old(Visible()), JournalFile)
      ensures on && !ok ==> recoveryRequired
      ensures on ==> Visible() == old(Visible()) || Visible() == Removed(old(Visible()), JournalFile)
      ensures old(on) && !ok ==> faulty
    {
      hide Rewrites, Links, Programmed, Validation.Validate;
      ghost var before := images;
      ghost var last := Visible();
      ok := Remove(JournalFile);
      assert forall f :: f in images ==> Holds(f);
      ghost var after := images;
      if !ok {
        var guard := RequireRecoveryGuard();
        assert forall f :: f in images ==> f in after;
        return;
      }
      ok := ReopenRestoredForwarding(previous);
      assert forall f :: f in images ==> f in after;
    }

    /** The durable half of a restoration, over an in-flight journal that says
        the same: no image changes what it resolves to. With `all` a failed
        step does not stop the later ones. */
    method RestoreFiles(desired: DesiredState, previous: Option<DesiredState>, attribution: Option<Attribution>,
        all: bool)
      returns (ok: bool)
      requires images != [] && (on ==> InFlight(Visible()))
      modifies `images, `on
      ensures images != []
      ensures on ==> old(on) && InFlight(Visible()) && Visible().journal == old(Visible()).journal
      ensures ok ==> on && Visible() == Files(desired, previous, attribution, old(Visible()).journal)
      ensures on && !ok ==> faulty
      ensures !old(on) ==> images == old(images)
      ensures !on && old(on) ==> faulty
      ensures forall f :: f in images ==> f in old(images) || (InFlight(f) && Resolve(f) == Resolve(old(Visible())))
    {
      hide Rewrites, Links, Programmed, Validation.Validate;
      var wrote := Write(SetDesired(desired));
      if !wrote && !all { return false; }
      ok := RestorePrevious(previous);
      if !ok && !all { return; }
      var last := RestoreAttribution(attribution);
      ok := wrote && ok && last;
    }

    /** The live half: guard the forward chain, hold LAN services back,
        program `state` and drop the routes only the other state had. */
    method RestoreLive(state: DesiredState, all: bool) returns (ok: bool, result: DesiredState)
      requires images != []
      modifies `images, `on, `ruleset, `breach, `recoveryRequired, `live, `lanReady
      ensures images != []
      ensures on ==> old(on) && Visible() == old(Visible())
      ensures recoveryRequired && Rewrites(state, result)
      ensures ok ==> on && ruleset == Ruleset(PolicyOf(result), true) && live == Some(result)
      ensures ok ==> Validation.Validate(state).None?
      ensures on && !ok && !faulty ==> ruleset.guarded
      ensures on && !ok ==> faulty || Validation.Validate(state).Some?
      ensures !old(on) ==> images == old(images)
      ensures !on && old(on) ==> faulty && (|images| == 1 || Visible() == old(Visible()))
      ensures breach == old(breach)
      ensures forall f :: f in images ==> f in old(images)
    {
      hide Validation.Validate, Rewrites, Programmed;
      result := state;
      RewritesReflexive(state);
      var guarded := RequireRecoveryGuard();
      if !guarded && !all { return false, result; }
      var suspended := SetLanServicesReady(false);
      if !suspended && !all { return false, result; }
      ok, result := Program(state);
      if !ok && !all { return; }
      var routes := Fault();
      ok := guarded && suspended && ok && !routes;
    }

    method RecoverInterruptedApply() returns (ok: bool)
      requires Coupled() && on && (doubt.Some? ==> Completed(Visible()))
      requires Visible().journal.None? ==> LiveIs(Resolve(Visible()).desired)
      modifies `images, `on, `ruleset, `breach, `recoveryRequired, `live, `lanReady
      ensures Valid()
      ensures ok ==>
        && TripleRewrites(old(Resolve(Visible())), Resolve(Visible()))
        && LiveIs(Resolve(Visible()).desired) && FiltersFor(Resolve(Visible()).desired)
      ensures old(recoveryRequired) && Completed(old(Visible())) && on ==> Completed(Visible()) && !ok
      ensures ok ==> on && !recoveryRequired && Visible().journal.None?
                     && ruleset == Ruleset(PolicyOf(Effective(Visible().desired)), false)
      ensures on && !ok ==> recoveryRequired
      ensures ok ==> lanReady.Some? == (old(lanReady.Some?) || InFlight(old(Visible())))
      ensures !InFlight(old(Visible())) ==> images == old(images) || !on
      ensures !InFlight(old(Visible())) && !faulty ==> (ok <==> old(recoveryRequired && Visible().journal.None?))
      ensures !faulty ==> on
      ensures !faulty && old(recoveryRequired) && old(Visible()).journal.None? ==> ok
      ensures InFlight(old(Visible())) && ok ==> Validation.Validate(old(Resolve(Visible())).desired).None?
      ensures InFlight(old(Visible())) && !faulty ==>
          (ok <==> Validation.Validate(old(Resolve(Visible())).desired).None?)
      ensures InFlight(old(Visible())) && !faulty && !ok ==> Visible() == old(Visible()) && ruleset.guarded
    {
      hide Rewrites, Links, Programmed, Validation.Validate;
      RewritesReflexive(Resolve(Visible()).desired);
      if recoveryRequired && Visible().journal.None? {
        ok := false;
        var accepted := ReadAccepted();
        if accepted.None? { return; }
        RewritesReflexive(accepted.value);
        ok := ReopenRestoredForwarding(accepted.value);
        return;
      }
      var target := ReadRecoveryTarget();
      if target.None? {
        ok := RequireRecoveryGuard();
        return false;
      }
      ok := RecoverTo(target.value);
      if ok { RewritesReflexive(Resolve(Visible()).desired); }
    }

    method RecoverTo(op: Operation) returns (ok: bool)
      requires Coupled() && doubt.None? && on && InFlight(Visible()) && Visible().journal == Some(op)
      modifies `images, `on, `ruleset, `breach, `recoveryRequired, `live, `lanReady
      ensures Coupled()
      ensures on ==> recoveryRequired == !ok
      ensures on && Visible().journal.None? ==> LiveIs(Resolve(Visible()).desired)
      ensures ok ==> on && Visible().journal.None?
                     && ruleset == Ruleset(PolicyOf(Effective(Visible().desired)), false)
      ensures ok ==> TripleRewrites(old(Resolve(Visible())), Resolve(Visible()))
      ensures ok ==> Validation.Validate(op.accepted).None?
      ensures ok ==> lanReady.Some?
      ensures !ok ==> faulty || Validation.Validate(op.accepted).Some?
      ensures !faulty ==> on
      ensures !faulty && !ok ==> Visible() == old(Visible()) && ruleset.guarded
    {
      hide Rewrites, Programmed, Validation.Validate, Links;
      assert Holds(Visible());
      ghost var accepted := Accepted();
      var previous: DesiredState;
      ok, previous := RestoreLive(op.accepted, false);
      assert Coupled();
      if !ok { return; }
      RewritesTransitive(accepted.desired, op.accepted, previous);
      RewritesKeeps(accepted.desired, previous);
      RewritesReflexive(previous);
      ok := RestoreFiles(previous, op.previousAccepted, op.previousAttribution, false);
      assert Coupled();
      if !ok { return; }
      ok := SetLanServicesReady(true);
      assert Coupled();
      if !ok { return; }
      var services := Fault();
      if services { return false; }
      ok := FinishRecovery(previous);
    }

    /** Undo a failed apply over `current`. Every step runs even after one
        failed; only a clean undo finishes. */
    method RestoreFailedApply(current: DesiredState, lanReadyBefore: bool,
                              oldPredecessor: Option<DesiredState>, oldAttribution: Option<Attribution>)
      returns (reply: Reply)
      requires Coupled() && doubt.None?
      requires AllInFlight(images, Triple(current, oldPredecessor, oldAttribution))
      modifies `images, `on, `ruleset, `breach, `recoveryRequired, `live, `lanReady
      ensures Coupled()
      ensures on ==> old(on)
      ensures on ==> reply == Failed(Restored) || (reply == Failed(Required) && recoveryRequired)
      ensures on && reply == Failed(Restored) ==> Validation.Validate(current).None?
      ensures on && reply == Failed(Required) ==> faulty || Validation.Validate(current).Some?
      ensures on ==> Resolve(Visible()) == Triple(current, oldPredecessor, oldAttribution)
      ensures on && Visible().journal.None? ==> LiveIs(current)
      ensures on && reply == Failed(Restored) ==> FiltersFor(current)
      ensures on && reply == Failed(Restored) ==> lanReady.Some? == lanReadyBefore
      ensures on && reply == Failed(Restored) ==>
        && !recoveryRequired
        && Visible() == Files(current, oldPredecessor, oldAttribution, None)
        && ruleset == Ruleset(PolicyOf(current), false)
        && live.Some? && Rewrites(current, live.value)
    {
      hide Rewrites, Links, Programmed, Validation.Validate;
      ghost var t := Triple(current, oldPredecessor, oldAttribution);
      assert TripleRewrites(Accepted(), t) by { assert Holds(Visible()); }
      RewritesKeeps(Accepted().desired, current);
      var restored := UndoApply(current, lanReadyBefore, oldPredecessor, oldAttribution);
      assert Coupled();
      RewritesReflexive(current);
      if restored {
        RewritesKeeps(current, live.value);
        restored := FinishRecovery(current);
      }
      if restored {
        reply := Failed(Restored);
      } else {
        recoveryRequired := true;
        reply := Failed(Required);
      }
    }

    method UndoApply(current: DesiredState, lanReadyBefore: bool,
                     oldPredecessor: Option<DesiredState>, oldAttribution: Option<Attribution>)
      returns (restored: bool)
      requires images != []
      requires AllInFlight(images, Triple(current, oldPredecessor, oldAttribution))
      modifies `images, `on, `ruleset, `breach, `recoveryRequired, `live, `lanReady
      ensures images != [] && breach == old(breach)
      ensures on ==> old(on)
      ensures AllInFlight(images, Triple(current, oldPredecessor, oldAttribution))
      ensures restored ==>
        && on
        && lanReady.Some? == lanReadyBefore
        && Visible() == Files(current, oldPredecessor, oldAttribution, old(Visible()).journal)
        && live.Some? && Rewrites(current, live.value) && Validation.Validate(current).None?
      ensures on && !restored ==> faulty || Validation.Validate(current).Some?
      ensures recoveryRequired
    {
      hide Rewrites, Programmed, Validation.Validate;
      ghost var t := Triple(current, oldPredecessor, oldAttribution);
      var programmed, previous := RestoreLive(current, true);
      assert AllInFlight(images, t);
      var footprint := Fault();
      var persisted := RestoreFiles(current, oldPredecessor, oldAttribution, true);
      assert AllInFlight(images, t);
      restored := programmed && !footprint && persisted;
      if restored {
        restored := SetLanServicesReady(lanReadyBefore);
        var services := Fault();
        restored := restored && !(lanReadyBefore && services);
      }
    }

    // ----- apply ------------------------------------------------------------

    /** Retain `op`, the recovery target, before anything changes. */
    method RetainRecoveryTarget(op: Operation) returns (reply: Option<Reply>)
      requires Valid() && on && doubt.None? && !recoveryRequired && !InFlight(Visible())
      requires op.phase == Applying && Triple(op.accepted, op.previousAccepted, op.previousAttribution)
          == Resolve(Visible())
      modifies `images, `on, `ruleset, `breach, `recoveryRequired, `lanReady
      ensures Coupled() && doubt.None?
      ensures reply.Some? || !on ==> Valid()
      ensures !faulty ==> on && reply.None?
      ensures on && reply.None? ==> lanReady.None? && ruleset == old(ruleset)
      ensures on && reply == Some(Failed(Unchanged)) ==> lanReady.Some? == old(lanReady.Some?)
      ensures on && reply.None? ==> !recoveryRequired && Visible() == old(Visible()).(journal := Some(op))
                                    && forall f :: f in images ==> f == Visible()
      ensures on && reply.Some? ==>
        reply.value == Failed(Unchanged) || (reply.value == Failed(Required) && recoveryRequired)
      ensures on ==> Resolve(Visible()) == old(Resolve(Visible()))
    {
      hide Rewrites, Links, Programmed, Validation.Validate;
      assert Holds(Visible());
      var lanReadyBefore := lanReady.Some?;
      var ok := Write(SetJournal(op));
      assert Coupled();
      if ok {
        reply := SuspendLanServices(lanReadyBefore);
      } else {
        var required := OperationRequiresRecovery();
        if !required { return Some(Failed(Unchanged)); }
        var guard := RequireRecoveryGuard();
        return Some(Failed(Required));
      }
    }

    method SuspendLanServices(lanReadyBefore: bool) returns (reply: Option<Reply>)
      requires Coupled() && on && doubt.None? && !recoveryRequired && InFlight(Visible())
      requires Visible().journal.value.phase == Applying
      requires |images| == 1 && Resolve(Visible()) == Resolve(Visible().(journal := None))
      requires LiveIs(Resolve(Visible()).desired) && FiltersFor(Resolve(Visible()).desired)
      requires lanReadyBefore == lanReady.Some?
      modifies `images, `on, `ruleset, `breach, `recoveryRequired, `lanReady
      ensures Coupled()
      ensures reply.Some? || !on ==> Valid()
      ensures !faulty ==> on && reply.None?
      ensures on && reply.None? ==> lanReady.None? && ruleset == old(ruleset)
      ensures on && reply == Some(Failed(Unchanged)) ==> lanReady.Some? == old(lanReady.Some?)
      ensures on && reply.None? ==> !recoveryRequired && Visible() == old(Visible())
                                    && forall f :: f in images ==> f == Visible()
      ensures on && reply.Some? ==>
        reply.value == Failed(Unchanged) || (reply.value == Failed(Required) && recoveryRequired)
      ensures on ==> Resolve(Visible()) == old(Resolve(Visible()))
    {
      hide Rewrites, Links, Programmed, Validation.Validate;
      assert Holds(Visible());
      var ok := SetLanServicesReady(false);
      if ok { return None; }
      ok := SetLanServicesReady(lanReadyBefore);
      if ok {
        ok := Remove(JournalFile);
        if ok { return Some(Failed(Unchanged)); }
        var required := OperationRequiresRecovery();
        if !required { return Some(Failed(Unchanged)); }
      }
      var guard := RequireRecoveryGuard();
      return Some(Failed(Required));
    }

    /** Program the proposal and, unless it must be confirmed first, write the
        three files an accept consists of. */
    method Attempt(current: DesiredState, oldAttribution: Option<Attribution>, proposed: DesiredState,
                   actor: Option<Principal>, draftVersion: Option<string>, direct: bool)
      returns (ok: bool, result: DesiredState)
      requires images != [] && (on ==> InFlight(Visible()))
      requires on ==> lanReady.None?
      modifies `images, `on, `ruleset, `breach, `live, `lanReady
      ensures images != [] && breach == old(breach)
      ensures on ==> old(on) && InFlight(Visible()) && Visible().journal == old(Visible()).journal
      ensures Rewrites(proposed, result)
      ensures ok ==> on && live == Some(result) && Programmed(result)
                     && ruleset == Ruleset(PolicyOf(result), recoveryRequired)
                     && lanReady.Some?
      ensures old(on) && !faulty && Validation.Validate(proposed).None? ==> ok
      ensures ok && direct ==>
        images == [Files(result, Some(current),
                         Some(Attribution(result.revision, actor, None, None,
                              AcceptedDraftReceipts(oldAttribution, current.revision, actor, draftVersion,
                                result.revision))),
                         old(Visible()).journal)]
      ensures ok && !direct ==> Visible() == old(Visible())
      ensures forall f :: f in images ==> f in old(images) || (InFlight(f) && Resolve(f) == Resolve(old(Visible())))
    {
      hide Rewrites, Links, Programmed, Validation.Validate;
      ok, result := Program(proposed);
      if !ok { return; }
      var routes := Fault();
      if routes { return false, result; }
      ok := SetLanServicesReady(true);
      if !ok { return; }
      var services := Fault();
      if services { return false, result; }
      if direct {
        ok := WriteAcceptedFiles(current, oldAttribution, result, actor, draftVersion);
      }
    }

    method WriteAcceptedFiles(current: DesiredState, oldAttribution: Option<Attribution>, result: DesiredState,
                              actor: Option<Principal>, draftVersion: Option<string>)
      returns (ok: bool)
      requires images != [] && (on ==> InFlight(Visible()))
      modifies `images, `on
      ensures images != []
      ensures old(on) && !ok ==> faulty
      ensures on ==> old(on) && InFlight(Visible()) && Visible().journal == old(Visible()).journal
      ensures ok ==>
        && on
        && images == [Files(result, Some(current),
                         Some(Attribution(result.revision, actor, None, None,
                              AcceptedDraftReceipts(oldAttribution, current.revision, actor, draftVersion,
                                result.revision))),
                         old(Visible()).journal)]
      ensures forall f :: f in images ==> f in old(images) || (InFlight(f) && Resolve(f) == Resolve(old(Visible())))
    {
      var receipts := AcceptedDraftReceipts(oldAttribution, current.revision, actor, draftVersion, result.revision);
      ok := Write(SetDesired(result));
      if !ok { return; }
      ok := Write(SetPrevious(current));
      if !ok { return; }
      ok := Write(SetAttribution(Attribution(result.revision, actor, None, None, receipts)));
    }

    /** The accept itself: one durable journal write. Its unlink is cleanup. */
    method WriteAccepted(op: Operation, ghost a: Acceptance) returns (ok: bool)
      requires Coupled() && doubt.None? && |images| == 1 && Links(Accepted(), a)
      requires InFlight(Visible()) && op.phase == Phase.Accepted
      requires Triple(Effective(Visible().desired), Visible().previous, Visible().attribution) == After(a)
      modifies `images, `on, `log, `doubt
      ensures Coupled()
      ensures on ==> old(on)
      ensures old(on) && !ok ==> faulty
      ensures ok ==> on && doubt.None? && log == old(log) + [a] && images == [old(Visible()).(journal := Some(op))]
      ensures !ok && log != old(log) ==>
          !on && log == old(log) + [a] && Visible() == old(Visible()).(journal := Some(op))
      ensures on && !ok && doubt.None? ==> images == old(images)
      ensures doubt.Some? ==> doubt == Some(a) && log == old(log) && Visible() == old(Visible()).(journal := Some(op))
    {
      hide Links, Rewrites, AcceptedDraftReceipts, Programmed, Validation.Validate;
      LinkedRevision(Accepted(), a);
      RewritesReflexive(a.result);
      AppendLinks(origin, log, a);
      assert Holds(Visible());
      ghost var before := Visible();
      ghost var after := before.(journal := Some(op));
      assert Resolve(after) == After(a);
      ok := Write(SetJournal(op));
      if ok || (!on && |images| == 1 && Visible() == after) {
        log := log + [a];
      } else if Visible() == after {
        doubt := Some(a);
      }
    }

    /** The acceptance an apply request makes, if it makes one. */
    static ghost predicate MadeFrom(before: Triple, input: DesiredState, actor: Option<Principal>,
                                    draftVersion: Option<string>, intent: Intent, a: Acceptance)
    {
      && a.base == before.desired
      && Rewrites(input.(revision := a.base.revision + 1), a.result)
      && a.applying == actor && a.draftVersion == draftVersion && a.confirming.None?
      && a.recoveryRestore == (intent == RecoveryRestore)
    }

    /** What one apply request may do to the Accepted network that was `before`,
        with the log at `was`. */
    ghost predicate Applied(before: Triple, was: seq<Acceptance>, input: DesiredState, actor: Option<Principal>,
                            draftVersion: Option<string>, intent: Intent, reply: Reply)
      requires images != []
      reads `images, `log, `doubt, `on, `recoveryRequired, `live, `lanReady, `clock
    {
      && (log == was || (|log| == |was| + 1 && was <= log))
      && (log != was ==>
            && doubt.None?
            && var a := log[|was|];
              && MadeFrom(before, input, actor, draftVersion, intent, a)
              && Resolve(Visible()) == After(a)
              && (on ==>
                    && reply == AcceptedReply(a.result.revision) && !recoveryRequired && live == Some(a.result)
                    && lanReady.Some?))
      && (log != was || doubt.Some? ==> Direct(before.desired, intent))
      && (doubt.Some? ==> MadeFrom(before, input, actor, draftVersion, intent, doubt.value))
      && (on && log == was ==>
            && !reply.AcceptedReply? && !reply.RecoveredReply?
            && (doubt.Some? ==> reply.Indeterminate?)
            && (doubt.None? ==> Resolve(Visible()) == before)
            && (reply == Failed(Restored) ==>
                  && !recoveryRequired && Visible().journal.None?
                  && live.Some? && Rewrites(before.desired, live.value))
            && (reply == Failed(Required) || reply.Indeterminate? ==> recoveryRequired)
            && (reply.Pending? ==>
                  && !recoveryRequired && !Direct(before.desired, intent) && live.Some?
                  && Awaits(before, live.value, actor, draftVersion, reply)
                  && Rewrites(input.(revision := before.desired.revision + 1), live.value)))
    }

    /** Nobody has to confirm the proposal before it is Accepted. */
    static predicate Direct(accepted: DesiredState, intent: Intent) {
      !accepted.applyConfirmation || intent == RecoveryRestore
    }

    /** netd takes the proposal up: it was made on the Accepted revision, the
        validator and the dry run of its ruleset pass it, and there is a next
        revision. */
    static predicate TakesUp(accepted: DesiredState, input: DesiredState, baseRevision: Option<nat>, dryRun: bool) {
      && (baseRevision.Some? ==> baseRevision.value == accepted.revision)
      && Validation.Validate(input).None? && dryRun
      && accepted.revision < MAX_REVISION
    }

    /** The retained journal and the services of a proposal that is live, for
        two minutes from now, under the id the reply names. */
    ghost predicate Awaits(before: Triple, result: DesiredState, actor: Option<Principal>,
                           draftVersion: Option<string>, reply: Reply)
      requires images != [] && reply.Pending?
      reads `images, `clock, `lanReady
    {
      && reply.revision == before.desired.revision + 1
      && Visible().journal == Some(Operation(PendingConfirmation, before.desired, before.previous, before.attribution,
                                             Some(result), Some(reply.confirmationId), actor, draftVersion,
                                             Some(clock + 120_000_000_000)))
      && lanReady.Some?
    }

    /** What a request that is taken up comes to without faults: accepted at
        once, or pending where the Accepted state demands a confirmation. */
    ghost predicate Granted(accepted: DesiredState, was: seq<Acceptance>, intent: Intent, reply: Reply)
      requires images != []
      reads `images, `log
    {
      if Direct(accepted, intent) then
        reply == AcceptedReply(accepted.revision + 1) && |log| == |was| + 1 && Visible().journal.None?
      else
        reply.Pending? && reply.revision == accepted.revision + 1 && log == was
    }

    lemma NotAccepted(before: Triple, input: DesiredState, actor: Option<Principal>,
                      draftVersion: Option<string>, intent: Intent, reply: Reply)
      requires images != [] && doubt.None?
      requires on ==> Resolve(Visible()) == before
      requires on ==> reply == Failed(Restored) || reply == Failed(Required) || reply.Pending?
      requires on && reply == Failed(Restored) ==>
                 !recoveryRequired && Visible().journal.None? && live.Some? && Rewrites(before.desired, live.value)
      requires on && reply == Failed(Required) ==> recoveryRequired
      requires on && reply.Pending? ==>
                 && !recoveryRequired && !Direct(before.desired, intent) && live.Some?
                 && Awaits(before, live.value, actor, draftVersion, reply)
                 && Rewrites(input.(revision := before.desired.revision + 1), live.value)
      ensures Applied(before, log, input, actor, draftVersion, intent, reply)
    {
    }

    method Accept(current: DesiredState, predecessor: Option<DesiredState>, attribution: Option<Attribution>,
                  result: DesiredState, actor: Option<Principal>, draftVersion: Option<string>, intent: Intent)
      returns (reply: Reply)
      requires Coupled() && doubt.None? && on && !recoveryRequired && |images| == 1 && InFlight(Visible())
      requires Resolve(Visible()) == Triple(current, predecessor, attribution)
      requires result.revision == current.revision + 1 && Programmed(result) && live == Some(result)
          && ruleset == Ruleset(PolicyOf(result), false)
      requires intent == Ordinary ==> !current.applyConfirmation
      requires Visible() == Files(result, Some(current),
                                  Some(Attribution(result.revision, actor, None, None,
                                       AcceptedDraftReceipts(attribution, current.revision, actor, draftVersion,
                                         result.revision))),
                                  Visible().journal)
      modifies `images, `on, `ruleset, `breach, `recoveryRequired, `log, `doubt
      ensures Valid()
      ensures !faulty ==> on && log != old(log) && Visible().journal.None?
      ensures log == old(log) || log == old(log) +
        [Acceptance(current, result, actor, None, draftVersion, intent == RecoveryRestore,
          old(Visible()).attribution.value)]
      ensures doubt.None? || doubt ==
        Some(Acceptance(current, result, actor, None, draftVersion, intent == RecoveryRestore,
          old(Visible()).attribution.value))
      ensures log != old(log) ==> doubt.None? && Resolve(Visible()) == After(log[|old(log)|])
      ensures on && log != old(log) ==> reply == AcceptedReply(result.revision) && !recoveryRequired
      ensures on && log == old(log) ==> reply == Indeterminate && recoveryRequired
                                        && (doubt.None? ==> Resolve(Visible()) == old(Resolve(Visible())))
    {
      hide Rewrites, Links, AcceptedDraftReceipts, Programmed, Validation.Validate;
      RewritesReflexive(result);
      ghost var a := Acceptance(current, result, actor, None, draftVersion, intent == RecoveryRestore,
                                Visible().attribution.value);
      assert Links(Accepted(), a) by {
        assert Holds(Visible());
        AcceptLinks(Accepted(), Resolve(Visible()), a);
      }
      var op := Operation(Phase.Accepted, current, predecessor, attribution, None, None, actor, draftVersion, None);
      var ok := WriteAccepted(op, a);
      if !ok {
        var guard := RequireRecoveryGuard();
        return Indeterminate;
      }
      CleanAccepted(After(a));
      return AcceptedReply(result.revision);
    }

    /** The unlink after an accept: whatever becomes of it, the acceptance stands. */
    method CleanAccepted(ghost t: Triple)
      requires Coupled() && doubt.None? && on && !recoveryRequired
      requires forall f :: f in images ==> Completed(f) && Resolve(f) == t
      requires LiveIs(t.desired) && FiltersFor(t.desired)
      modifies `images, `on
      ensures Valid()
      ensures Resolve(Visible()) == t
      ensures !faulty ==> on && Visible().journal.None?
    {
      hide Rewrites, Links, Programmed, Validation.Validate;
      assert TripleRewrites(Accepted(), t) by { assert Holds(Visible()); }
      var cleaned := Remove(JournalFile);
      assert forall f :: f in images ==> !InFlight(f) && Resolve(f) == t;
    }

    lemma MaybeAccepted(before: Triple, was: seq<Acceptance>, input: DesiredState, actor: Option<Principal>,
                        draftVersion: Option<string>, intent: Intent, result: DesiredState, reply: Reply)
      requires images != [] && Rewrites(input.(revision := before.desired.revision + 1), result)
      requires log == was ||
        (|log| == |was| + 1 && was <= log
         && log[|was|] == Acceptance(before.desired, result, actor, None, draftVersion, intent == RecoveryRestore,
                                     log[|was|].attribution))
      requires doubt.Some? ==> doubt.value == Acceptance(before.desired, result, actor, None, draftVersion,
                                                         intent == RecoveryRestore, doubt.value.attribution)
      requires log != was ==> doubt.None? && Resolve(Visible()) == After(log[|was|])
      requires on && log != was ==> reply == AcceptedReply(result.revision) && !recoveryRequired && live == Some(result)
                                    && lanReady.Some?
      requires Direct(before.desired, intent)
      requires on && log == was ==> reply == Indeterminate && recoveryRequired
                                    && (doubt.None? ==> Resolve(Visible()) == before)
      ensures Applied(before, was, input, actor, draftVersion, intent, reply)
    {
      hide Rewrites;
    }

    /** Keep the live proposal tentative until an administrator who can still
        reach the appliance confirms it. */
    method AwaitConfirmation(current: DesiredState, predecessor: Option<DesiredState>, attribution: Option<Attribution>,
                             result: DesiredState, actor: Option<Principal>, draftVersion: Option<string>,
                             lanReadyBefore: bool)
      returns (reply: Reply)
      requires Coupled() && doubt.None? && on && !recoveryRequired && result.revision == current.revision + 1
      requires AllInFlight(images, Triple(current, predecessor, attribution))
      requires Triple(Effective(Visible().desired), Visible().previous, Visible().attribution)
               == Triple(current, predecessor, attribution)
      requires live == Some(result) && Programmed(result) && ruleset == Ruleset(PolicyOf(result), false)
          && lanReady.Some?
      modifies `images, `on, `ruleset, `breach, `recoveryRequired, `live, `lanReady
      ensures Valid()
      ensures on ==> Resolve(Visible()) == Triple(current, predecessor, attribution)
      ensures on ==> reply.Pending? || reply == Failed(Restored) || reply == Failed(Required)
      ensures on && reply.Pending? ==>
        && !recoveryRequired && live == Some(result)
        && Awaits(Triple(current, predecessor, attribution), result, actor, draftVersion, reply)
      ensures on && reply == Failed(Restored) ==> lanReady.Some? == lanReadyBefore
      ensures !faulty ==> on && reply.Pending?
      ensures on && reply == Failed(Restored) ==>
        !recoveryRequired && Visible().journal.None? && live.Some? && Rewrites(current, live.value)
      ensures on && reply == Failed(Required) ==> recoveryRequired
    {
      hide Links, Rewrites, AcceptedDraftReceipts, Programmed, Validation.Validate;
      ghost var t := Triple(current, predecessor, attribution);
      assert TripleRewrites(Accepted(), t) && Visible() in images by { assert Holds(Visible()); }
      RewritesReflexive(result);
      var noToken := Fault();
      var noClock := Fault();
      var retained := false;
      var id :| id >= 0;
      if !noToken && !noClock {
        retained := Write(SetJournal(Operation(PendingConfirmation, current, predecessor, attribution, Some(result),
                                               Some(id), actor, draftVersion, Some(clock + CONFIRMATION_WINDOW))));
        assert AllInFlight(images, t);
      }
      assert Coupled();
      if !retained {
        reply := RestoreFailedApply(current, lanReadyBefore, predecessor, attribution);
        return;
      }
      return Pending(result.revision, id);
    }

    /** From the retained recovery target to the accept, the pending
        confirmation, or the undo. */
    method Transact(current: DesiredState, predecessor: Option<DesiredState>, attribution: Option<Attribution>,
                    input: DesiredState, actor: Option<Principal>, draftVersion: Option<string>,
                    intent: Intent, lanReadyBefore: bool)
      returns (reply: Reply)
      requires Coupled() && doubt.None? && on && !recoveryRequired
      requires AllInFlight(images, Triple(current, predecessor, attribution))
      requires Triple(Effective(Visible().desired), Visible().previous, Visible().attribution)
               == Triple(current, predecessor, attribution)
      requires Validation.Validate(input).None? && lanReady.None?
      modifies `images, `on, `ruleset, `breach, `recoveryRequired, `live, `lanReady, `log, `doubt
      ensures Valid()
      ensures Applied(old(Resolve(Visible())), old(log), input, actor, draftVersion, intent, reply)
      ensures on ==> reply.Failed? || reply.Indeterminate? || reply.AcceptedReply? || reply.Pending?
      ensures on && reply.Failed? ==> reply != Failed(Unchanged)
      ensures on && reply == Failed(Restored) ==> lanReady.Some? == lanReadyBefore
      ensures !faulty ==> on && Granted(old(Resolve(Visible())).desired, old(log), intent, reply)
    {
      hide Links, Rewrites, AcceptedDraftReceipts, Applied, Programmed, Validation.Validate;
      ghost var t := Triple(current, predecessor, attribution);
      ghost var was := log;
      assert TripleRewrites(Accepted(), t) by { assert Holds(Visible()); }
      var proposed := input.(revision := current.revision + 1);
      var direct := !current.applyConfirmation || intent == RecoveryRestore;
      ValidateRenumbered(input, current.revision + 1);
      var ok, result := Attempt(current, attribution, proposed, actor, draftVersion, direct);
      RewritesKeeps(proposed, result);
      assert AllInFlight(images, t);
      assert Coupled();
      if !ok {
        reply := RestoreFailedApply(current, lanReadyBefore, predecessor, attribution);
        NotAccepted(t, input, actor, draftVersion, intent, reply);
        return;
      }
      if direct {
        reply := AcceptDirectly(current, predecessor, attribution, input, result, actor, draftVersion, intent);
      } else {
        reply := AwaitConfirmation(current, predecessor, attribution, result, actor, draftVersion, lanReadyBefore);
        NotAccepted(t, input, actor, draftVersion, intent, reply);
      }
    }

    method AcceptDirectly(current: DesiredState, predecessor: Option<DesiredState>, attribution: Option<Attribution>,
                          ghost input: DesiredState, result: DesiredState, actor: Option<Principal>,
                          draftVersion: Option<string>, intent: Intent)
      returns (reply: Reply)
      requires Coupled() && doubt.None? && on && !recoveryRequired && |images| == 1 && InFlight(Visible())
      requires Resolve(Visible()) == Triple(current, predecessor, attribution)
      requires result.revision == current.revision + 1 && Programmed(result) && live == Some(result) && lanReady.Some?
      requires ruleset == Ruleset(PolicyOf(result), false) && Direct(current, intent)
      requires Rewrites(input.(revision := current.revision + 1), result)
      requires Visible() == Files(result, Some(current),
                                  Some(Attribution(result.revision, actor, None, None,
                                       AcceptedDraftReceipts(attribution, current.revision, actor, draftVersion,
                                         result.revision))),
                                  Visible().journal)
      modifies `images, `on, `ruleset, `breach, `recoveryRequired, `log, `doubt
      ensures Valid()
      ensures Applied(Triple(current, predecessor, attribution), old(log), input, actor, draftVersion, intent, reply)
      ensures on ==> reply.Indeterminate? || reply.AcceptedReply?
      ensures !faulty ==> on && Granted(current, old(log), intent, reply)
    {
      hide Links, Rewrites, AcceptedDraftReceipts, Applied, Programmed, Validation.Validate, Shown;
      ghost var t := Triple(current, predecessor, attribution);
      ghost var was := log;
      reply := Accept(current, predecessor, attribution, result, actor, draftVersion, intent);
      MaybeAccepted(t, was, input, actor, draftVersion, intent, result, reply);
    }

    /** `dryRun` is what a dry run of the proposal's ruleset comes to. */
    method ApplyDesired(input: DesiredState, baseRevision: Option<nat>, actor: Option<Principal>,
                        draftVersion: Option<string>, intent: Intent, dryRun: bool)
      returns (reply: Reply)
      requires Valid() && on
      modifies `images, `on, `ruleset, `breach, `recoveryRequired, `live, `lanReady, `log, `doubt
      ensures Valid()
      ensures old(recoveryRequired || InFlight(Visible())) ==>
                reply == Busy && on && images == old(images) && log == old(log) && doubt == old(doubt)
                && recoveryRequired == old(recoveryRequired) && ruleset == old(ruleset) && live == old(live)
                && lanReady == old(lanReady)
      ensures !old(recoveryRequired || InFlight(Visible())) ==>
                Applied(old(Resolve(Visible())), old(log), input, actor, draftVersion, intent, reply)
      ensures !old(recoveryRequired || InFlight(Visible())) && on && reply == Busy ==> faulty
      ensures (log != old(log) || doubt != old(doubt)) && baseRevision.Some? ==>
                baseRevision.value == old(Resolve(Visible()).desired.revision)
      ensures on && (reply.AcceptedReply? || reply.Pending?) ==> Validation.Validate(input).None?
      ensures on && (reply == Failed(Restored) || reply == Failed(Unchanged)) ==> lanReady.Some? == old(lanReady.Some?)
      ensures !old(recoveryRequired || InFlight(Visible())) ==>
        if TakesUp(old(Resolve(Visible())).desired, input, baseRevision, dryRun)
        then !faulty ==> on && Granted(old(Resolve(Visible())).desired, old(log), intent, reply)
        else on && (faulty || reply == Rejected) && images == old(images) && log == old(log) && doubt == old(doubt)
             && !recoveryRequired && ruleset == old(ruleset) && live == old(live) && lanReady == old(lanReady)
      ensures on && reply == Rejected ==> !TakesUp(old(Resolve(Visible())).desired, input, baseRevision, dryRun)
    {
      hide Rewrites, Links, Programmed, Validation.Validate, Applied, Granted;
      var busy := ApplyBusy();
      if busy {
        if doubt.None? { NothingApplied(input, actor, draftVersion, intent, Busy); }
        return Busy;
      }
      reply := BeginApply(input, baseRevision, actor, draftVersion, intent, dryRun);
    }

    lemma NothingApplied(input: DesiredState, actor: Option<Principal>, draftVersion: Option<string>, intent: Intent,
                         reply: Reply)
      requires images != [] && doubt.None?
      requires reply == Busy || reply == Rejected || reply == Failed(Unchanged)
      ensures Applied(Resolve(Visible()), log, input, actor, draftVersion, intent, reply)
    {
    }

    method BeginApply(input: DesiredState, baseRevision: Option<nat>, actor: Option<Principal>,
                      draftVersion: Option<string>, intent: Intent, dryRun: bool)
      returns (reply: Reply)
      requires Valid() && on && !recoveryRequired && !InFlight(Visible())
      modifies `images, `on, `ruleset, `breach, `recoveryRequired, `live, `lanReady, `log, `doubt
      ensures Valid()
      ensures Applied(old(Resolve(Visible())), old(log), input, actor, draftVersion, intent, reply)
      ensures on ==> reply != Busy
      ensures (log != old(log) || doubt != old(doubt)) && baseRevision.Some? ==>
                baseRevision.value == old(Resolve(Visible()).desired.revision)
      ensures on && (reply.AcceptedReply? || reply.Pending?) ==> Validation.Validate(input).None?
      ensures on && (reply == Failed(Restored) || reply == Failed(Unchanged)) ==> lanReady.Some? == old(lanReady.Some?)
      ensures
        if TakesUp(old(Resolve(Visible())).desired, input, baseRevision, dryRun)
        then !faulty ==> on && Granted(old(Resolve(Visible())).desired, old(log), intent, reply)
        else on && (faulty || reply == Rejected) && images == old(images) && log == old(log) && doubt == old(doubt)
             && !recoveryRequired && ruleset == old(ruleset) && live == old(live) && lanReady == old(lanReady)
      ensures on && reply == Rejected ==> !TakesUp(old(Resolve(Visible())).desired, input, baseRevision, dryRun)
    {
      hide Rewrites, Links, Programmed, Validation.Validate, Applied, Granted;
      NothingApplied(input, actor, draftVersion, intent, Rejected);
      NothingApplied(input, actor, draftVersion, intent, Failed(Unchanged));
      var accepted := ReadAccepted();
      if accepted.None? { return Failed(Unchanged); }
      var current := accepted.value;
      if baseRevision.Some? && baseRevision.value != current.revision { return Rejected; }
      if Validation.Validate(input).Some? || !dryRun { return Rejected; }
      if current.revision >= MAX_REVISION { return Rejected; }
      var footprint := Fault();
      var unreadable := Fault();
      if footprint || unreadable { return Failed(Unchanged); }
      reply := TakeUp(current, input, actor, draftVersion, intent);
    }

    method TakeUp(current: DesiredState, input: DesiredState, actor: Option<Principal>, draftVersion: Option<string>,
                  intent: Intent)
      returns (reply: Reply)
      requires Valid() && on && !recoveryRequired && !InFlight(Visible()) && current == Resolve(Visible()).desired
      requires Validation.Validate(input).None?
      modifies `images, `on, `ruleset, `breach, `recoveryRequired, `live, `lanReady, `log, `doubt
      ensures Valid()
      ensures Applied(old(Resolve(Visible())), old(log), input, actor, draftVersion, intent, reply)
      ensures on ==> reply != Busy && reply != Rejected
      ensures on && (reply == Failed(Restored) || reply == Failed(Unchanged)) ==> lanReady.Some? == old(lanReady.Some?)
      ensures !faulty ==> on && Granted(current, old(log), intent, reply)
    {
      hide Rewrites, Links, Programmed, Validation.Validate, Granted;
      var predecessor := Visible().previous;
      var attribution := Visible().attribution;
      var lanReadyBefore := lanReady.Some?;
      var refused := RetainRecoveryTarget(
        Operation(Applying, current, predecessor, attribution, None, None, actor, draftVersion, None));
      if refused.Some? { return refused.value; }
      if !on { return Busy; }
      reply := Transact(current, predecessor, attribution, input, actor, draftVersion, intent, lanReadyBefore);
    }

    // ----- confirmation -----------------------------------------------------

    method PendingExpired(op: Operation) returns (expired: bool)
      requires op.deadline.Some?
      ensures if clock >= op.deadline.value then expired else expired ==> faulty
    {
      var unreadable := Fault();
      expired := unreadable || clock >= op.deadline.value;
    }

    static ghost function Confirmed(op: Operation, confirming: Principal): Acceptance
      requires op.proposed.Some?
    {
      Acceptance(op.accepted, op.proposed.value, op.applying, Some(confirming), op.draftVersion, false,
                 Attribution(op.proposed.value.revision, op.applying, Some(confirming), None,
                             AcceptedDraftReceipts(op.previousAttribution, op.accepted.revision, op.applying,
                                                   op.draftVersion, op.proposed.value.revision)))
    }

    /** This revision is pending under this confirmation id. */
    static ghost predicate Pends(f: Files, revision: nat, confirmationId: nat) {
      && f.journal.Some?
      && var op := f.journal.value;
        && op.phase == PendingConfirmation
        && op.proposed.Some? && op.proposed.value.revision == revision
        && op.confirmationId == Some(confirmationId)
    }

    static ghost predicate MayConfirm(f: Files, revision: nat, confirmationId: nat, now: nat) {
      && Pends(f, revision, confirmationId)
      && f.journal.value.deadline.Some? && now < f.journal.value.deadline.value
    }

    /** The deadline of what pends has come. */
    static predicate Due(f: Files, now: nat) {
      && f.journal.Some? && f.journal.value.phase == PendingConfirmation
      && (f.journal.value.deadline.Some? ==> now >= f.journal.value.deadline.value)
    }

    /** The only way a pending proposal becomes Accepted: its own revision and
        confirmation id, read while its deadline has not passed. */
    method ConfirmApply(revision: nat, confirmationId: nat, confirming: Principal) returns (reply: Reply)
      requires Valid() && on
      modifies `images, `on, `ruleset, `breach, `recoveryRequired, `live, `lanReady, `log, `doubt
      ensures Valid()
      ensures log != old(log) || doubt != old(doubt) ==>
        && !old(recoveryRequired)
        && MayConfirm(old(Visible()), revision, confirmationId, clock)
        && var a := Confirmed(old(Visible()).journal.value, confirming);
          || (log == old(log) + [a] && doubt.None?)
          || (log == old(log) && doubt == Some(a))
      ensures on && log != old(log) ==> reply == AcceptedReply(revision) && !recoveryRequired
                                        && Resolve(Visible()) == After(log[|old(log)|])
      ensures on && log == old(log) ==> !reply.AcceptedReply?
      ensures !faulty && !old(recoveryRequired) && MayConfirm(old(Visible()), revision, confirmationId, clock) ==>
        && on && reply == AcceptedReply(revision) && Visible().journal.None?
        && log == old(log) + [Confirmed(old(Visible()).journal.value, confirming)]
      ensures !faulty && !old(recoveryRequired) && Pends(old(Visible()), revision, confirmationId)
              && Due(old(Visible()), clock) ==>
        && on && log == old(log) && doubt == old(doubt)
        && reply == Expired(if Validation.Validate(old(Resolve(Visible())).desired).None? then Restored else Required)
      ensures old(recoveryRequired) || !Pends(old(Visible()), revision, confirmationId) ==>
        && on && (reply == Rejected || (faulty && reply == Failed(Unchanged)))
        && images == old(images) && log == old(log) && doubt == old(doubt) && ruleset == old(ruleset)
        && live == old(live) && lanReady == old(lanReady) && recoveryRequired == old(recoveryRequired)
      ensures on && reply.Expired? ==> faulty || Due(old(Visible()), clock)
      ensures on && (reply == Failed(Restored) || reply == Expired(Restored)) ==>
                !recoveryRequired && Visible().journal.None? && doubt.None?
                && TripleRewrites(old(Resolve(Visible())), Resolve(Visible()))
      ensures on && (reply == Failed(Required) || reply == Expired(Required)) ==> recoveryRequired
    {
      hide Rewrites, Links, Programmed, Validation.Validate;
      reply := Rejected;
      var recovering := RecoveryPending();
      if recovering { return; }
      var pending := PendingOperation();
      if pending.Err? { return Failed(Unchanged); }
      if pending.value.None? { return; }
      var op := pending.value.value;
      assert PendingImage(Visible(), op);
      if revision != op.proposed.value.revision || op.confirmationId != Some(confirmationId) { return; }
      var expired := PendingExpired(op);
      if expired {
        var ok := RecoverInterruptedApply();
        return Expired(if ok then Restored else Required);
      }
      reply := CommitConfirmed(op, confirming);
    }

    method CommitConfirmed(op: Operation, confirming: Principal) returns (reply: Reply)
      requires Valid() && on && doubt.None? && !recoveryRequired && PendingImage(Visible(), op)
      modifies `images, `on, `ruleset, `breach, `recoveryRequired, `live, `lanReady, `log, `doubt
      ensures Valid()
      ensures log == old(log) || (log == old(log) + [Confirmed(op, confirming)] && doubt.None?)
      ensures doubt.None? || (doubt == Some(Confirmed(op, confirming)) && log == old(log))
      ensures on && log != old(log) ==> reply == AcceptedReply(op.proposed.value.revision) && !recoveryRequired
                                        && Resolve(Visible()) == After(Confirmed(op, confirming))
      ensures on && log == old(log) ==> reply == Failed(Required) || reply == Failed(Restored)
      ensures !faulty ==> on && log != old(log) && Visible().journal.None?
      ensures on && reply == Failed(Restored) ==>
                !recoveryRequired && Visible().journal.None? && doubt.None?
                && TripleRewrites(old(Resolve(Visible())), Resolve(Visible()))
      ensures on && reply == Failed(Required) ==> recoveryRequired
    {
      hide Rewrites, Links, Programmed, Validation.Validate;
      var accepted := AcceptConfirmed(op, confirming);
      if !on { return Rejected; }
      if !accepted {
        var ok := RecoverInterruptedApply();
        return Failed(if ok then Restored else Required);
      }
      RewritesReflexive(op.proposed.value);
      CleanAccepted(After(Confirmed(op, confirming)));
      return AcceptedReply(op.proposed.value.revision);
    }

    method AcceptConfirmed(op: Operation, confirming: Principal) returns (ok: bool)
      requires Valid() && on && doubt.None? && !recoveryRequired && PendingImage(Visible(), op)
      modifies `images, `on, `log, `doubt
      ensures Coupled()
      ensures on ==> old(on)
      ensures log == old(log) || (log == old(log) + [Confirmed(op, confirming)] && doubt.None?)
      ensures doubt.None? || (doubt == Some(Confirmed(op, confirming)) && log == old(log) && Completed(Visible()))
      ensures on ==> (ok <==> log != old(log))
      ensures !faulty ==> ok
      ensures ok ==> on && forall f :: f in images ==> Completed(f) && Resolve(f) == After(Confirmed(op, confirming))
      ensures on && doubt.None? && !ok ==>
          Visible().journal == Some(op) && Resolve(Visible()) == old(Resolve(Visible()))
    {
      hide Rewrites, Links, Programmed, Validation.Validate;
      ghost var a := Confirmed(op, confirming);
      assert Links(Accepted(), a) by {
        assert Holds(Visible());
        AcceptLinks(Accepted(), Resolve(Visible()), a);
      }
      ok := WriteConfirmedFiles(op, confirming);
      assert Coupled();
      if !ok { return; }
      ok := WriteAccepted(Operation(Phase.Accepted, op.accepted, op.previousAccepted, op.previousAttribution, None,
        None,
                                    op.applying, op.draftVersion, None), a);
    }

    method WriteConfirmedFiles(op: Operation, confirming: Principal) returns (ok: bool)
      requires images != [] && on && InFlight(Visible()) && Visible().journal == Some(op) && op.proposed.Some?
      modifies `images, `on
      ensures images != []
      ensures !ok ==> faulty
      ensures on ==> Visible().journal == Some(op)
      ensures ok ==>
        && on
        && images == [Files(op.proposed.value, Some(op.accepted), Some(Confirmed(op, confirming).attribution),
            Some(op))]
      ensures forall f :: f in images ==> f in old(images) || (InFlight(f) && Resolve(f) == Resolve(old(Visible())))
    {
      var proposed := op.proposed.value;
      var receipts := AcceptedDraftReceipts(op.previousAttribution, op.accepted.revision, op.applying,
                                            op.draftVersion, proposed.revision);
      ok := Write(SetAttribution(Attribution(proposed.revision, op.applying, Some(confirming), None, receipts)));
      if !ok { return; }
      ok := Write(SetDesired(proposed));
      if !ok { return; }
      ok := Write(SetPrevious(op.accepted));
    }

    /** Runs before every request and every second. */
    method ExpirePendingConfirmation()
      requires Valid() && on
      modifies `images, `on, `ruleset, `breach, `recoveryRequired, `live, `lanReady
      ensures Valid()
      ensures on && old(!recoveryRequired && InFlight(Visible())) && !recoveryRequired ==>
                || images == old(images)
                || (Visible().journal.None? && TripleRewrites(old(Resolve(Visible())), Resolve(Visible())))
      ensures !faulty && Due(old(Visible()), clock) ==>
        && on
        && (!recoveryRequired <==> Validation.Validate(old(Resolve(Visible())).desired).None?)
        && (!recoveryRequired ==> Visible().journal.None? && lanReady.Some?)
      ensures !faulty && !Due(old(Visible()), clock) ==>
        && on && images == old(images) && ruleset == old(ruleset) && live == old(live) && lanReady == old(lanReady)
        && recoveryRequired == old(recoveryRequired)
    {
      hide Rewrites, Links, Programmed, Validation.Validate;
      var pending := PendingOperation();
      if pending.Err? {
        var guard := RequireRecoveryGuard();
        return;
      }
      if pending.value.Some? {
        assert recoveryRequired || PendingImage(Visible(), pending.value.value);
        var expired := if pending.value.value.deadline.None? then true else false;
        if !expired { expired := PendingExpired(pending.value.value); }
        if expired { var ok := RecoverInterruptedApply(); }
      }
    }

    // ----- the other requests ------------------------------------------------

    /** A recovery that is needed can succeed: forwarding is all that is left to
        reopen, or the validator accepts the state in the journal. */
    static predicate Recoverable(f: Files) {
      || f.journal.None?
      || (InFlight(f) && Validation.Validate(f.journal.value.accepted).None?)
    }

    /** The retained state has a revision, and an older one than the Accepted. */
    static predicate OldEnough(f: Files) {
      f.previous.Some? && 0 < f.previous.value.revision < Resolve(f).desired.revision
    }

    /** Nothing is in flight, and netd takes up the retained state. */
    static predicate Restorable(f: Files, dryRun: bool) {
      !InFlight(f) && OldEnough(f) && TakesUp(Resolve(f).desired, f.previous.value, None, dryRun)
    }

    /** `restore_previous`: finish a recovery if one is needed, else apply the
        retained predecessor as a new revision. */
    method RestorePreviousRequest(actor: Option<Principal>, dryRun: bool) returns (reply: Reply)
      requires Valid() && on
      modifies `images, `on, `ruleset, `breach, `recoveryRequired, `live, `lanReady, `log, `doubt
      ensures Valid()
      ensures old(recoveryRequired || InFlight(Visible())) ==> log == old(log) && doubt == old(doubt)
      ensures on && reply.RecoveredReply? ==>
                log == old(log) && !recoveryRequired && Visible().journal.None?
                && TripleRewrites(old(Resolve(Visible())), Resolve(Visible()))
      ensures log != old(log) || doubt != old(doubt) ==>
                old(Visible()).previous.Some?
                && 0 < old(Visible()).previous.value.revision < old(Resolve(Visible()).desired.revision)
      ensures log != old(log) || doubt != old(doubt) ==>
                Applied(old(Resolve(Visible())), old(log), old(Visible()).previous.value, actor, None,
                  RecoveryRestore, reply)
      ensures on && reply.AcceptedReply? ==> log != old(log)
      ensures !faulty ==> on
      ensures !faulty && old(recoveryRequired) ==>
        reply == if old(Recoverable(Visible())) then RecoveredReply(old(Resolve(Visible())).desired.revision)
                 else Failed(Required)
      ensures !faulty && !old(recoveryRequired) ==>
        if Restorable(old(Visible()), dryRun)
        then reply == AcceptedReply(old(Resolve(Visible())).desired.revision + 1) && Visible().journal.None?
        else reply == (if OldEnough(old(Visible())) || old(Visible()).previous.None? || InFlight(old(Visible()))
                       then Rejected else Failed(Unchanged))
             && images == old(images) && log == old(log) && ruleset == old(ruleset) && live == old(live)
             && lanReady == old(lanReady) && !recoveryRequired
    {
      hide Rewrites, Links, Programmed, Validation.Validate;
      var recovering := RecoveryPending();
      if recovering {
        ghost var accepted := Resolve(Visible()).desired;
        var ok := RecoverInterruptedApply();
        if !ok { return Failed(Required); }
        RewritesKeeps(accepted, Resolve(Visible()).desired);
        return RecoveredReply(Effective(Visible().desired).revision);
      }
      var pending := PendingOperation();
      if pending.Err? || pending.value.Some? { return Rejected; }
      var accepted := ReadAccepted();
      var unreadable := Fault();
      if accepted.None? || unreadable { return Failed(Unchanged); }
      if Visible().previous.None? { return Rejected; }
      var previous := Visible().previous.value;
      if previous.revision == 0 || previous.revision >= accepted.value.revision { return Failed(Unchanged); }
      reply := BeginApply(previous, Some(accepted.value.revision), actor, None, RecoveryRestore, dryRun);
    }

    /** `get_desired`: nothing while a recovery is needed. */
    method GetDesired() returns (desired: Option<DesiredState>)
      requires Valid() && on
      ensures desired.Some? ==>
                doubt.None? && desired.value == Resolve(Visible()).desired
                  && Rewrites(Accepted().desired, desired.value)
      ensures !faulty ==> (desired.Some? <==> !recoveryRequired)
    {
      hide Rewrites, Links, Programmed, Validation.Validate;
      assert Holds(Visible());
      var recovering := RecoveryPending();
      if recovering { return None; }
      desired := ReadAccepted();
    }

    /** `was_draft_accepted`: an unreadable attribution answers no. */
    method WasDraftAcceptedRequest(revision: nat, owner: Principal, version: string) returns (answer: Option<bool>)
      requires Valid() && on
      ensures answer == Some(true) ==> doubt.None? && WasDraftAccepted(Resolve(Visible()), revision, owner, version)
      ensures !faulty ==>
        answer == if recoveryRequired then None
                  else Some(WasDraftAccepted(Resolve(Visible()), revision, owner, version))
    {
      hide Rewrites, Links, Programmed, Validation.Validate, WasDraftAccepted;
      var recovering := RecoveryPending();
      if recovering { return None; }
      var accepted := ReadAccepted();
      if accepted.None? { return None; }
      var unreadable := Fault();
      if unreadable { UnreadableAnswersNo(Triple(accepted.value, Visible().previous, None), revision, owner, version); }
      var attribution := if unreadable then None else Visible().attribution;
      answer := Some(WasDraftAccepted(Triple(accepted.value, Visible().previous, attribution), revision, owner,
        version));
    }

    static lemma UnreadableAnswersNo(t: Triple, revision: nat, owner: Principal, version: string)
      requires t.attribution.None?
      ensures !WasDraftAccepted(t, revision, owner, version)
    {
    }

    // ----- startup ------------------------------------------------------------

    /** netd is up and forwards: it did not exit, and no recovery is needed. */
    predicate Serving()
      reads `on, `recoveryRequired
    {
      on && !recoveryRequired
    }

    /** The process stops, or the power goes and one image is left. */
    method Stop(powerLost: bool)
      requires Valid()
      modifies `images, `on
      ensures Valid() && !on
      ensures Visible() in old(images) && (!powerLost ==> images == old(images))
    {
      hide Rewrites, Links, Programmed, Validation.Validate;
      on := false;
      if powerLost {
        var survivor :| 0 <= survivor < |images|;
        images := [images[survivor]];
      }
    }

    /** If the power went at any time since netd last ran, the kernel comes up
        empty; if only the process died, it filters as it did. */
    method LoseVolatile()
      modifies `ruleset, `live, `lanReady
    {
      var powerWasLost: bool := *;
      if powerWasLost {
        ruleset, live, lanReady := Ruleset(Unfiltered, false), None, None;
      }
    }

    /** A directory that can only have one content decides what was in doubt. */
    ghost method Settle()
      requires Coupled() && |images| == 1
      modifies `log, `doubt
      ensures Coupled() && doubt.None?
      ensures log == if old(doubt).Some? && Completed(Visible()) then old(log) + [old(doubt).value] else old(log)
    {
      hide Rewrites, Links, Programmed, Validation.Validate;
      assert Holds(Visible());
      if doubt.Some? && Completed(Visible()) {
        AppendLinks(origin, log, doubt.value);
        LinkedRevision(Accepted(), doubt.value);
        log := log + [doubt.value];
      }
      doubt := None;
    }

    method Boot()
      requires Valid() && !on
      modifies `images, `on, `ruleset, `breach, `recoveryRequired, `live, `lanReady, `log, `doubt
      ensures Valid()
      ensures doubt.Some? ==> doubt == old(doubt) && log == old(log)
      ensures doubt.None? ==> log == (if old(doubt).Some? && Completed(old(Visible()))
          then old(log) + [old(doubt).value] else old(log))
      ensures !faulty ==> (Serving() <==> Validation.Validate(old(Resolve(Visible())).desired).None?)
      ensures !faulty && !Serving() ==> Visible() == old(Visible()) && (on ==> ruleset.guarded)
      ensures !faulty && Serving() ==>
        && doubt.None? && Visible().journal.None?
        && TripleRewrites(old(Resolve(Visible())), Resolve(Visible()))
        && !ruleset.guarded && Enforces(ruleset, Visible()) && lanReady.Some?
    {
      hide Rewrites, Links, Programmed, Validation.Validate;
      if |images| == 1 { Settle(); }
      LoseVolatile();
      on := true;
      recoveryRequired := false;
      var operation := OperationRequiresRecovery();
      var pending := PendingOperation();
      if operation || pending.Err? || pending.value.Some? {
        BootInterrupted();
      } else {
        BootAccepted();
      }
    }

    /** A failed recovery leaves netd serving, behind the guard, for an
        administrator to retry. */
    method BootInterrupted()
      requires Coupled() && on && (doubt.Some? ==> Completed(Visible())) && Visible().journal.Some?
      modifies `images, `on, `ruleset, `breach, `recoveryRequired, `live, `lanReady
      ensures Valid()
      ensures !faulty && InFlight(old(Visible())) ==>
        && (Serving() <==> Validation.Validate(old(Resolve(Visible())).desired).None?)
        && (!Serving() ==> Visible() == old(Visible()) && ruleset.guarded)
        && (Serving() ==>
              && Visible().journal.None? && !ruleset.guarded && Enforces(ruleset, Visible()) && lanReady.Some?
              && TripleRewrites(old(Resolve(Visible())), Resolve(Visible())))
    {
      hide Rewrites, Links, Programmed, Validation.Validate;
      var guard := RequireRecoveryGuard();
      var pull := Fault();
      if !on || !guard || pull { on := false; return; }
      var ok := RecoverInterruptedApply();
    }

    method BootAccepted()
      requires Coupled() && on && !recoveryRequired && !InFlight(Visible())
      modifies `images, `on, `ruleset, `breach, `live, `lanReady, `log, `doubt
      ensures Valid()
      ensures doubt.Some? ==> doubt == old(doubt) && log == old(log)
      ensures doubt.None? ==> log == (if old(doubt).Some? && Completed(old(Visible()))
          then old(log) + [old(doubt).value] else old(log))
      ensures !faulty ==> (Serving() <==> Validation.Validate(old(Resolve(Visible())).desired).None?)
      ensures !faulty && !Serving() ==> Visible() == old(Visible()) && (on ==> ruleset.guarded)
      ensures !faulty && Serving() ==>
        && doubt.None? && Visible().journal.None? && !ruleset.guarded && Enforces(ruleset, Visible()) && lanReady.Some?
        && TripleRewrites(old(Resolve(Visible())), Resolve(Visible()))
    {
      hide Rewrites, Links, Programmed, Validation.Validate;
      var pull := Fault();
      if pull { on := false; return; }
      var ok := ProgramBooted();
      if !ok { on := false; return; }
      Settle();
      PublishBooted();
    }

    /** The stored state, programmed and written back as it then is. */
    method ProgramBooted() returns (ok: bool)
      requires Coupled() && on && !recoveryRequired && !InFlight(Visible()) && (doubt.Some? ==> Completed(Visible()))
      modifies `images, `on, `ruleset, `breach, `live
      ensures Coupled()
      ensures doubt.Some? ==> Completed(Visible()) || |images| == 1
      ensures ok ==>
        && on && |images| == 1 && !InFlight(Visible()) && Completed(Visible()) == old(Completed(Visible()))
        && TripleRewrites(old(Resolve(Visible())), Resolve(Visible()))
        && ruleset == Ruleset(PolicyOf(Visible().desired), false)
        && LiveIs(Resolve(Visible()).desired) && FiltersFor(Resolve(Visible()).desired)
        && Validation.Validate(old(Resolve(Visible())).desired).None?
      ensures !ok ==> faulty || Validation.Validate(old(Resolve(Visible())).desired).Some?
      ensures !ok && !faulty ==> Visible() == old(Visible())
    {
      hide Rewrites, Links, Programmed, Validation.Validate;
      EffectiveValid(Visible().desired);
      var result;
      ok, result := Program(Visible().desired);
      if !ok { return; }
      RewritesReflexive(Effective(result));
      ok := PersistBooted(result);
    }

    method PublishBooted()
      requires Coupled() && doubt.None? && on && !recoveryRequired && !InFlight(Visible())
      requires LiveIs(Resolve(Visible()).desired) && FiltersFor(Resolve(Visible()).desired)
      modifies `images, `on, `lanReady
      ensures Valid()
      ensures on ==> Resolve(Visible()) == old(Resolve(Visible())) && Visible().desired == old(Visible().desired)
      ensures !faulty ==> on && Visible().journal.None? && lanReady.Some?
    {
      hide Rewrites, Links, Programmed, Validation.Validate;
      assert Holds(Visible());
      var recovering := RecoveryPending();
      if !recovering {
        var ok := SetLanServicesReady(true);
        if !ok { on := false; return; }
      }
      var required := OperationRequiresRecovery();
      if Visible().journal.Some? && !required {
        var cleaned := Remove(JournalFile);
      }
    }

    method PersistBooted(result: DesiredState) returns (ok: bool)
      requires Coupled() && on && !InFlight(Visible()) && (doubt.Some? ==> Completed(Visible()))
      requires Rewrites(Visible().desired, result)
      modifies `images, `on
      ensures Coupled()
      ensures on ==> !InFlight(Visible())
      ensures doubt.Some? ==> Completed(Visible()) || (!on && |images| == 1)
      ensures ok ==>
        && on && |images| == 1 && Visible().desired == result
        && Completed(Visible()) == old(Completed(Visible()))
        && TripleRewrites(old(Resolve(Visible())), Resolve(Visible()))
      ensures !ok ==> faulty
    {
      hide Rewrites, Links, Programmed, Validation.Validate;
      assert Holds(Visible());
      ghost var t := Resolve(Visible());
      EffectiveRewrites(Visible().desired, result);
      if doubt.Some? {
        RewritesTransitive(doubt.value.result, t.desired, Effective(result));
      } else {
        RewritesTransitive(Accepted().desired, t.desired, Effective(result));
      }
      ok := Write(SetDesired(result));
    }
  }
}
