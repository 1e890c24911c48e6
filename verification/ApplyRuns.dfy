/** Whole runs of netd: any requests, in any order, with faults in any file or
    kernel operation and the process or the power lost at any point. */
module ApplyRuns {
  import opened Common
  import opened Desired
  import opened Journal
  import opened AcceptedHistory
  import opened ApplyTransaction
  import opened Revalidation
  import Firewall
  import Validation

  /** What may happen to a machine. Whether the environment injects faults is
      for the environment to choose; what a request finds is not. */
  datatype Event =
    | Weather(faulty: bool)
    | Start
    | Stop(powerLost: bool)
    | Apply(input: DesiredState, base: Option<nat>, actor: Option<Principal>, draftVersion: Option<string>,
            intent: Intent, dryRun: bool)
    | Confirm(revision: nat, id: nat, confirming: Principal)
    | RestorePrevious(actor: Option<Principal>, dryRun: bool)
    | Read

  /** What an event found: the files a reader saw, and the boot clock. */
  datatype Moment = Moment(files: Files, clock: nat)

  /** `e`, happening at `m`, asks for exactly the acceptance `a`. A confirmed
      one is the proposal pending at `m`, named by its revision and id while
      its deadline had not passed. */
  ghost predicate AskedFor(e: Event, m: Moment, a: Acceptance) {
    var t := Resolve(m.files);
    match e
    case Apply(input, base, actor, draftVersion, intent, dryRun) =>
      && !InFlight(m.files) && (base.Some? ==> base.value == t.desired.revision)
      && Netd.MadeFrom(t, input, actor, draftVersion, intent, a)
    case Confirm(revision, id, confirming) =>
      Netd.MayConfirm(m.files, revision, id, m.clock) && a == Netd.Confirmed(m.files.journal.value, confirming)
    case RestorePrevious(actor, dryRun) =>
      && m.files.previous.Some? && 0 < m.files.previous.value.revision < t.desired.revision
      && Netd.MadeFrom(t, m.files.previous.value, actor, None, RecoveryRestore, a)
    case _ => false
  }

  /** One event. `accepted` is the acceptance an administrator was promised, if
      the reply promises one. */
  method Happen(netd: Netd, e: Event) returns (ghost m: Moment, ghost accepted: Option<Acceptance>)
    requires netd.Valid()
    modifies netd
    ensures netd.Valid()
    ensures netd.log == old(netd.log) || (|netd.log| == |old(netd.log)| + 1 && old(netd.log) <= netd.log)
    ensures netd.log != old(netd.log) ==>
      var a := netd.log[|old(netd.log)|];
      old(netd.doubt) == Some(a) || AskedFor(e, m, a)
    ensures netd.doubt.Some? ==> netd.doubt == old(netd.doubt) || AskedFor(e, m, netd.doubt.value)
    ensures accepted.Some? ==> accepted.value in netd.log
  {
    hide Rewrites, Links, Programmed, Resolve, AskedFor, Validation.Validate;
    accepted := None;
    m := Moment(netd.Visible(), netd.clock);
    if e.Weather? {
      netd.faulty := e.faulty;
    } else if e.Stop? {
      netd.Stop(e.powerLost);
    } else if !netd.on {
      if e.Start? { netd.Boot(); }
    } else if !e.Start? {
      m, accepted := Serve(netd, e);
    }
  }

  /** One request. */
  method Serve(netd: Netd, e: Event) returns (ghost m: Moment, ghost accepted: Option<Acceptance>)
    requires netd.Valid() && netd.on
    modifies netd`images, netd`on, netd`ruleset, netd`breach, netd`recoveryRequired, netd`live, netd`lanReady,
             netd`log, netd`doubt, netd`clock
    ensures netd.Valid()
    ensures netd.log == old(netd.log) || (|netd.log| == |old(netd.log)| + 1 && old(netd.log) <= netd.log)
    ensures netd.log != old(netd.log) ==> AskedFor(e, m, netd.log[|old(netd.log)|])
    ensures netd.doubt.Some? ==> netd.doubt == old(netd.doubt) || AskedFor(e, m, netd.doubt.value)
    ensures accepted.Some? ==> accepted.value in netd.log
  {
    hide Rewrites, Links, Programmed, Resolve, Validation.Validate, ValidLog, Netd.Shown, Netd.Holds, Netd.PendingImage;
    accepted := None;
    netd.Tick();
    netd.ExpirePendingConfirmation();
    m := Moment(netd.Visible(), netd.clock);
    if !netd.on { return; }
    ghost var before := netd.log;
    var reply: Reply := Busy;
    match e {
      case Apply(input, base, actor, draftVersion, intent, dryRun) =>
        reply := netd.ApplyDesired(input, base, actor, draftVersion, intent, dryRun);
      case Confirm(revision, id, confirming) =>
        reply := netd.ConfirmApply(revision, id, confirming);
      case RestorePrevious(actor, dryRun) =>
        reply := netd.RestorePreviousRequest(actor, dryRun);
      case _ =>
        var desired := netd.GetDesired();
    }
    if netd.on && reply.AcceptedReply? {
      accepted := Some(netd.log[|before|]);
    }
  }

  /** What the kernel of a running netd is left with between two requests: the
      Accepted state of the history, live and filtered by, unless a recovery is
      needed; and still live if all that recovery lacks is to reopen forwarding.
      While a confirmation is awaited, the proposal instead. */
  ghost predicate RunsAccepted(netd: Netd)
    requires netd.images != []
    reads netd
  {
    netd.on ==>
      var f, accepted := netd.Visible(), netd.Accepted().desired;
      && (f.journal.None? || (netd.Serving() && !InFlight(f)) ==> netd.LiveIs(accepted))
      && (netd.Serving() && !InFlight(f) ==> netd.FiltersFor(accepted))
      && (netd.Serving() && InFlight(f) ==>
            && f.journal.value.proposed.Some? && netd.live == f.journal.value.proposed
            && netd.FiltersFor(netd.live.value) && Programmed(netd.live.value)
            && Rewrites(accepted, f.journal.value.accepted))
  }

  lemma ValidRunsAccepted(netd: Netd)
    requires netd.Valid()
    ensures RunsAccepted(netd)
  {
    hide Rewrites, Links, Programmed, Validation.Validate;
    var f := netd.Visible();
    assert netd.Holds(f);
    if netd.on && (f.journal.None? || (netd.Serving() && !InFlight(f))) {
      RewritesTransitive(netd.Accepted().desired, Resolve(f).desired, Effective(netd.live.value));
    }
    if netd.Serving() && !InFlight(f) {
      RewritesTransitive(netd.Accepted().desired, Resolve(f).desired, Effective(netd.ruleset.policy.state));
    }
    if netd.Serving() && InFlight(f) { assert netd.PendingImage(f, f.journal.value); }
  }

  /** Whenever netd serves, its answer about a draft is the reference's: whether
      it is the last one its owner had accepted. */
  method DraftAnswer(netd: Netd, owner: Principal, version: string) returns (answer: Option<bool>)
    requires netd.Valid() && netd.Serving() && !netd.faulty && WellAttributed(netd.origin)
    ensures answer == Some(LastDraft(netd.origin, netd.log, |netd.log|, owner) == Some(version))
  {
    hide Rewrites, Links, WellAttributed, LastDraft, WasDraftAccepted, ValidLog;
    assert netd.Holds(netd.Visible());
    HistoryLaws(netd.origin, netd.log, Resolve(netd.Visible()));
    answer := netd.WasDraftAcceptedRequest(Resolve(netd.Visible()).desired.revision, owner, version);
  }

  /** So whenever netd serves, at any point of any run, the policy in force is
      one the validator accepts, and the ruleset means it. */
  lemma ServingFilters(netd: Netd)
    requires netd.Valid() && netd.Serving()
    requires netd.log != [] || Validation.PolicyAccepted(netd.origin.desired)
    ensures !netd.ruleset.guarded && netd.ruleset.policy.PolicyOf?
    ensures Validation.PolicyAccepted(netd.ruleset.policy.state)
    ensures Firewall.FiltersAs(Firewall.Installed(netd.ruleset), netd.ruleset.policy.state)
  {
    hide Links, Programmed, Extends, OwnKept, Anchored, Validation.Validate, Validation.PolicyAccepted,
         Firewall.FiltersAs;
    hide Firewall.NftRules;
    ValidRunsAccepted(netd);
    var state := netd.ruleset.policy.state;
    var d := if InFlight(netd.Visible()) then netd.live.value else netd.Accepted().desired;
    if InFlight(netd.Visible()) {
      ProgrammedMeaning(d);
    } else {
      HistoryIsValidated(netd.origin, netd.log, |netd.log|);
    }
    Validation.PolicyExtends(d, Effective(state));
    Validation.PolicyRenumbered(state, Effective(state).revision);
    Firewall.PolicyFilters(state);
  }

  /** Every run: the history only grows, by acceptances some event of the run
      asked for when it happened, and each promised acceptance stays in it
      whatever happens after the promise; and the kernel runs what it should. */
  method AnyRun(netd: Netd, script: seq<Event>) returns (ghost seen: seq<Moment>, ghost promised: seq<Acceptance>)
    requires netd.Valid()
    modifies netd
    ensures netd.Valid() && old(netd.log) <= netd.log && |seen| == |script|
    ensures forall a :: a in promised ==> a in netd.log
    ensures forall i :: |old(netd.log)| <= i < |netd.log| ==>
              old(netd.doubt) == Some(netd.log[i]) || Asked(script, seen, netd.log[i])
    ensures RunsAccepted(netd)
  {
    hide *;
    seen, promised := [], [];
    for k := 0 to |script|
      invariant netd.Valid() && old(netd.log) <= netd.log && |seen| == k
      invariant forall a :: a in promised ==> a in netd.log
      invariant forall i :: |old(netd.log)| <= i < |netd.log| ==>
                  old(netd.doubt) == Some(netd.log[i]) || Asked(script[..k], seen, netd.log[i])
      invariant netd.doubt.Some? ==> netd.doubt == old(netd.doubt) || Asked(script[..k], seen, netd.doubt.value)
    {
      ghost var was, doubt := netd.log, netd.doubt;
      ghost var m, accepted := Happen(netd, script[k]);
      if accepted.Some? { promised := promised + [accepted.value]; }
      AskedLater(script[..k], seen, script[k], m);
      seen := seen + [m];
      assert script[..k + 1] == script[..k] + [script[k]];
    }
    assert script[..|script|] == script;
    ValidRunsAccepted(netd);
  }

  ghost predicate Asked(script: seq<Event>, seen: seq<Moment>, a: Acceptance) {
    |script| == |seen| && exists j :: 0 <= j < |script| && AskedFor(script[j], seen[j], a)
  }

  lemma AskedLater(script: seq<Event>, seen: seq<Moment>, e: Event, m: Moment)
    requires |script| == |seen|
    ensures forall a: Acceptance :: AskedFor(e, m, a) ==> Asked(script + [e], seen + [m], a)
    ensures forall a: Acceptance :: Asked(script, seen, a) ==> Asked(script + [e], seen + [m], a)
  {
    hide AskedFor;
    forall a: Acceptance | AskedFor(e, m, a)
      ensures Asked(script + [e], seen + [m], a)
    {
      assert AskedFor((script + [e])[|script|], (seen + [m])[|script|], a);
    }
    forall a: Acceptance | Asked(script, seen, a)
      ensures Asked(script + [e], seen + [m], a)
    {
      var j :| 0 <= j < |script| && AskedFor(script[j], seen[j], a);
      assert AskedFor((script + [e])[j], (seen + [m])[j], a);
    }
  }

  /** The Accepted triple a boot from `f` has to reach: that of the history,
      or of the acceptance in doubt if `f` completes it. */
  ghost function InForce(origin: Triple, log: seq<Acceptance>, doubt: Option<Acceptance>, f: Files): Triple {
    if doubt.Some? && Completed(f) then After(doubt.value) else Committed(origin, log)
  }

  /** Nothing is left of whatever happened before: one content, no doubt, the
      Accepted policy in force, and draft receipts that are the reference's. */
  ghost predicate Converged(netd: Netd)
    requires netd.images != []
    reads netd
  {
    var t := Resolve(netd.Visible());
    && netd.doubt.None? && netd.Visible().journal.None?
    && !netd.ruleset.guarded && Enforces(netd.ruleset, netd.Visible())
    && TripleRewrites(netd.Accepted(), t)
    && netd.LiveIs(t.desired) && netd.FiltersFor(t.desired) && netd.lanReady.Some?
    && t.desired.revision == netd.origin.desired.revision + |netd.log|
    && ReceiptsRead(netd.origin, netd.log, t)
  }

  ghost predicate ReceiptsRead(origin: Triple, log: seq<Acceptance>, t: Triple) {
    forall owner, version ::
      WasDraftAccepted(t, t.desired.revision, owner, version) <==> LastDraft(origin, log, |log|, owner) == Some(version)
  }

  lemma InForceValidity(origin: Triple, log: seq<Acceptance>, doubt: Option<Acceptance>, f: Files)
    requires ValidLog(origin, log) && (doubt.Some? ==> Links(Committed(origin, log), doubt.value))
    requires TripleRewrites(InForce(origin, log, doubt, f), Resolve(f))
    ensures var t := InForce(origin, log, doubt, f);
      && (log != [] || (doubt.Some? && Completed(f)) ==>
            (Validation.Validate(Resolve(f).desired).None? <==> !ShadowedPrefix(t.desired)))
      && (Anchored(t.desired) ==>
            (Validation.Validate(Resolve(f).desired).None? <==> Validation.Validate(t.desired).None?))
  {
    hide Programmed, Anchored, ShadowedPrefix, Validation.Validate, Extends, NextAttribution;
    var t := InForce(origin, log, doubt, f);
    if doubt.Some? && Completed(f) {
      ProgrammedMeaning(doubt.value.result);
    } else if log != [] {
      assert Links(CommittedAt(origin, log, |log| - 1), log[|log| - 1]);
      ProgrammedMeaning(log[|log| - 1].result);
    }
  }

  /** From wherever a run stopped, one fault-free boot serves again exactly
      when the validator accepts the state the files resolve to. After any
      acceptance that is the case unless the Accepted state shadows its own
      prefix; a boot that serves ends with no journal and exactly the Accepted
      network the history names, whose draft receipts are the reference ones.
      A boot that does not leaves the files to refuse the next one as well,
      and what runs is guarded. */
  method OneGoodBoot(netd: Netd, powerLost: bool) returns (ghost f: Files)
    requires netd.Valid() && WellAttributed(netd.origin)
    modifies netd
    ensures netd.Valid() && old(netd.log) <= netd.log && f in old(netd.images)
    ensures netd.Serving() <==> Validation.Validate(Resolve(f).desired).None?
    ensures var t := InForce(netd.origin, old(netd.log), old(netd.doubt), f);
      && TripleRewrites(t, Resolve(f))
      && (old(netd.log) != [] || (old(netd.doubt).Some? && Completed(f)) ==>
            (netd.Serving() <==> !ShadowedPrefix(t.desired)))
      && (Anchored(t.desired) ==> (netd.Serving() <==> Validation.Validate(t.desired).None?))
      && (netd.Serving() ==>
            && netd.Accepted() == t && Converged(netd)
            && TripleRewrites(Resolve(f), Resolve(netd.Visible())))
    ensures !netd.Serving() ==> netd.Visible() == f && (netd.on ==> netd.ruleset.guarded)
  {
    hide Rewrites, Links, Programmed, Anchored, ShadowedPrefix, WellAttributed, LastDraft, WasDraftAccepted,
         Validation.Validate, ReceiptsRead;
    if netd.on { netd.Stop(powerLost); }
    f := netd.Visible();
    ghost var t := InForce(netd.origin, netd.log, netd.doubt, f);
    assert netd.Holds(f);
    InForceValidity(netd.origin, netd.log, netd.doubt, f);
    netd.faulty := false;
    netd.Boot();
    if netd.Serving() {
      assert netd.Holds(netd.Visible());
      HistoryLaws(netd.origin, netd.log, Resolve(netd.Visible()));
    }
  }

  /** What the history says of any files that extend its Accepted triple. */
  lemma HistoryLaws(origin: Triple, log: seq<Acceptance>, t: Triple)
    requires ValidLog(origin, log) && WellAttributed(origin) && TripleRewrites(Committed(origin, log), t)
    ensures t.desired.revision == origin.desired.revision + |log|
    ensures ReceiptsRead(origin, log, t)
  {
    hide Rewrites, ValidLog, WellAttributed, LastDraft;
    HistoryIsChain(origin, log, |log|);
    var c := Committed(origin, log);
    RewritesKeeps(c.desired, t.desired);
    forall owner, version
      ensures WasDraftAccepted(t, t.desired.revision, owner, version) <==>
          LastDraft(origin, log, |log|, owner) == Some(version)
    {
      ReceiptsAreExact(origin, log, owner, version);
    }
  }

  /** And what serves filters as the Accepted policy means, whatever run of
      requests, faults and crashes led there. */
  method OneGoodBootFilters(netd: Netd, powerLost: bool) returns (ghost f: Files)
    requires netd.Valid() && WellAttributed(netd.origin)
    modifies netd
    ensures netd.Valid() && f in old(netd.images)
    ensures netd.Serving() <==> Validation.Validate(Resolve(f).desired).None?
    ensures netd.Serving() ==>
      && Enforces(netd.ruleset, netd.Visible()) && Validation.PolicyAccepted(netd.ruleset.policy.state)
      && Firewall.FiltersAs(Firewall.Installed(netd.ruleset), netd.ruleset.policy.state)
  {
    hide Rewrites, Links, WellAttributed, LastDraft, WasDraftAccepted, Validation.Validate, Validation.PolicyAccepted,
         Firewall.FiltersAs, Firewall.NftRules;
    f := OneGoodBoot(netd, powerLost);
    if netd.Serving() {
      PolicyInForce(Resolve(f).desired, netd.ruleset, netd.Visible());
      Firewall.PolicyFilters(netd.ruleset.policy.state);
    }
  }

  lemma PolicyInForce(stored: DesiredState, ruleset: Ruleset, f: Files)
    requires Validation.Validate(stored).None? && Rewrites(stored, Resolve(f).desired)
    requires f.journal.None? && Enforces(ruleset, f)
    ensures Validation.PolicyAccepted(ruleset.policy.state)
  {
    hide Validation.Validate, Extends, Anchored, Validation.PolicyAccepted;
    var state := ruleset.policy.state;
    Validation.ValidatedPolicy(stored);
    Validation.PolicyExtends(stored, Effective(f.desired));
    Validation.PolicyRenumbered(state, Effective(f.desired).revision);
  }

  /** Two accepted requests to restore the previous state, with no other
      acceptance between them, bring the network back two revisions later. */
  method RestoreTwice(netd: Netd, actor: Option<Principal>, again: Option<Principal>, dryRun: bool)
    returns (first: Reply, second: Reply)
    requires netd.Valid() && netd.on
    modifies netd
    ensures netd.Valid()
    ensures netd.on && first.AcceptedReply? && second.AcceptedReply? ==>
      var before, t := old(Resolve(netd.Visible())).desired, Resolve(netd.Visible());
      && t.desired.revision == before.revision + 2
      && Rewrites(before.(revision := before.revision + 2), t.desired)
      && old(netd.Visible()).previous.Some? && t.previous.Some?
      && Rewrites(old(netd.Visible()).previous.value.(revision := before.revision + 1), t.previous.value)
  {
    hide Rewrites, Links, Programmed, Validation.Validate;
    second := Busy;
    first := netd.RestorePreviousRequest(actor, dryRun);
    if !netd.on || !first.AcceptedReply? { return; }
    RestoredRevision(old(Resolve(netd.Visible())), old(netd.Visible()).previous.value, actor, netd.log[|netd.log| - 1]);
    label Between:
    ghost var t, log := Resolve(netd.Visible()), netd.log;
    second := netd.RestorePreviousRequest(again, dryRun);
    if netd.on && second.AcceptedReply? {
      RestoredRevision(t, old@Between(netd.Visible()).previous.value, again, netd.log[|log|]);
    }
  }

  lemma RestoredRevision(t: Triple, input: DesiredState, actor: Option<Principal>, a: Acceptance)
    requires Netd.MadeFrom(t, input, actor, None, RecoveryRestore, a)
    ensures a.result.revision == t.desired.revision + 1
  {
    hide Rewrites;
    RewritesKeeps(input.(revision := a.base.revision + 1), a.result);
  }
}
