/** The one-step machine the apply transaction refines: a log of atomic
    acceptances. Everything the files may say is a prefix-closed reading of
    that log, so the laws of the Accepted network are laws of the log. */
module AcceptedHistory {
  import opened Common
  import opened Desired
  import opened Journal
  import opened Revalidation
  import Validation

  /** One atomic accept: `result` replaced `base`. */
  datatype Acceptance = Acceptance(
    base: DesiredState,
    result: DesiredState,
    applying: Option<Principal>,
    confirming: Option<Principal>,
    draftVersion: Option<string>,
    recoveryRestore: bool,
    attribution: Attribution)

  function After(a: Acceptance): Triple {
    Triple(a.result, Some(a.base), Some(a.attribution))
  }

  /** The Accepted triple after the first `n` acceptances. */
  function CommittedAt(origin: Triple, log: seq<Acceptance>, n: nat): Triple
    requires n <= |log|
  {
    if n == 0 then origin else After(log[n - 1])
  }

  function Committed(origin: Triple, log: seq<Acceptance>): Triple {
    CommittedAt(origin, log, |log|)
  }

  function NextAttribution(t: Triple, a: Acceptance): Attribution {
    Attribution(a.result.revision, a.applying, a.confirming, None,
                AcceptedDraftReceipts(t.attribution, a.base.revision, a.applying, a.draftVersion,
                                      a.result.revision))
  }

  /** `a` is a legal accept on top of `t`: proposed on exactly that state,
      one revision later, attributed on top of its receipts, confirmed
      wherever the replaced state demands confirmation, and what programming
      made of a state the validator accepts. */
  ghost predicate Links(t: Triple, a: Acceptance) {
    && Rewrites(t.desired, a.base)
    && a.result.revision == a.base.revision + 1
    && a.attribution == NextAttribution(t, a)
    && (a.confirming.None? ==> !a.base.applyConfirmation || a.recoveryRestore)
    && Programmed(a.result)
  }

  /** An accept decided on `u`, which the files hold for `t`, is one on `t`. */
  lemma AcceptLinks(t: Triple, u: Triple, a: Acceptance)
    requires TripleRewrites(t, u) && a.base == u.desired
    requires a.result.revision == a.base.revision + 1 && a.attribution == NextAttribution(u, a)
    requires a.confirming.None? ==> !a.base.applyConfirmation || a.recoveryRestore
    requires Programmed(a.result)
    ensures Links(t, a)
  {
    hide Programmed;
  }

  lemma LinkedRevision(t: Triple, a: Acceptance)
    requires Links(t, a)
    ensures a.result.revision >= 1
  {
  }

  ghost predicate ValidLog(origin: Triple, log: seq<Acceptance>) {
    forall i :: 0 <= i < |log| ==> Links(CommittedAt(origin, log, i), log[i])
  }

  lemma AppendLinks(origin: Triple, log: seq<Acceptance>, a: Acceptance)
    requires ValidLog(origin, log) && Links(Committed(origin, log), a)
    ensures ValidLog(origin, log + [a])
    ensures Committed(origin, log + [a]) == After(a)
  {
    hide Links;
    forall i | 0 <= i < |log + [a]|
      ensures Links(CommittedAt(origin, log + [a], i), (log + [a])[i])
    {
      assert CommittedAt(origin, log + [a], i) == CommittedAt(origin, log, i);
    }
  }

  // ----- the chain of revisions ---------------------------------------------

  /** Every Accepted revision is its predecessor plus one, decided on exactly
      that predecessor, and the retained previous state is always the
      immediately preceding Accepted one. */
  lemma {:induction false} HistoryIsChain(origin: Triple, log: seq<Acceptance>, n: nat)
    requires ValidLog(origin, log) && n <= |log|
    ensures CommittedAt(origin, log, n).desired.revision == origin.desired.revision + n
    ensures n > 0 ==>
      && Rewrites(CommittedAt(origin, log, n - 1).desired, log[n - 1].base)
      && CommittedAt(origin, log, n).previous == Some(log[n - 1].base)
      && CommittedAt(origin, log, n).attribution.Some?
      && CommittedAt(origin, log, n).attribution.value.revision == origin.desired.revision + n
      && (log[n - 1].base.applyConfirmation ==> log[n - 1].confirming.Some? || log[n - 1].recoveryRestore)
  {
    hide Rewrites, AcceptedDraftReceipts, Programmed, Validation.Validate;
    if n > 0 {
      HistoryIsChain(origin, log, n - 1);
      assert Links(CommittedAt(origin, log, n - 1), log[n - 1]);
      RewritesKeeps(CommittedAt(origin, log, n - 1).desired, log[n - 1].base);
    }
  }

  /** No Accepted state but the first can have a policy the validator refuses,
      and each of them is valid again exactly unless it shadows its own prefix. */
  lemma HistoryIsValidated(origin: Triple, log: seq<Acceptance>, n: nat)
    requires ValidLog(origin, log) && n <= |log|
    ensures n > 0 || Validation.PolicyAccepted(origin.desired) ==>
      Validation.PolicyAccepted(CommittedAt(origin, log, n).desired)
    ensures n > 0 ==>
      var accepted := CommittedAt(origin, log, n).desired;
      Anchored(accepted) && (Validation.Validate(accepted).None? <==> !ShadowedPrefix(accepted))
  {
    hide Rewrites, Validation.PolicyAccepted, Validation.Validate, ShadowedPrefix, Anchored, Programmed;
    if n > 0 {
      assert Links(CommittedAt(origin, log, n - 1), log[n - 1]);
      ProgrammedMeaning(log[n - 1].result);
    }
  }

  /** An accept that restored the retained predecessor. */
  ghost predicate RestoresPredecessor(t: Triple, a: Acceptance) {
    && t.previous.Some?
    && Rewrites(t.previous.value.(revision := a.base.revision + 1), a.result)
  }

  /** Restoring twice brings the network back two revisions later. */
  lemma RestoreTwiceReturns(t: Triple, first: Acceptance, second: Acceptance)
    requires Links(t, first) && RestoresPredecessor(t, first)
    requires Links(After(first), second) && RestoresPredecessor(After(first), second)
    ensures Rewrites(t.desired.(revision := t.desired.revision + 2), second.result)
    ensures After(second).previous == Some(second.base) && Rewrites(first.result, second.base)
  {
    hide Rewrites, Programmed, NextAttribution;
    var back := t.desired.(revision := t.desired.revision + 2);
    var base := first.base.(revision := t.desired.revision + 2);
    RewritesKeeps(t.desired, first.base);
    RewritesRenumbered(t.desired, first.base, t.desired.revision + 2);
    RewritesKeeps(first.result, second.base);
    RewritesTransitive(back, base, second.result);
  }

  // ----- draft receipts -------------------------------------------------------

  /** Whose receipt it is: the account, whatever name it goes by. */
  function OwnerKey(owner: Principal): (string, string) {
    (owner.source, owner.subject)
  }

  ghost predicate OnePerOwner(receipts: seq<DraftReceipt>) {
    forall i, j :: 0 <= i < j < |receipts| ==> OwnerKey(receipts[i].owner) != OwnerKey(receipts[j].owner)
  }

  ghost predicate ReceiptsUpTo(receipts: seq<DraftReceipt>, revision: nat) {
    forall i :: 0 <= i < |receipts| ==> receipts[i].acceptedRevision <= revision
  }

  /** What netd has ever written: receipts of this revision or earlier, one to
      an owner; a first-format record has none. */
  ghost predicate WellAttributed(t: Triple) {
    t.attribution.Some? ==>
      var record := t.attribution.value;
      && record.revision == t.desired.revision
      && OnePerOwner(record.receipts) && ReceiptsUpTo(record.receipts, record.revision)
      && (record.draftVersion.Some? ==> record.receipts == [])
  }

  function VersionFor(receipts: seq<DraftReceipt>, owner: Principal): Option<string> {
    if receipts == [] then None
    else if OwnerKey(receipts[0].owner) == OwnerKey(owner) then Some(receipts[0].version)
    else VersionFor(receipts[1..], owner)
  }

  /** The reference: the draft version `owner` most recently had Accepted. */
  function LastDraft(origin: Triple, log: seq<Acceptance>, n: nat, owner: Principal): Option<string>
    requires n <= |log|
  {
    if n == 0 then VersionFor(ReceiptsAt(origin.attribution, origin.desired.revision), owner)
    else
      var a := log[n - 1];
      if a.applying.Some? && a.draftVersion.Some? && OwnerKey(a.applying.value) == OwnerKey(owner) then a.draftVersion
      else LastDraft(origin, log, n - 1, owner)
  }

  lemma {:induction false} VersionForIsMembership(receipts: seq<DraftReceipt>, owner: Principal, version: string)
    requires OnePerOwner(receipts)
    ensures VersionFor(receipts, owner) == Some(version) <==>
            exists i :: 0 <= i < |receipts| && OwnerKey(receipts[i].owner) == OwnerKey(owner)
              && receipts[i].version == version
  {
    if receipts != [] {
      var rest := receipts[1..];
      VersionForIsMembership(rest, owner, version);
      if i :| 0 <= i < |receipts| && OwnerKey(receipts[i].owner) == OwnerKey(owner) && receipts[i].version == version
              && i > 0 {
        assert rest[i - 1] == receipts[i];
        assert OwnerKey(receipts[0].owner) != OwnerKey(receipts[i].owner);
      }
    }
  }

  lemma {:induction false} WithoutOwnerKeepsOrder(receipts: seq<DraftReceipt>, owner: Principal, revision: nat)
    requires OnePerOwner(receipts) && ReceiptsUpTo(receipts, revision)
    ensures var rest := WithoutOwner(receipts, owner);
      && OnePerOwner(rest) && ReceiptsUpTo(rest, revision)
      && (forall i :: 0 <= i < |rest| ==> rest[i] in receipts && OwnerKey(rest[i].owner) != OwnerKey(owner))
  {
    if receipts != [] {
      WithoutOwnerKeepsOrder(receipts[1..], owner, revision);
    }
  }

  lemma {:induction false} VersionForWithout(receipts: seq<DraftReceipt>, owner: Principal, o: Principal)
    ensures VersionFor(WithoutOwner(receipts, owner), o) == if OwnerKey(owner) == OwnerKey(o) then None
        else VersionFor(receipts, o)
  {
    if receipts != [] {
      VersionForWithout(receipts[1..], owner, o);
      var kept := WithoutOwner(receipts[1..], owner);
      assert ([receipts[0]] + kept)[1..] == kept && [] + kept == kept;
    }
  }

  lemma {:induction false} VersionForAppend(receipts: seq<DraftReceipt>, r: DraftReceipt, o: Principal)
    ensures VersionFor(receipts + [r], o) ==
      if VersionFor(receipts, o).Some? then VersionFor(receipts, o)
      else if OwnerKey(r.owner) == OwnerKey(o) then Some(r.version) else None
  {
    if receipts != [] {
      assert (receipts + [r])[1..] == receipts[1..] + [r];
      VersionForAppend(receipts[1..], r, o);
    }
  }

  lemma UpsertKeepsOnePerOwner(receipts: seq<DraftReceipt>, r: DraftReceipt, revision: nat)
    requires OnePerOwner(receipts) && ReceiptsUpTo(receipts, revision) && r.acceptedRevision <= revision
    ensures var next := UpsertReceipt(receipts, r);
      && OnePerOwner(next) && ReceiptsUpTo(next, revision)
      && (forall o: Principal :: VersionFor(next, o) == if OwnerKey(r.owner) == OwnerKey(o) then Some(r.version)
          else VersionFor(receipts, o))
  {
    WithoutOwnerKeepsOrder(receipts, r.owner, revision);
    forall o: Principal
      ensures VersionFor(UpsertReceipt(receipts, r), o) == if OwnerKey(r.owner) == OwnerKey(o) then Some(r.version)
          else VersionFor(receipts, o)
    {
      VersionForWithout(receipts, r.owner, o);
      VersionForAppend(WithoutOwner(receipts, r.owner), r, o);
    }
  }

  lemma ReceiptsAtWellFormed(t: Triple)
    requires WellAttributed(t)
    ensures OnePerOwner(ReceiptsAt(t.attribution, t.desired.revision))
    ensures ReceiptsUpTo(ReceiptsAt(t.attribution, t.desired.revision), t.desired.revision)
  {
    if t.attribution.Some? && t.attribution.value.applying.Some? && t.attribution.value.draftVersion.Some? {
      var prior := t.attribution.value;
      UpsertKeepsOnePerOwner(prior.receipts,
                             DraftReceipt(prior.applying.value, prior.draftVersion.value, prior.revision),
                               prior.revision);
    }
  }

  /** netd's answer on a well-attributed triple is a lookup in its receipts. */
  lemma AnswerIsLookup(t: Triple, owner: Principal, version: string)
    requires WellAttributed(t)
    ensures WasDraftAccepted(t, t.desired.revision, owner, version)
            <==> VersionFor(ReceiptsAt(t.attribution, t.desired.revision), owner) == Some(version)
  {
    ReceiptsAtWellFormed(t);
    var receipts := ReceiptsAt(t.attribution, t.desired.revision);
    VersionForIsMembership(receipts, owner, version);
    if t.attribution.Some? && t.attribution.value.draftVersion.Some? && t.attribution.value.applying.Some? {
      var prior := t.attribution.value;
      assert receipts == [DraftReceipt(prior.applying.value, prior.draftVersion.value, prior.revision)];
      assert receipts[0].owner == prior.applying.value;
    }
  }

  lemma AcceptUpdatesReceipts(t: Triple, a: Acceptance)
    requires Links(t, a) && WellAttributed(t)
    ensures WellAttributed(After(a))
    ensures forall o: Principal ::
      VersionFor(ReceiptsAt(After(a).attribution, After(a).desired.revision), o)
      == if a.applying.Some? && a.draftVersion.Some? && OwnerKey(a.applying.value) == OwnerKey(o) then a.draftVersion
         else VersionFor(ReceiptsAt(t.attribution, t.desired.revision), o)
  {
    hide Rewrites, UpsertReceipt, VersionFor;
    RewritesKeeps(t.desired, a.base);
    ReceiptsAtWellFormed(t);
    var receipts := ReceiptsAt(t.attribution, t.desired.revision);
    if a.applying.Some? && a.draftVersion.Some? {
      UpsertKeepsOnePerOwner(receipts, DraftReceipt(a.applying.value, a.draftVersion.value, a.result.revision),
        a.result.revision);
    }
  }

  lemma {:induction false} ReceiptsFollowLog(origin: Triple, log: seq<Acceptance>, n: nat)
    requires ValidLog(origin, log) && WellAttributed(origin) && n <= |log|
    ensures WellAttributed(CommittedAt(origin, log, n))
    ensures var t := CommittedAt(origin, log, n);
      forall o: Principal :: VersionFor(ReceiptsAt(t.attribution, t.desired.revision), o)
        == LastDraft(origin, log, n, o)
  {
    hide Links, WellAttributed, VersionFor, ReceiptsAt;
    if n > 0 {
      ReceiptsFollowLog(origin, log, n - 1);
      assert Links(CommittedAt(origin, log, n - 1), log[n - 1]);
      AcceptUpdatesReceipts(CommittedAt(origin, log, n - 1), log[n - 1]);
    }
  }

  /** Over every history: netd answers yes exactly for the draft its owner most
      recently had Accepted, and keeps one receipt to an owner. */
  lemma ReceiptsAreExact(origin: Triple, log: seq<Acceptance>, owner: Principal, version: string)
    requires ValidLog(origin, log) && WellAttributed(origin)
    ensures var t := Committed(origin, log);
      && (WasDraftAccepted(t, t.desired.revision, owner, version) <==>
          LastDraft(origin, log, |log|, owner) == Some(version))
      && (t.attribution.Some? ==> OnePerOwner(t.attribution.value.receipts))
  {
    ReceiptsFollowLog(origin, log, |log|);
    AnswerIsLookup(Committed(origin, log), owner, version);
  }
}
