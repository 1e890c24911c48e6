/** The files of one apply transaction and what a reader of them concludes:
    the apply journal, the attribution record and its draft receipts. */
module Journal {
  import opened Common
  import opened Desired
  import opened Revalidation

  datatype Phase = Applying | PendingConfirmation | Accepted

  datatype DraftReceipt = DraftReceipt(owner: Principal, version: string, acceptedRevision: nat)

  /** Who applied and confirmed `revision`. A first-format record names its
      draft in `draftVersion` and carries no receipts. */
  datatype Attribution = Attribution(
    revision: nat,
    applying: Option<Principal>,
    confirming: Option<Principal>,
    draftVersion: Option<string>,
    receipts: seq<DraftReceipt>)

  datatype Operation = Operation(
    phase: Phase,
    accepted: DesiredState,
    previousAccepted: Option<DesiredState>,
    previousAttribution: Option<Attribution>,
    proposed: Option<DesiredState>,
    confirmationId: Option<nat>,
    applying: Option<Principal>,
    draftVersion: Option<string>,
    deadline: Option<nat>)

  /** One content of the state directory. */
  datatype Files = Files(
    desired: DesiredState,
    previous: Option<DesiredState>,
    attribution: Option<Attribution>,
    journal: Option<Operation>)

  /** What an administrator calls the Accepted network: the state, the one
      before it, and who made it. */
  datatype Triple = Triple(
    desired: DesiredState,
    previous: Option<DesiredState>,
    attribution: Option<Attribution>)

  predicate InFlight(f: Files) {
    f.journal.Some? && f.journal.value.phase != Accepted
  }

  predicate Completed(f: Files) {
    f.journal.Some? && f.journal.value.phase == Accepted
  }

  /** The Accepted network a boot from these files arrives at: an in-flight
      journal overrides the files it may have left half written. */
  function Resolve(f: Files): Triple {
    if InFlight(f) then
      var op := f.journal.value;
      Triple(op.accepted, op.previousAccepted, op.previousAttribution)
    else
      Triple(Effective(f.desired), f.previous, f.attribution)
  }

  ghost predicate TripleRewrites(t: Triple, u: Triple) {
    Rewrites(t.desired, u.desired) && t.previous == u.previous && t.attribution == u.attribution
  }

  predicate SameOwner(left: Principal, right: Principal) {
    left.source == right.source && left.subject == right.subject
  }

  function WithoutOwner(receipts: seq<DraftReceipt>, owner: Principal): seq<DraftReceipt> {
    if receipts == [] then []
    else (if SameOwner(receipts[0].owner, owner) then [] else [receipts[0]])
         + WithoutOwner(receipts[1..], owner)
  }

  function UpsertReceipt(receipts: seq<DraftReceipt>, receipt: DraftReceipt): seq<DraftReceipt> {
    WithoutOwner(receipts, receipt.owner) + [receipt]
  }

  /** The receipts a record at `revision` stands for, with a first-format
      record's own draft folded in; a record of another revision is stale. */
  function ReceiptsAt(record: Option<Attribution>, revision: nat): seq<DraftReceipt> {
    match record
    case None => []
    case Some(prior) =>
      if prior.revision != revision then []
      else match (prior.applying, prior.draftVersion)
        case (Some(owner), Some(version)) =>
          UpsertReceipt(prior.receipts, DraftReceipt(owner, version, prior.revision))
        case _ => prior.receipts
  }

  function AcceptedDraftReceipts(previous: Option<Attribution>, acceptedRevision: nat,
                                 applying: Option<Principal>, draftVersion: Option<string>,
                                 nextRevision: nat): seq<DraftReceipt>
  {
    var receipts := ReceiptsAt(previous, acceptedRevision);
    match (applying, draftVersion)
    case (Some(owner), Some(version)) =>
      UpsertReceipt(receipts, DraftReceipt(owner, version, nextRevision))
    case _ => receipts
  }

  /** netd's answer to "is this draft already part of the Accepted revision?"
      for the files `t` resolves to. */
  predicate WasDraftAccepted(t: Triple, revision: nat, owner: Principal, version: string) {
    && t.desired.revision == revision
    && t.attribution.Some?
    && var record := t.attribution.value;
      && record.revision == revision
      && ((exists i :: 0 <= i < |record.receipts|
            && SameOwner(record.receipts[i].owner, owner)
            && record.receipts[i].version == version
            && record.receipts[i].acceptedRevision <= revision)
          || (record.draftVersion == Some(version)
              && record.applying.Some? && SameOwner(record.applying.value, owner)))
  }
}
