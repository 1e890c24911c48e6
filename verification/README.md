# Verification of the appliance's network and update controllers

This project models, and proves properties of, the parts of the router appliance
whose failure would lose a network or an administrator: netd, which applies a
complete Desired state as one journaled transaction; the Host update program,
which stages a Release and rolls it back; the Identity configuration; the UI's
draft reconciliation; and the Router Advertisement codec.

- `Desired`, `Journal`, `AcceptedHistory`: the Desired state, netd's files and
  journal, and the one-step machine they refine, a log of atomic acceptances.
- `ApplyTransaction`, `ApplyRuns`: apply, confirm, restore, recover and boot as
  operations of a machine `Netd`, with a fault, or the loss of the process or
  of power, possible between any two file or kernel operations. `images` is
  everything the directory may be after a power loss; the invariant says that
  each of them resolves to the Accepted triple of the log, or to the acceptance
  in doubt.
- `Validation`, `Acceptability`, `Base64`: the validator's checks and loops, and
  the states it accepts described without them.
- `Revalidation`, `Firewall`: what becomes of a valid state once programming has
  rewritten it, and the policy compiler as first-match rules with the meaning of
  the whole ruleset.
- `Addressing`, `LiveState`, `LiveUndo`: prefix arithmetic, what a state means
  to the kernel, and the undo of a failed attempt over links, addresses and
  routes.
- `HostUpdate`, `HostRuns`: bootc's boot order, the update and rollback records,
  health, and the boot-time restore check, over every run. bootc behaves as the
  repository's own test double (src/update.rs:1527-1543) does, with a reboot
  that boots a staged deployment first and a queued rollback second.
- `Identity`: accounts, authentication and session validity.
- `InterfaceEdits`, `Drafts`: UI edits and reconciliation.
- `RouterAdvertisement`, `ResolverTable`: sections 4.2 and 4.6.2 of RFC 4861,
  section 5.1 of RFC 8106, and the table of learned resolvers.

Six properties hold only under a condition, and the model says which:

- An undo leaves the LAN host address behind when the LAN has its IP at another
  prefix length, and loses a live route of someone else's at a destination that
  only the proposal has (`LiveUndo.Kernel.FailedApply`, with valid states in
  `LiveUndo.EscapeExample` and `LiveUndo.DisplacedExample`).
- A state can be accepted and then refused by the validator for ever, when its
  LAN takes its addresses from the live interface and they shadow the prefix
  (`Revalidation.Revalidates`, `Revalidation.AcceptedOnce`). Every recovery and
  every boot programs the Accepted state again, so they succeed exactly when it
  does not (`ApplyRuns.OneGoodBoot`).
- A WAN stays closed to new input exactly when it is not called `lo`, its name
  first finds no LAN or Management NIC, and no accept rule reaches past the
  interface the validator finds in it. The validator checks none of these
  (`Firewall.ClosedUnderEveryPolicy`, `Firewall.ConfinedMeaning`; the inputs are
  in `Firewall.WanCalledLoIsOpen`, `Firewall.DuplicateNameOpensWan` and
  `Firewall.LogRuleOpensWan`).
- The rollback that health queues for an update boot takes hold exactly if none
  was queued before it, and a manual request cancels it exactly if a manual
  record is left (`HostUpdate.Host.HealthPoll`, `HostUpdate.Host.ManualRollback`).
  The repository's own description promises that health owns it; the code keeps
  that neither when an update is staged before health has exited
  (`HostRuns.StagingDuringHealthLosesRollback`) nor, after a power loss, with a
  stale record (`HostRuns.StaleRecordCancelsHealth`).
- A restoration is requested once per return as long as each request retires its
  record, as without faults it does; a power loss in between repeats it
  (`HostRuns.PowerLossRequestsTwice`).
- A manual rollback is recorded exactly on the boot that activated it as long as
  no manual record is left over that takes effect by itself, as when the power
  goes before a restore check (`HostUpdate.ActivatedMeaning`,
  `HostUpdate.MisledMeaning`, `HostRuns.PowerLossMisleads`).

`dafny verify dfyconfig.toml` checks the whole project.

## Model

| member | source | states |
|---|---|---|
| `AcceptedHistory.HistoryIsChain` | src/netd.rs:1007-1037 | Over every history each Accepted revision is its predecessor plus one, decided on exactly that predecessor, with that predecessor retained and the attribution of its own revision; confirmation is missing only where none was demanded or the accept is a recovery restore |
| `AcceptedHistory.RestoreTwiceReturns` | src/netd.rs:930-985 | Two acceptances in a row that each restored the retained predecessor give back the original network two revisions later, with the state between retained |
| `AcceptedHistory.HistoryIsValidated` | src/netd.rs:988-991 | No Accepted state of any history, unless it is the first, has an administrator policy that the validator refuses, and each after the first is valid again exactly unless it shadows its own LAN prefix |
| `AcceptedHistory.ReceiptsAreExact` | src/netd.rs:785-819 | Over every history, a draft version of a (source, subject) pair counts as accepted at the current revision exactly when it is the last draft of that pair to be accepted |
| `AcceptedHistory.ReceiptsFollowLog` | src/netd.rs:126-167 | After any number of accepts the receipts hold one entry per (source, subject), and each is the last accepted draft of that pair |
| `AcceptedHistory.AcceptUpdatesReceipts` | src/netd.rs:126-167 | One accept sets the receipt of the acting pair of source and subject to its draft, whatever the names, and leaves that of every pair differing in either as it was |
| `AcceptedHistory.AnswerIsLookup` | src/netd.rs:803-818 | The acceptance query is a lookup of the only receipt of the asker's source and subject |
| `AcceptedHistory.UpsertKeepsOnePerOwner` | src/netd.rs:117-124 | Replacing a receipt leaves at most one per (source, subject); names do not matter |
| `AcceptedHistory.AcceptLinks` | src/netd.rs:1118-1135 | An accept decided on what the files hold is a legal accept on what the history holds, up to the addresses that programming appended |
| `Desired.ExtendsTransitive` | src/netd.rs:2405-2419 | Rewrites by successive programming compose: addresses are only appended, nothing else moves |
| `ApplyTransaction.Netd.Write` | src/durable.rs:7-34 | A successful write leaves one possible directory content, the edited one; a failed one leaves the old entry or the new one visible without being durable; if the process dies meanwhile all contents possible so far remain, if the power goes one of them does |
| `ApplyTransaction.Netd.Remove` | src/durable.rs:36-47 | As for a write; removing what is absent succeeds and syncs nothing |
| `ApplyTransaction.Netd.SetLanServicesReady` | src/netd.rs:1389-1413 | A failed sync is tolerated when the marker reads back as requested, and no Accepted file moves; without faults it succeeds |
| `ApplyTransaction.Netd.NftApply` | src/netd.rs:3254-3274 | A ruleset is replaced whole or not at all; the monitor records a recovery's guard lifted while a marker is in flight, for another policy than the Accepted one, or before the Accepted state is live again, which every other member proves never happens |
| `ApplyTransaction.Netd.Program` | src/netd.rs:2392-2446 | A state the validator refuses is refused before anything moves; any other is rewritten by captured and merged addresses, with the ruleset of the result installed last; it fails only for a fault or a refusal |
| `ApplyTransaction.Netd.RequireRecoveryGuard` | src/netd.rs:1244-1260 | On success the kernel runs a guarded ruleset and the recovery flag is set, whatever the journal holds |
| `ApplyTransaction.Netd.ReopenRestoredForwarding` | src/netd.rs:1315-1326 | Called only with the marker gone and the Accepted state live again; the recovery flag clears only once the unguarded ruleset of that state is installed |
| `ApplyTransaction.Netd.FinishRecovery` | src/netd.rs:1301-1313 | With the Accepted state live and durable, forwarding reopens only after the in-flight marker is durably gone |
| `ApplyTransaction.Netd.RecoverInterruptedApply` | src/netd.rs:1262-1299 | Success ends with no journal, no recovery pending, the Accepted state live and its unguarded ruleset installed, also when only reopening was left to retry, and LAN services ready if it was more; every failure leaves every possible directory content resolving to the same Accepted triple; without faults an interrupted apply is recovered exactly if the validator accepts the state it returns to, and otherwise nothing moves behind the guard |
| `ApplyTransaction.Netd.RestoreFailedApply` | src/netd.rs:1328-1387 | A restored reply means the validator accepted the old state, and the old files, live state, ruleset and LAN services readiness are back and the journal is gone; any other outcome needs a fault or the validator's refusal, requires recovery and keeps the recovery target |
| `ApplyTransaction.Netd.RetainRecoveryTarget` | src/netd.rs:1050-1110 | Before anything changes, either the journal naming the Accepted triple is durable or the request ends with nothing changed or recovery required |
| `ApplyTransaction.Netd.Attempt` | src/netd.rs:1111-1136 | Whatever step fails, every possible directory content still resolves to the old triple; success leaves exactly the three new files |
| `ApplyTransaction.Netd.WriteAccepted` | src/netd.rs:1214-1236 | The journal write is the one atomic accept: it appends one acceptance, changes nothing, or leaves it in doubt for a reboot to decide |
| `ApplyTransaction.Netd.Accept` | src/netd.rs:1214-1241 | The reply is accepted exactly when the acceptance is in the history; a failed final journal write is indeterminate and requires recovery |
| `ApplyTransaction.Netd.AwaitConfirmation` | src/netd.rs:1152-1213 | A pending reply leaves the old triple Accepted, the proposal live, and a journal with all that undoing and confirming need, whose deadline is the clock plus 120 s; otherwise the undo's outcome is reported |
| `ApplyTransaction.Netd.Transact` | src/netd.rs:1111-1242 | From the retained target to the reply, at most one acceptance is appended, and each reply says what became of the Accepted triple, the live state, the recovery flag and LAN services; without faults the acceptance is made at once exactly if the Accepted state demands no confirmation or this restores after a recovery, and is left pending otherwise |
| `ApplyTransaction.Netd.ApplyDesired` | src/netd.rs:1007-1242 | Refused untouched while an apply or recovery is pending. Else taken up exactly if the base is absent or Accepted's revision, the validator and the dry run pass and a revision is left: without faults that is accepted at the next revision, or pending at it exactly if confirmation is demanded of an ordinary apply; everything else is rejected and nothing moves. Under faults the outcomes of one transaction, or nothing |
| `ApplyTransaction.Netd.ConfirmApply` | src/netd.rs:846-928 | The history changes only for the pending revision with its own confirmation id before its boot-clock deadline, outside recovery, by exactly the pending acceptance confirmed by this administrator; without faults exactly then it does and is accepted, at the deadline the apply is undone, and anything else is rejected and moves nothing |
| `ApplyTransaction.Netd.AcceptConfirmed` | src/netd.rs:875-915 | Until the Accepted journal is written, any failure leaves every possible content resolving to the state before the pending apply |
| `ApplyTransaction.Netd.ExpirePendingConfirmation` | src/netd.rs:828-844 | Without faults nothing moves before the deadline, or when nothing pends; at it the apply is undone to the state before it exactly if the validator accepts that state, else recovery is required |
| `ApplyTransaction.Netd.RestorePreviousRequest` | src/netd.rs:930-985 | During recovery it only recovers, without faults exactly if the validator accepts the state to return to; otherwise it is one apply of a strictly older retained state, exempt from confirmation, without faults accepted at the next revision exactly if that state passes the validator and the dry run, and else nothing moves |
| `ApplyTransaction.Netd.GetDesired` | src/netd.rs:498-509 | Never serves a tentative or doubtful state: what it answers is the Accepted one, and without faults it answers exactly outside recovery |
| `ApplyTransaction.Netd.WasDraftAcceptedRequest` | src/netd.rs:785-819 | Answers from settled files only; an unreadable attribution can only turn yes into no; without faults it answers exactly outside recovery, as the receipts do |
| `ApplyTransaction.Netd.Settle` | src/netd.rs:317-351 | A directory with one possible content decides an acceptance in doubt: accepted if its journal survived, else never made |
| `ApplyTransaction.Netd.Boot` | src/netd.rs:317-351 | From any valid stopped machine, a boot changes the history only by deciding an acceptance in doubt; whenever it serves, the Accepted state is live; without faults it serves exactly if the validator accepts the state the files resolve to, ending with no journal, the unguarded ruleset of the Accepted state and LAN services ready, and else leaves the files as they were |
| `ApplyRuns.AnyRun` | src/netd.rs:317-408 | Over any script of requests, faults, starts, stops and power losses, with the process or power lost between any two operations, the invariant holds, the history only grows, every new acceptance is one that an event of the script asked for on what it found (a confirmed one by the pending revision and id before the deadline), every acceptance ever promised stays, and the kernel runs the Accepted state of the history, or the proposal awaiting confirmation, unless a recovery is needed |
| `ApplyRuns.ValidRunsAccepted` | src/netd.rs:1262-1326 | Between any two requests of any run the Accepted state of the history is live when nothing is in flight, and when a recovery has only forwarding left to reopen; outside recovery it is also what the ruleset filters for; while a confirmation is awaited both are the proposal's |
| `ApplyRuns.ServingFilters` | src/netd.rs:3146-3252 | Whenever netd serves, at any point of any run after the first acceptance, the policy in force is one the validator accepts and the ruleset means it |
| `ApplyRuns.RestoreTwice` | src/netd.rs:930-985 | Two accepted requests to restore the previous state, one after the other, bring back the network two revisions later, with the state between retained |
| `ApplyRuns.DraftAnswer` | src/netd.rs:785-819 | At any point of any run of a serving netd, a fault-free query says yes exactly for the last accepted draft of the asker's source and subject at the current revision |
| `ApplyRuns.InForceValidity` | src/netd.rs:2392-2421 | What a boot will read is valid exactly when the Accepted state the history names is, once that was programmed or has LAN addresses of its own |
| `ApplyRuns.OneGoodBoot` | src/netd.rs:317-351 | Wherever a run stopped, one fault-free boot serves again exactly if the validator accepts what the files resolve to, which after any acceptance means exactly unless the Accepted state shadows its LAN prefix; it then has reached exactly the Accepted network the history names, live and filtered by, whose draft receipts are the reference ones; otherwise the files stay and refuse every later boot too |
| `ApplyRuns.OneGoodBootFilters` | src/netd.rs:3146-3252 | A boot that serves installs the policy of the Accepted state, which the validator accepts, and the ruleset means what the policy compiler's lemmas say |
| `ApplyRuns.HistoryLaws` | src/netd.rs:785-819 | Files that extend the history's triple have the revision the history counts and answer the acceptance query as the history does |
| `Addressing.AddressingMeaning` | src/bootstrap_values.rs:37-75 | A pool is accepted exactly when its ends are in order and every address between them lies in the LAN prefix, or in the /24 of its start when there is none, and the other prefixes are usable |
| `Addressing.RangeInside` | src/bootstrap_values.rs:60-66 | Two addresses of one prefix have only addresses of that prefix between them |
| `Addressing.DelegatedLanPlacement` | src/bootstrap_values.rs:84-103 | Host bits of a delegation do not matter, no address of it comes before the LAN, the LAN is a /64 whose every address is in the delegation, and its own subnet delegates itself |
| `Addressing.DelegatedPoolPlacement` | src/bootstrap_values.rs:84-103 | The router is ::1 of the subnet and the pool ::100 to ::1ff; the router, the subnet and every pool address lie in both the /64 and the delegation, and the pool excludes the router |
| `Acceptability.ValidateMeaning` | src/netd.rs:1971-2158 | The validator accepts exactly the acceptable states, which are described by what is in them alone, by none of its checks: links, addresses, LAN addressing and services, IPv6, policy, tunnels, queues, routes and roles |
| `Acceptability.RouteAccepted` | src/netd.rs:2013-2095 | A route is usable exactly when its network has no host bits, its gateway is of the same family, neither unspecified nor multicast, of no Management NIC, and on the link of some other interface or tunnel, the device named if one is; one of a single link needs a device |
| `Acceptability.ServicesAccepted` | src/netd.rs:2308-2355 | The LAN services check passes exactly when the first LAN, if it has IPv4 addresses, has one in the network that is served |
| `Acceptability.AddressingAccepted` | src/bootstrap_values.rs:37-75 | A prefix must leave hosts, every address of a pool lie in it or in the /24 the pool begins in, and a delegation hold a /64 |
| `Acceptability.RuleAccepted` | src/netd.rs:3082-3134 | An administrator line has a word besides its verdict and names interfaces only that are there; an accept names one, which is first found on a LAN or a Management NIC |
| `Acceptability.LinkMeaning` | src/bootstrap_values.rs:9-36 | A link has a name the kernel takes; a tag is 1 to 4094 and needs a parent or a dotted name, a parent needs a tag and is another link |
| `Acceptability.RoleAccepted` | src/netd.rs:2276-2287 | A Management NIC is a whole port, without tag or parent, with addresses of its own and no DHCP |
| `Acceptability.PortsMeaning` | src/netd.rs:2128-2144 | No WAN shares a port and tag with a LAN, and neither a port with a Management NIC, where a port is the parent, or the name before its last dot |
| `Acceptability.ExposedMeaning` | src/netd.rs:2145-2157 | A name may be exposed exactly if the first interface of that name exists and is no WAN |
| `Base64.KeyMeaning` | src/netd.rs:1996-2004 | A private key is accepted exactly if it is the padded base64 text of 32 bytes |
| `Validation.RoutesAccepted` | src/netd.rs:2013-2095 | The route loop with its hash set of destinations accepts exactly when every route passes on its own and no two have the same destination |
| `Validation.TunnelsAccepted` | src/netd.rs:1988-2005 | The tunnel loop with its hash set of names accepts exactly when every tunnel passes and names are distinct |
| `Validation.RequestingCounts` | src/netd.rs:2164-2185 | Counting requesters allows exactly at most one |
| `Validation.LinksAccepted` | src/netd.rs:2128-2144 | The pairwise loops accept exactly when no WAN shares a link and tag with a LAN and neither shares a parent with a Management NIC |
| `Acceptability.RolesAccepted` | src/netd.rs:2106-2157 | A WAN and a LAN are present, on ports of their own; the UI is exposed, on every Management NIC, and by names only that first find an interface which is no WAN |
| `Validation.PolicyExtends` | src/netd.rs:3075-3140 | Rewriting addresses never makes an accepted administrator policy unacceptable |
| `Revalidation.Revalidates` | src/netd.rs:2392-2421 | A valid state, as programming rewrites it, is valid again exactly unless its LAN had no addresses of its own and the captured ones shadow the prefix; then no boot or recovery gets past the validator |
| `Revalidation.ProgrammedMeaning` | src/netd.rs:2392-2421 | A state that was programmed once captures nothing more, has an accepted policy, and is valid again exactly unless it shadows its own prefix |
| `Revalidation.ProgramRewrites` | src/netd.rs:2392-2421 | Programming a valid state whose LAN has addresses of its own, or no prefix, leaves it valid and such a state again, so that boots and recoveries repeat without end |
| `Revalidation.MergedLanServices` | src/netd.rs:2308-2390 | Merging the router's host address satisfies the LAN services check exactly unless its IP is on the LAN at another prefix length only |
| `Revalidation.RewrittenValid` | src/netd.rs:1971-2158 | Of all the validator's checks only that one can be changed by appended addresses |
| `Revalidation.HostInPrefix` | src/netd.rs:3050-3060 | The first host of a usable prefix lies in the prefix's network |
| `Revalidation.AcceptedOnce` | src/netd.rs:2364-2390 | A concrete state that is accepted, programmed and then refused |
| `LiveState.FootprintMisses` | src/netd.rs:1465-1477 | What programming adds and the footprint does not account for is exactly the LAN host address when the LAN has its IP at another length |
| `LiveState.ProgrammedMeaning` | src/netd.rs:2364-2446 | Programming adds the interfaces' and tunnels' own addresses, and on the first LAN the router's: the host of the LAN prefix or of the /24 the pool begins in, and the first of the /64 of the delegation given or held by the first requesting WAN |
| `LiveUndo.EscapeExample` | src/netd.rs:1680-1702 | A valid state with a LAN whose host address outlives an undo |
| `LiveUndo.DisplacedExample` | src/netd.rs:1738-1757 | Two valid states, such that applying and undoing the second over the first loses a live route of someone else's |
| `LiveState.ExtendedLanAddresses` | src/netd.rs:2364-2390 | Rewriting does not move where the LAN's host and delegated addresses go |
| `LiveUndo.Kernel.Program` | src/netd.rs:2392-2446 | Wherever programming stops, it only added the state's own addresses and links and set its own routes; success means a validated state is wholly live, and without faults comes exactly if the validator accepts the state and its plain interfaces exist; the result is the state with live addresses captured and the host address merged |
| `LiveUndo.Kernel.FillCaptured` | src/netd.rs:2395-2418 | A plain interface that is exposed or a LAN, and has no addresses, takes exactly the IPv4 ones live on it; nothing else changes |
| `LiveUndo.Kernel.ProgramVlans` | src/netd.rs:2458-2490 | The loop creates only the state's VLAN links and adds only its addresses; success creates and adds all of them, and fails only for a fault |
| `LiveUndo.Kernel.ProgramTunnels` | src/netd.rs:3302-3336 | The same for tunnels |
| `LiveUndo.Kernel.ProgramRoutes` | src/netd.rs:3338-3349 | Routes elsewhere are untouched; success installs every route of distinct destinations, and without faults comes exactly if their devices exist |
| `LiveUndo.Kernel.Capture` | src/netd.rs:1465-1528 | The footprint is exactly the absent addresses on present devices that only the proposal has, and the absent links it creates; it is taken but for a fault |
| `LiveUndo.Kernel.RemoveStaleRoutes` | src/netd.rs:1738-1757 | Only routes at destinations the other state lacks go, each named exactly; on success, which only a fault prevents, none that is named remains |
| `LiveUndo.Kernel.RemoveTentative` | src/netd.rs:1530-1552 | A clean removal, which only a fault prevents, takes away exactly the footprint and what stands on its links |
| `LiveUndo.Kernel.FailedApply` | src/netd.rs:1328-1349 | Whatever step of an apply fails, a clean undo gives back the links, addresses and routes exactly, but for a host address that escapes the footprint and live routes of others at the proposal's new destinations; after complete programming exactly these are left or lost; without faults the attempt is complete exactly if the validator accepts the proposal, and the undo clean exactly if it accepts the current state, where their plain interfaces exist |
| `LiveUndo.RoutesRestored` | src/netd.rs:1342-1348 | Destination by destination, what an attempt and its undo do to a route |
| `LiveUndo.AddressesRestored` | src/netd.rs:1342-1349 | Address by address, what removing the footprint leaves |
| `Firewall.ForwardMeaning` | src/netd.rs:3186-3215 | For every state, a guarded ruleset forwards nothing, and an unguarded one exactly replies, traffic from the management veth, HTTPS from an exposed interface to it, and traffic to a WAN with no Management NIC at either end |
| `Firewall.GuardMeaning` | src/netd.rs:1244-1260 | What the apply transaction calls guarded, and the recovery ruleset, forward nothing, and the latter admits only loopback; every other ruleset of netd forwards what its state means |
| `Firewall.InputMeaning` | src/netd.rs:3160-3185 | Input is decided by loopback, then the first applicable administrator rule, then the WAN rules; everything else enters |
| `Firewall.AdminNeverOpensWan` | src/netd.rs:3082-3134 | No list of administrator rules that validates, and in which no accept rule reaches past the interface the validator found in it, accepts a packet from a name that is not first found on a LAN or Management NIC |
| `Firewall.WanStaysClosed` | src/netd.rs:3075-3185 | Under such rules, a WAN that is not called lo and is what its name first finds admits exactly replies, listed ICMPv6 and link-local DHCPv6 replies that no administrator rule decides first |
| `Firewall.ClosedUnderEveryPolicy` | src/netd.rs:3082-3185 | A WAN is closed to unsolicited packets under every such list of rules if and only if it is not called lo and its name does not first find a LAN or Management NIC |
| `Firewall.ClosedMeaning` | src/netd.rs:3146-3185 | For every state, valid or not, a WAN is closed to unsolicited packets if and only if it is not called lo and no accept rule matches packets from it that no earlier drop or reject rule covers |
| `Firewall.ConfinedMeaning` | src/netd.rs:3119-3140 | An accept rule admits packets of no other interface than the one the validator finds in it exactly when nftables matches that one too, or two at once |
| `Firewall.LogRuleOpensWan` | src/netd.rs:3136-3140 | A valid state with distinct names, whose accept rule mentions a LAN in a log prefix only, admits every packet of its WAN |
| `Firewall.DuplicateNameOpensWan` | src/netd.rs:3119-3130 | A valid state with one name on a LAN and then a WAN admits any WAN packet its LAN policy names |
| `Firewall.WanCalledLoIsOpen` | src/netd.rs:3167-3167 | A valid state whose WAN is called lo admits all of its packets |
| `Firewall.Isolation` | src/netd.rs:3190-3214 | New traffic from a WAN leaves only by a WAN, and a Management NIC exchanges new traffic only with the UI |
| `Firewall.SourceTranslation` | src/netd.rs:3239-3249 | A source is translated exactly for IPv4 that leaves by a WAN of a state in which some WAN has an IPv4 address, or comes from 169.254.127.0/30; no IPv6 source ever is |
| `Firewall.DestinationTranslation` | src/netd.rs:3216-3238 | Only HTTPS to an exposed interface's own address is redirected, and only if that address is no loopback, unspecified, multicast or broadcast one and not of the Host's own link, to the veth address of its own family, and with distinct names never from a WAN |
| `Firewall.PolicyFilters` | src/netd.rs:3146-3252 | The compiled table filters as the state means it: forwarding, which WANs are closed, and what closed ones admit |
| `Firewall.ExposureMembers` | src/netd.rs:3644-3656 | An interface is exposed exactly when it is the first non-WAN of a listed name |
| `Firewall.ExposeIpsMembers` | src/netd.rs:3658-3669 | The addresses exposed are exactly the allowed ones of the interface, each once |
| `Firewall.ReachableMeaning` | src/netd.rs:3683-3702 | Which addresses may be exposed: all but loopback, unspecified, multicast, broadcast and the Host's own link |
| `Firewall.WansInputDecides` | src/netd.rs:3170-3185 | The concatenated WAN blocks decide exactly the packets of WANs |
| `HostUpdate.RequestThenCancel` | src/update.rs:408-448 | Requesting a manual rollback and cancelling it is the identity exactly when nothing was staged, no stale record lay there, and the health-pending record was absent or this boot's own |
| `HostUpdate.TakesEffectWhen` | src/update.rs:479-495 | A reboot activates a manual record exactly when its rollback is queued with nothing staged, or the staged image is the rollback deployment again |
| `HostUpdate.ReturnIsDirect` | src/update.rs:205-207 | When a boot is recognised as a return, the last boot of another deployment was of the recorded update, staged by this Release and not accepted since, and no check has finished since it |
| `HostUpdate.RestartSound` | src/update.rs:1223-1256 | Every invariant of records, boots and health survives a reboot |
| `HostUpdate.ActivatedMeaning` | src/update.rs:1223-1256 | At any reboot a manual record takes effect exactly if the boot activates an administrator's rollback, or a record without one is left that takes effect by itself, never both; the latter cannot be without faults, nor after a boot whose check finished and on which nothing was staged before health exited |
| `HostUpdate.MisledMeaning` | src/update.rs:479-495 | Which left-over record takes effect by itself at a reboot: one that names the deployments the reboot goes to and comes from; it is of an earlier boot, or health queued the rollback |
| `HostUpdate.RequestKnown` | src/update.rs:1245-1250 | A retired update record is never answered twice |
| `HostUpdate.HealthMeaning` | src/update.rs:1057-1078 | Healthy exactly if every check passes, and else the first of them that fails, all before it having passed |
| `HostUpdate.SameDeploymentMeaning` | src/update.rs:182-192 | Deployments are the same by digest when both have one, and else by a common nonempty image name without transport and digest |
| `HostUpdate.Host.ManualRollback` | src/update.rs:408-448 | Without faults it is exactly the step function; a queued rollback is cancelled exactly if a manual record is there and health has exited or is not concerned, so without faults never one that health queued |
| `HostUpdate.Host.Stage` | src/update.rs:542-561 | Records name what was really staged and by which Release; without an image nothing is recorded; the records stay sound for an image that is not a deployment already |
| `HostUpdate.Host.HealthPoll` | src/update.rs:1147-1190 | An update boot is accepted only if, and without faults on the watched boot exactly if, the default target, fwd, mgmt, the restored netd and the UI are all up; rollback only at the deadline of one that is not, its recorded reason naming the first check in order that failed; the rollback really is queued exactly if none was queued before, and without faults then has no manual record that could cancel it |
| `HostUpdate.Host.RestoreCheck` | src/update.rs:1223-1256 | A check that finishes finds a manual rollback exactly when the record left takes effect on this boot, writes the outcome down only then, without faults exactly then, and says whether the network is restored with it; the pre-update network is requested exactly on a direct return, each request being one more of the history, which without faults retires the record it answers |
| `HostUpdate.Host.Reboot` | src/update.rs:1223-1256 | Without faults in it, a reboot records a manual outcome exactly on a boot that activated an administrator's rollback, if and only if no manual record without such a rollback takes effect with it; after a run without faults none does |
| `HostUpdate.Host.RecordStagedForHealth` | src/update.rs:109-120 | A staged update without a health record gets one |
| `HostRuns.AnyRun` | src/update.rs:1139-1256 | Over every script of requests, turns of health, reboots and power losses, each action does exactly what it means unless it fails, and each boot is one more; restorations answer direct returns, and a return whose record was retired is not requested again; a manual outcome is recorded only on a boot that activated an administrator's rollback or that a stale record misled; in every run without faults each return is requested at most once, and outcomes are recorded exactly on the boots that activated such a rollback |
| `HostRuns.PowerLossMisleads` | src/update.rs:1223-1256 | From any host that could roll back, losing power before the restore check records the outcome on the boot after the one that activated the rollback |
| `HostRuns.PowerLossRequestsTwice` | src/update.rs:1239-1250 | On any host about to return from an update, losing power between the request and the retiring of its record makes the next check request the restoration again |
| `HostRuns.StaleRecordCancelsHealth` | src/update.rs:408-448 | From any host that could roll back: stage over the queued rollback, lose power before the update's check, and a manual request cancels the rollback health queues |
| `HostRuns.StagedLooksReturned` | src/update.rs:205-207 | Directly after staging, the record looks like a return from the update exactly if the image is the rollback deployment |
| `HostRuns.StagingDuringHealthLosesRollback` | src/update.rs:408-448 | Staging while health checks an update boot lets a manual rollback in, which health's own rollback toggles off: the failed Release boots again |
| `HostRuns.StagingDuringHealthEscapesHealth` | src/update.rs:1163-1168 | If health accepts instead, the staged update loses its records and boots unchecked |
| `Identity.Read` | src/identity.rs:106-136 | The two passes over hash sets accept exactly the readable configurations |
| `Identity.ReadAccounts` | src/identity.rs:121-134 | The account loop accepts exactly sound accounts with distinct subjects and names per source |
| `Identity.AuthenticationMeaning` | src/identity.rs:211-265 | Without an account's own secret the answer is Denied, with it the missing factor is asked for when two are required, and otherwise an Authentication of that account at password assurance is issued, which is authorized at once exactly for an administrator |
| `Identity.AuthorizedMeaning` | src/identity.rs:279-291 | An Authentication is authorized exactly if an administrator's account of its source, subject and name has its version and it has the assurance required |
| `Identity.CredentialsMeaning` | src/identity.rs:431-448 | Which names and passwords are taken: a lower-case letter or underscore first, at most 32 characters, not root; a nonempty password without control characters, within its limit |
| `Identity.EditKeeps` | src/identity.rs:324-429 | Each account operation leaves a readable configuration with a local administrator and only subjects that were issued |
| `Identity.EditFinds` | src/identity.rs:324-429 | What one operation does to the account behind a subject: changed, removed, or untouched |
| `Identity.RunFinds` | src/identity.rs:324-429 | Over any run an account keeps its name and grant, its version counts its password changes, and a subject once gone never returns |
| `Identity.SessionValidity` | src/identity.rs:279-292 | After any legal run, an Authentication is authorized exactly while its account exists with no password change since, also if the name was removed and created again |
| `Identity.Accounts.SessionStanding` | src/identity.rs:269-292 | The same for a session issued at any point of a real run |
| `Identity.Accounts.Write` | src/identity.rs:183-209 | A published configuration is durable, visible only, or not published; every possible content stays readable with an administrator |
| `Identity.Accounts.PowerLoss` | src/identity.rs:183-209 | Whatever the power loss leaves is readable with an administrator, and every session ends |
| `Identity.Accounts.CreateLocalAdministrator` | src/identity.rs:324-365 | Each refusal has its cause and changes nothing, a storage failure only by a fault; success adds exactly the new administrator under a fresh subject, and without faults comes whenever nothing refuses |
| `Identity.Accounts.ChangeLocalAdministratorPassword` | src/identity.rs:367-397 | Success changes exactly the named administrator's secret and raises its version, and without faults comes whenever nothing refuses |
| `Identity.Accounts.RemoveLocalAdministrator` | src/identity.rs:399-429 | Success removes exactly the named administrator, and without faults comes whenever nothing refuses; the last one is refused |
| `InterfaceEdits.StoreInterfaceSection` | src/ui.rs:3161-3185 | The loop keeps or clears each interface's WAN acquisition, replaces the section and synchronises the prefix |
| `InterfaceEdits.EditMeaning` | src/ui.rs:3161-3185 | An interface that stays a WAN keeps the IPv6 mode and the request of the first one of its name before, any other has neither; nothing but interfaces, exposure, prefix and pool is touched |
| `InterfaceEdits.SyncMeaning` | src/ui.rs:3187-3227 | The prefix becomes the network of the address the first LAN leads with, and the pool stays exactly if it lies inside it or the prefix did not change |
| `InterfaceEdits.SyncSatisfiesLanServices` | src/ui.rs:3187-3227 | After any edit with well-formed addresses netd's LAN services check accepts the result |
| `InterfaceEdits.PrefixFollowsHost` | src/ui.rs:3196-3203 | When the LAN keeps the old prefix's router IP, the prefix becomes the network of an address with that IP, whatever addresses come before it |
| `InterfaceEdits.SyncKeepsAddressing` | src/ui.rs:3208-3247 | Every pool kept lies, address by address, in the new prefix, and netd's addressing check accepts the result exactly when the length of the LAN address the prefix follows leaves usable hosts |
| `InterfaceEdits.EditKeepsIpv6` | src/ui.rs:3166-3182 | Any edit keeps netd's IPv6 checks of each interface, and at most one requester exactly unless it gives two WANs the name of the one that requests |
| `Drafts.StoreWireguard` | src/ui.rs:2765-2815 | The loop refuses exactly half-given routes; names keep their places and stay distinct; each tunnel is the stored one with the form's non-blank parts; each tunnel route replaces the same destination over the same tunnel |
| `Drafts.CarryWireguardEdits` | src/ui.rs:2823-2837 | Carrying a draft's tunnels sets exactly the edited names to the draft's and keeps places and distinctness |
| `Drafts.StoreQdiscs` | src/ui.rs:2918-2932 | Refuses exactly blank updates; each device then has its last updated kind |
| `Drafts.StoreIpv6` | src/ui.rs:3059-3075 | Refuses exactly names that are no WAN; each first WAN of a name takes its last setting, everything else stays |
| `Drafts.ReviewedParts` | src/ui.rs:2788-2797 | A stored tunnel keeps its key, port and addresses each unless a form gives one, then the last one given |
| `Drafts.WithRoutesMeaning` | src/ui.rs:2808-2814 | The routes there are in the end: those no added one rivals, and of added rivals the last |
| `Drafts.EditedInputsReview` | src/ui.rs:1935-1945 | Leaving out the inputs for tunnels the draft did not edit makes no difference to the ones it did |
| `Drafts.PlainMeaning` | src/ui.rs:2512-2545 | Routes, policy, exposure and services are the review's exactly in their own sections; the interface section also moves prefix and pool unless the services section does |
| `Drafts.ReviewKeepsUnowned` | src/ui.rs:2512-2569 | Taking the review of some sections leaves every field that no section owns |
| `Drafts.ApplyReviewedSections` | src/ui.rs:2512-2569 | Succeeds exactly when every proposed section was reviewed with usable content, and then takes that content section by section |
| `Drafts.ReconciledDesired` | src/ui.rs:1921-1954 | An import keeps the whole draft on the new base; any other draft equals Accepted outside its sections, leaves unedited tunnels alone, gives each edited tunnel the draft's key, port and addresses unless the review gives one, and keeps names distinct |
| `RouterAdvertisement.Advertise` | src/ra.rs:30-57 | The buffer built step by step is the specified packet |
| `RouterAdvertisement.AdvertisementReads` | src/ra.rs:30-57 | A receiver reads back the flags, the router lifetime, the link-layer address and every prefix in order, on link and autonomous, with zero lifetimes when withdrawn |
| `RouterAdvertisement.RdnssServers` | src/ra.rs:274-295 | The cursor loop terminates in bounds and returns what the options name, a malformed option ending it |
| `RouterAdvertisement.OptionMeaning` | src/ra.rs:274-295 | A whole option names servers exactly if its type is 25, one per sixteen octets from the ninth, all with the lifetime of the fifth to the eighth; an option of any other type names none |
| `RouterAdvertisement.RoundTrip` | src/ra.rs:274-295 | Behind any advertisement, RDNSS options of 1 to 127 servers are read back server by server with their lifetimes, in order |
| `RouterAdvertisement.Truncation` | src/ra.rs:274-295 | A packet cut at any byte names a prefix of the servers of the whole one |
| `ResolverTable.RdnssListener.Configure` | src/ra.rs:309-329 | Listened on are exactly the configured WANs that were so before or whose socket opens, the table keeps the configured ones' resolvers, and still refines its history |
| `ResolverTable.RdnssListener.Learn` | src/ra.rs:344-352 | Every server of the packet is heard in order, and the table still refines its history |
| `ResolverTable.RdnssListener.Servers` | src/ra.rs:356-369 | Lists without duplicates exactly the resolvers whose latest announcement had a lifetime, has not expired and came on a WAN configured since |
| `ResolverTable.AnnouncementRefines` | src/ra.rs:344-352 | One announced server replaces exactly its own entry |
| `ResolverTable.ConfigureRefines` | src/ra.rs:309-312 | Reconfiguring forgets exactly the resolvers of other WANs |

## Left out

- Legacy in-flight marker and the pre-update restoration of an unreadable Accepted state in netd: they can reuse a revision and restore no predecessor, so the history and receipt properties exclude them.
- Files that do not parse: a journal, attribution or Desired file that cannot be read is a fault of the step that reads it.
- `ApplyTransaction.Netd.Program`: the live addresses an interface takes are any well-formed ones, and any interface without addresses may take them.
- `ApplyTransaction.Netd.Attempt`: the kernel state of the transaction is which state was last wholly programmed and which ruleset is installed; the links, addresses and routes of an attempt are in `LiveUndo`.
- `ApplyTransaction.Netd.AwaitConfirmation`: the wall-clock expiry shown to clients is not modelled, only the boot-clock deadline.
- `LiveUndo.Kernel.Program`: sysctl, the DHCPv6 client, qdiscs, LAN service files and WireGuard ports succeed or fail as one step and their undo is not modelled; the prefix a WAN's lease holds does not change during an attempt.
- `LiveUndo.Kernel.ProgramRoutes`: a route without a device is installed without one; the kernel's choice of device is not modelled.
- `LiveUndo.Kernel.FillCaptured`: interfaces are captured by position; two interfaces of one name are not told apart by the kernel.
- `Firewall.InputMeaning`: an administrator line is the interface the validator finds in it, the interfaces and the opaque matches that nftables evaluates, and its verdict, each given separately; the text of a rule, and which words are refused in it, are not modelled.
- `Firewall.SourceTranslation`: a WAN has IPv4 when one of its parsed addresses is IPv4; netd looks for a dot in the text.
- `Acceptability.ValidateMeaning`: addresses and prefixes are parsed values, so refusals of unparsable text are not modelled.
- `Drafts.ReconciledDesired`: the UI updates the state it is given; the methods here return the updated value.
- `InterfaceEdits.StoreInterfaceSection`: the same.
- `HostUpdate.Host.Stage`: runs stage only images that have a digest and are neither the booted nor the rollback deployment, and `bootc switch` and the reading back of what it staged are one step; `HostUpdate.TakesEffectWhen` and `HostRuns.StagedLooksReturned` say what staging the rollback deployment does.
- `HostUpdate.Host.HealthPoll`: the probes and the deadline are inputs; the deadline's length is not modelled.
- `HostUpdate.Host.RestoreCheck`: netd's own restoration of the preserved network is another apply and is not modelled here.
- Requests refused before Bootstrap or while an update is being staged change nothing and are not modelled.
- `Identity.AuthenticationMeaning`: password hashes are ideal, characters stand for bytes, and the equal work done for unknown names is not modelled.
- `Identity.SessionValidity`: sessions end with the process that holds them, so a run is one since power came back.
- `ResolverTable.RdnssListener.Servers`: addresses are octets; the scope suffix of link-local ones is text. Which sockets open is an input of `Configure`.
- The netd Bootstrap, HTTP, TLS, terminals, JSON and TOML text, age encryption, Kea and Unbound files, namespace setup, and all rendering: no state of theirs carries these properties.
