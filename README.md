# Proposal approval workflow, modelled in Dafny

A proposal in this system is reviewed by an ordered list of approvers,
either all at once (`parallel` flow) or one after another (`linear` flow).
Approvers may delegate to other users. The proposal moves through a small
lifecycle: `pending`, `approved`, `cancelled`. Each approval is `pending`
(not yet the approver's turn), `actionable` (the approver may act now) or
`approved`.

This project models the approval workflow of `Proposal`
(`app/models/proposal.rb`) and proves its properties:

- `workflow.dfy`: the lifecycle table, kept as data in declaration order. An
  event is resolved the way the workflow library resolves it: the first rule
  for the current state and event whose guard holds wins. An event that no
  rule allows is refused and changes nothing.
- `approvals.dfy`: approvals as values, held in position order. It defines
  the sequencer (`kickstart_approvals`), `restart`, the pointer advance of
  `partial_approve`, the status recomputation (`reset_status`) and the
  queries over approvals.
- `delegations.dfy`: the one-hop, three-way lookup `existing_approval_for`,
  `delegate?`, `delegates`, and the approval list that `approvers=` builds.
- `observers.dfy`: `add_observer` and `create_new_observation`.
- `client_display.dfy`: the client-data attributes with their fallbacks
  (`delegate_with_default`, `public_identifier`, `name`,
  `fields_for_display`, `version`).
- `proposal.dfy`: the class `Proposal`. Its fields are the flow, the status,
  the approvals, the delegations, the observations and comments, the
  requester, an "API tokens expired" flag, the update time and the client
  data. Its methods update those fields in place. Each method's postcondition
  gives the new state through the functions above. `Fire` runs one workflow
  event: it reads the guard, runs the event's handler method (`restart`,
  `partial_approve`), then moves to the target state.
- `common.dfy`: `Option`, first-match search, counting, and Ruby's `uniq` and
  `blank?`.

Users are plain numbers (`UserId`). The approval at index i has position
i + 1. `Proposal.Valid()` keeps that, so "the first pending approval" is the
one with the lowest position.

Some behaviour of the code differs from what one might expect, and the model
follows the code:

- One might expect `restart` to lead out of `cancelled`. The code declares no
  such event: only `partial_approve` is allowed in `cancelled`, and it stays
  in `cancelled` (`Workflow.CancelledOnlyPartialApprove`).
- `approve`, `restart` and `cancel` on a cancelled proposal are refused by
  the workflow library, not silently ignored. The model returns `None` and
  changes nothing.
- "Status is approved exactly when every approval is" holds after
  `reset_status` (`Approvals.RecomputedStatus`). It is not an invariant of
  the events: `approve` moves to `approved` whatever the approvals are, and a
  `restart` with no approvals leaves `pending` although `all_approved?`
  holds vacuously.

## Model

| member | source | states |
|---|---|---|
| `Workflow.ApproveOnlyFromPending` | app/models/proposal.rb:14 | `approve` is allowed only from pending, and leads to approved |
| `Workflow.RestartAndCancel` | app/models/proposal.rb:15-20 | `restart` and `cancel` are allowed exactly from pending and approved, and lead to pending and cancelled |
| `Workflow.PartialApproveOutcome` | app/models/proposal.rb:10-24 | `partial_approve` from pending leads to approved iff all approvals are approved, else stays pending; from cancelled it stays cancelled; from approved it is refused |
| `Workflow.CancelledOnlyPartialApprove` | app/models/proposal.rb:22-24 | in cancelled the only allowed event is `partial_approve`, and it stays in cancelled |
| `Workflow.CancelledIsSticky` | app/models/proposal.rb:9-25 | no sequence of events, whatever the guard values, leads out of cancelled |
| `Workflow.Transition` | app/models/proposal.rb:9-25 | an event is allowed iff some rule for the current state and event has a guard that holds; an allowed event leads to the target of such a rule |
| `Workflow.ApprovedOnlyByApproval` | app/models/proposal.rb:9-25 | only `approve` and `partial_approve` lead to approved |
| `Workflow.Run` | app/models/proposal.rb:9-25 | events fired one after another, a refused one changing nothing, end in approved only if the proposal started approved or some event was `approve` or `partial_approve` |
| `Approvals.FirstPending` | app/models/proposal.rb:123 | finds the pending approval with the lowest position, or none when no approval is pending |
| `Approvals.AllApproved` | app/models/proposal.rb:224-226 | `all_approved?` holds iff every approval counts as approved |
| `Approvals.AllApprovedNoneOutstanding` | app/models/proposal.rb:224-226 | `all_approved?` holds iff no approval is pending or actionable |
| `Approvals.Initialized` | app/models/proposal.rb:123 | the approval's `initialize!` makes a pending approval actionable, keeping its user and position |
| `Approvals.AllPendingMadeActionable` | app/models/proposal.rb:121 | afterwards no approval is pending: each pending one is now actionable, the others are untouched, users and positions are kept |
| `Approvals.Kickstarted` | app/models/proposal.rb:117-126 | the sequencer keeps users and positions, never adds or removes an approved status, and changes an approval only from pending to actionable |
| `Approvals.KickstartParallel` | app/models/proposal.rb:120-121 | parallel flow: afterwards no approval is pending, and exactly the previously pending ones changed |
| `Approvals.KickstartLinearStartsFirstPending` | app/models/proposal.rb:122-123 | linear flow with none actionable and some pending: exactly the first pending approval becomes actionable, all others are unchanged, and exactly one is actionable |
| `Approvals.KickstartLinearOtherwiseUnchanged` | app/models/proposal.rb:122-125 | linear flow with an actionable approval, or none pending: nothing changes |
| `Approvals.KickstartLinearAtMostOne` | app/models/proposal.rb:122-123 | linear flow: at most one actionable approval before means at most one after |
| `Approvals.KickstartIdempotent` | app/models/proposal.rb:116-126 | kickstarting twice equals kickstarting once |
| `Approvals.KickstartKeepsStatus` | app/models/proposal.rb:111-113 | recomputing the status after kickstarting gives the same result as before it |
| `Approvals.AllReset` | app/models/proposal.rb:219 | every approval becomes pending, users and positions kept |
| `Approvals.KickstartFromAllPending` | app/models/proposal.rb:117-126 | kickstarting all-pending approvals: in parallel flow all become actionable; in linear flow the first becomes actionable and the others stay pending |
| `Approvals.Restarted` | app/models/proposal.rb:216-222 | after restart no approval is approved, and users and positions are kept |
| `Approvals.RestartOutcome` | app/models/proposal.rb:216-222 | after restart no approval is approved; in parallel flow all are actionable; in linear flow the first is actionable and every other is pending; users and positions are kept |
| `Approvals.PartialAdvanced` | app/models/proposal.rb:230-237 | on a cancelled proposal nothing changes; otherwise only the first pending approval (if any) becomes actionable, everything else is unchanged, and `all_approved?` is unaffected |
| `Approvals.RecomputedStatus` | app/models/proposal.rb:128-136 | cancelled stays cancelled; otherwise the status is approved iff all approvals are approved, and pending otherwise |
| `Approvals.RecomputedStatusIdempotent` | app/models/proposal.rb:128-136 | recomputing the status twice equals once |
| `Approvals.Approvers` | app/models/proposal.rb:29 | the approvers are exactly the users holding an approval |
| `Approvals.CurrentlyAwaiting` | app/models/proposal.rb:159-161 | the result holds exactly the actionable approvals, as many as there are |
| `Approvals.CurrentlyAwaitingApprovers` | app/models/proposal.rb:163-165 | a user is awaited iff they hold an actionable approval |
| `Approvals.IsActiveApprover` | app/models/proposal.rb:240-242 | a user is active iff they are currently awaited or hold an approved approval; an active user is an approver |
| `Approvals.ActiveApproversAfterRestart` | app/models/proposal.rb:240-242 | right after a restart the active approvers are all approvers in parallel flow and only the first approver in linear flow |
| `Delegations.StandsFor` | app/models/proposal.rb:80-87 | an approval held by `holder` can stand for `u` iff they are the same user or some delegation row links the two, in either direction |
| `Delegations.ExistingApprovalFor` | app/models/proposal.rb:80-87 | returns only an approval held by the user, by the assigner of a delegation to the user, or by the assignee of a delegation from the user; the first such in position order; none iff no approval matches |
| `Delegations.DelegationIsSymmetric` | app/models/proposal.rb:82-84 | when A delegated to B, B finds A's approval and A finds B's approval |
| `Delegations.OneHopOnly` | app/models/proposal.rb:82-84 | delegation chains are not followed: with a to b to c, c's approval does not stand for a |
| `Delegations.IsDelegate` | app/models/proposal.rb:76-87 | every user for whom `delegate?` holds finds an existing approval |
| `Delegations.AssigneesOf` | app/models/proposal.rb:32 | the listed assignees are exactly those of the user's outgoing delegations |
| `Delegations.Delegates` | app/models/proposal.rb:90-92 | `delegates` lists exactly the users for whom `delegate?` holds |
| `Delegations.ReassignedEntry` | app/models/proposal.rb:104-109 | the entry for a listed user sits at its list position and can stand for the user; it is the matched existing approval (holder and status kept) or a fresh pending approval for the user |
| `Delegations.Reassigned` | app/models/proposal.rb:103-110 | one approval per listed user in list order, positions 1..n; a matched existing approval keeps its holder and status; an unmatched user gets a fresh pending approval; every entry can act for its listed user |
| `Delegations.FreshApproversKickstarted` | app/models/proposal.rb:103-114 | when no listed user matches an existing approval, every listed user gets an approval at their list position; all actionable in parallel flow, only the first in linear flow |
| `Delegations.ReusedApprovalKeepsLinearTurn` | app/models/proposal.rb:103-114 | a reused actionable approval keeps its status, so in linear flow a fresh first approver can stay pending while a later one is actionable |
| `Observers.ObserverUsers` | app/models/proposal.rb:35 | the observers are exactly the users holding an observation |
| `Observers.ObservationOf` | app/models/proposal.rb:147 | finds the user's observation, or none iff the user does not observe |
| `Observers.ObserverAdded` | app/models/proposal.rb:138-148 | a user already observing gets their observation back and nothing changes; otherwise exactly one observation is appended, plus one comment only for a non-blank reason; at most one observation per user is kept |
| `Observers.AddObserverIdempotent` | app/models/proposal.rb:146-147 | adding the same observer a second time returns the same observation and records nothing, whatever adder and reason it is given |
| `Observers.AddObserverReturnsAsWritten` | app/models/proposal.rb:147 | as written, a repeat addition returns the observing user itself, and a fresh addition returns the new observation of the user |
| `Observers.RepeatAddReturnsNoObservation` | app/models/proposal.rb:147 | as written, the result of a repeat addition has no observation user to read; the corrected operation returns the user's observation |
| `ClientDisplay.DelegateWithDefault` | app/models/proposal.rb:169-184 | the client's value when present, the fallback otherwise; a present fallback always gives a present result |
| `ClientDisplay.Digit` | app/models/proposal.rb:190 | the character of a decimal digit, whose code lies that far above '0' |
| `ClientDisplay.DecimalString` | app/models/proposal.rb:190 | the decimal digits of the id, non-empty, without a leading zero, and reading back as the id |
| `ClientDisplay.PublicIdentifier` | app/models/proposal.rb:189-191 | never blank; the client's identifier when present, else "#" followed by the decimal id, or "#" alone when there is no id |
| `ClientDisplay.Name` | app/models/proposal.rb:193-197 | never blank; the client's name when present, else "Request " followed by the public identifier |
| `ClientDisplay.FieldsForDisplay` | app/models/proposal.rb:199-202 | non-empty exactly when the client supplies a non-empty list, which is then returned |
| `ClientDisplay.Version` | app/models/proposal.rb:206-211 | the maximum of the update time (0 when unsaved) and the client's version when it has one |
| `ClientDisplay.VersionMonotonic` | app/models/proposal.rb:204-211 | a later update time never gives a lower version |
| `Common.IndexOf` | app/models/proposal.rb:98 | the index of the first occurrence of an element |
| `Common.Dedup` | app/models/proposal.rb:98 | the result has no repeats, the same members as the input, and lists them in the order of their first occurrences |
| `Proposals.InvolvedUsers` | app/models/proposal.rb:95-99 | `users` has no repeats and holds exactly the approvers, observers, delegates and the requester when there is one |
| `Proposals.Proposal.constructor` | app/models/proposal.rb:64-66 | the flow defaults to parallel; a new proposal starts pending with no approvals, observers or requester |
| `Proposals.Proposal.KickstartApprovals` | app/models/proposal.rb:117-126 | the approvals become `Kickstarted(flow, old approvals)`, in position order |
| `Proposals.Proposal.ResetStatus` | app/models/proposal.rb:128-136 | the status becomes `RecomputedStatus(old status, approvals)` |
| `Proposals.Proposal.SetApprovers` | app/models/proposal.rb:103-114 | the approvals become the kickstarted reassignment of the list, and the status is recomputed from it |
| `Proposals.Proposal.Restart` | app/models/proposal.rb:216-222 | the tokens are expired and the approvals become `Restarted(flow, old approvals)`; the status is untouched |
| `Proposals.Proposal.PartialApprove` | app/models/proposal.rb:230-237 | the approvals become `PartialAdvanced(status, old approvals)` |
| `Proposals.Proposal.Fire` | app/models/proposal.rb:9-25 | a refused event changes nothing; an allowed one runs its handler on the approvals and moves the status to the table's target |
| `Proposals.Proposal.AddObserver` | app/models/proposal.rb:257-273 | observations, comments and the returned observation are those of `ObserverAdded` |
| `Proposals.Proposal.SetRequester` | app/models/proposal.rb:155-157 | the requester becomes the given user |

## Findings

| source | as written | input that shows it | evidently intended | confidence | as-written member | corrected member |
|---|---|---|---|---|---|---|
| app/models/proposal.rb:147 | on a repeat addition `add_observer` returns the observing User that `observers.find` yields, not an Observation; the observations controller then reads `.user` from the result | adding user u to a proposal that u already observes | return u's existing Observation | medium, not executed | `Observers.AddObserverReturnsAsWritten` | `Observers.ObserverAdded` |

## Left out

- Observer and requester lookup by e-mail (`User.for_email`, `add_requester`): the directory is external. `AddObserver` and `SetRequester` take the user.
- Notification e-mails (`Dispatcher`), `has_paper_trail` auditing, and the localised comment text. A comment is kept as its author, observer and reason.
- API-token expiry times (`Time.now`): modelled only as a flag that restart sets.
- Database mechanics: the SQL of `existing_approval_for`, association caching and `reload`, transactions and atomicity, the status scopes, and persisting `public_id` (`update_public_id`).
- Validation of the flow and of `client_data_type`, `CLIENT_MODELS`, `client_model_names`, `client_slugs` and `delegate :client`. A flow outside parallel and linear cannot be represented.
- `parallel?` and `linear?` are the two values of `Flow`.
- The probing in `delegate_with_default` (`respond_to?`): client data is a record of optional attributes. The variant without a fallback block is not modelled, because every caller passes one.
- The order behind `.first` is not visible in the source. Position order is assumed.
- Approval kinds: every approval is an individual approval. `initialize!` is modelled only from pending, the only state it is called in.
- Observers.ObserverAdded and Proposals.Proposal.AddObserver require an adder whenever the reason is non-blank. With a non-blank reason and no adder, the source first appends the observation and then fails while reading the adder's name for the comment. The model does not represent that half-done failure.
- A reused approval keeps its status in `approvers=`. In linear flow that can leave a later approver actionable while a fresh first approver stays pending (`Delegations.ReusedApprovalKeepsLinearTurn`). The model states this behaviour; it does not claim it is wrong.
- Approval records shared by reference: when two listed users resolve to the same existing approval, the source re-positions one record twice. The model keeps two values.
- `Common.BlankString`: treats ASCII white space only as blank, not the Unicode spaces Ruby's `blank?` also accepts.
- Proposals.InvolvedUsers: states membership and no repeats, not the order of the result.
- Config/initializers/omniauth.rb, the observations controller and the role migration are not part of this model.
