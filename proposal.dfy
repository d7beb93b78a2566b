/** The proposal itself (app/models/proposal.rb): an object whose approval
    workflow operations update its fields in place. Each method states its
    new state through the functions of the Approvals, Delegations and
    Observers modules, whose properties are proved there. */
module Proposals {
  import opened Common
  import Workflow
  import opened Approvals
  import opened Delegations
  import opened Observers
  import opened ClientDisplay

  /** `users`: everyone involved with the proposal (approvers, observers,
      delegates, the requester), without nils and without repeats. */
  function InvolvedUsers(s: seq<Approval>, obs: seq<Observation>, ds: seq<Delegation>,
                         requester: Option<UserId>): (r: seq<UserId>)
    ensures NoDuplicates(r)
    ensures forall u :: u in r <==>
      (exists i :: 0 <= i < |s| && s[i].user == u) ||
      (exists i :: 0 <= i < |obs| && obs[i].user == u) ||
      IsDelegate(s, ds, u) ||
      requester == Some(u)
  {
    Dedup(Approvers(s) + ObserverUsers(obs) + Delegates(s, ds)
          + (if requester.Some? then [requester.value] else []))
  }

  class Proposal {
    const id: Option<nat>
    var flow: Flow
    var status: Workflow.ProposalStatus
    var approvals: seq<Approval>
    var delegations: seq<Delegation>
    var observations: seq<Observation>
    var comments: seq<Comment>
    var requester: Option<UserId>
    /** Whether the approvers' API tokens have been expired (by a restart). */
    var apiTokensExpired: bool
    var updatedAt: Option<int>
    var clientData: Option<ClientData>

    /** Approvals are held in position order (positions 1..n), and every
        user observes at most once. */
    ghost predicate Valid()
      reads this
    {
      InPositionOrder(approvals) && UniqueObservers(observations)
    }

    /** A new proposal: the flow defaults to parallel (`set_defaults`), the
        workflow starts in pending, and there are no approvals, observers or
        requester yet. */
    constructor (id: Option<nat>, flow: Option<Flow>, delegations: seq<Delegation>,
                 updatedAt: Option<int>, clientData: Option<ClientData>)
      ensures Valid()
      ensures this.flow == (if flow.Some? then flow.value else Parallel)
      ensures status == Workflow.Pending && approvals == [] && observations == [] && comments == []
      ensures requester == None && !apiTokensExpired
      ensures this.id == id && this.delegations == delegations
      ensures this.updatedAt == updatedAt && this.clientData == clientData
    {
      this.id := id;
      this.flow := if flow.Some? then flow.value else Parallel;
      status := Workflow.Pending;
      approvals := [];
      this.delegations := delegations;
      observations := [];
      comments := [];
      requester := None;
      apiTokensExpired := false;
      this.updatedAt := updatedAt;
      this.clientData := clientData;
    }

    /** `kickstart_approvals`. */
    method KickstartApprovals()
      requires Valid()
      modifies this`approvals
      ensures Valid()
      ensures approvals == Kickstarted(flow, old(approvals))
    {
      var actionable := Count(approvals, IsActionable);
      var pending := FirstPending(approvals);
      if flow == Parallel {
        approvals := AllPendingMadeActionable(approvals);
      } else if flow == Linear && actionable == 0 && pending.Some? {
        var k := pending.value;
        approvals := approvals[k := Initialized(approvals[k])];
      }
    }

    /** `reset_status`: no escape from cancelled; otherwise approved exactly
        when all approvals are. */
    method ResetStatus()
      modifies this`status
      ensures status == RecomputedStatus(old(status), approvals)
    {
      if status != Workflow.Cancelled {
        if AllApproved(approvals) {
          status := Workflow.Approved;
        } else {
          status := Workflow.Pending;
        }
      }
    }

    /** `approvers=`: one approval per listed user, reusing the approval
        `existing_approval_for` finds, numbered 1..n in list order; the list
        replaces the approvals, which are then kickstarted, and the status
        is recomputed. */
    method SetApprovers(list: seq<UserId>)
      requires Valid()
      modifies this`approvals, this`status
      ensures Valid()
      ensures approvals == Kickstarted(flow, Reassigned(old(approvals), delegations, list))
      ensures status == RecomputedStatus(old(status), Reassigned(old(approvals), delegations, list))
    {
      var built: seq<Approval> := [];
      var i := 0;
      while i < |list|
        invariant 0 <= i <= |list|
        invariant |built| == i
        invariant forall k :: 0 <= k < i ==> built[k] == ReassignedEntry(approvals, delegations, list[k], k)
      {
        var approval: Approval;
        match ExistingApprovalFor(approvals, delegations, list[i]) {
          case Some(k) => approval := approvals[k];
          case None => approval := Approval(list[i], 0, Pending);
        }
        approval := approval.(position := i + 1);
        built := built + [approval];
        i := i + 1;
      }
      ghost var reassigned := Reassigned(approvals, delegations, list);
      assert built == reassigned;
      approvals := built;
      KickstartApprovals();
      ResetStatus();
      KickstartKeepsStatus(flow, old(status), reassigned);
    }

    /** `restart`: expire the API tokens, reset every approval to pending,
        then kickstart. The workflow state is left to the `restart` event. */
    method Restart()
      requires Valid()
      modifies this`approvals, this`apiTokensExpired
      ensures Valid()
      ensures apiTokensExpired
      ensures approvals == Restarted(flow, old(approvals))
    {
      apiTokensExpired := true;
      approvals := AllReset(approvals);
      KickstartApprovals();
    }

    /** `partial_approve`: unless cancelled, the first pending approval (if
        any) becomes actionable. */
    method PartialApprove()
      requires Valid()
      modifies this`approvals
      ensures Valid()
      ensures approvals == PartialAdvanced(status, old(approvals))
    {
      if status != Workflow.Cancelled {
        var next := FirstPending(approvals);
        if next.Some? {
          approvals := approvals[next.value := Initialized(approvals[next.value])];
        }
      }
    }

    /** Fires a workflow event: the guard is read first, the event's handler
        (`restart`, `partial_approve`) runs, then the state moves to the
        target. An event not allowed in the current state changes nothing
        and yields None. */
    method Fire(e: Workflow.Event) returns (r: Option<Workflow.ProposalStatus>)
      requires Valid()
      modifies this`status, this`approvals, this`apiTokensExpired
      ensures Valid()
      ensures r == Workflow.Transition(old(status), e, AllApproved(old(approvals)))
      ensures r.None? ==> status == old(status) && approvals == old(approvals)
      ensures r.Some? ==> status == r.value
      ensures r.Some? && e == Workflow.Restart ==> approvals == Restarted(flow, old(approvals))
      ensures r.Some? && e == Workflow.PartialApprove ==> approvals == PartialAdvanced(old(status), old(approvals))
      ensures (e == Workflow.Approve || e == Workflow.Cancel) ==> approvals == old(approvals)
      ensures apiTokensExpired == (old(apiTokensExpired) || (r.Some? && e == Workflow.Restart))
    {
      r := Workflow.Transition(status, e, AllApproved(approvals));
      if r.Some? {
        if e == Workflow.Restart {
          Restart();
        } else if e == Workflow.PartialApprove {
          PartialApprove();
        }
        status := r.value;
      }
    }

    /** `add_observer` (corrected: a repeat returns the existing observation). */
    method AddObserver(u: UserId, adder: Option<UserId>, reason: Option<string>) returns (observation: Observation)
      requires Valid()
      requires !BlankReason(reason) ==> adder.Some?
      modifies this`observations, this`comments
      ensures Valid()
      ensures (Registry(observations, comments), observation)
           == ObserverAdded(Registry(old(observations), old(comments)), u, adder, reason)
    {
      var existing := ObservationOf(observations, u);
      if existing.Some? {
        observation := observations[existing.value];
      } else {
        observation := Observation(u);
        observations := observations + [observation];
        if !BlankReason(reason) {
          comments := comments + [ObserverAddedComment(adder.value, u, reason.value)];
        }
      }
    }

    /** `set_requester`. */
    method SetRequester(u: UserId)
      modifies this`requester
      ensures requester == Some(u)
    {
      requester := Some(u);
    }
  }

  /** Assigning approvers to a linear proposal with nothing to reuse, then
      cancelling it: the first approver alone is actionable, and
      `partial_approve` on the cancelled proposal changes nothing. */
  method LinearScenario()
  {
    var p := new Proposal(Some(1), Some(Linear), [], None, None);
    p.SetApprovers([10, 11, 12]);
    ghost var s := Reassigned([], [], [10, 11, 12]);
    FreshApproversKickstarted(Linear, [], [], [10, 11, 12]);
    assert IsActionable(p.approvals[0]) && IsPending(p.approvals[1]) && IsPending(p.approvals[2]);
    assert !AllApproved(s) by { assert IsPending(s[0]); }
    assert p.status == Workflow.Pending;
    assert !AllApproved(p.approvals) by { assert IsPending(p.approvals[1]); }
    Workflow.RestartAndCancel(Workflow.Pending, false);
    var r := p.Fire(Workflow.Cancel);
    assert p.status == Workflow.Cancelled;
    ghost var before := p.approvals;
    Workflow.CancelledOnlyPartialApprove(Workflow.PartialApprove, AllApproved(before));
    r := p.Fire(Workflow.PartialApprove);
    assert p.status == Workflow.Cancelled && p.approvals == before;
  }
}
