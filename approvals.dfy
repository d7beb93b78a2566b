/** The approvals of one proposal and what the proposal does to them
    (app/models/proposal.rb): the actionable-approval sequencer
    (`kickstart_approvals`), `restart`, the pointer advance of
    `partial_approve`, the status recomputation `reset_status` and the
    read-only queries over approvals.

    The approvals are kept in position order: the proposal's invariant is
    that the approval at index i has position i + 1, so "the first pending
    approval" is the one with the lowest position. */
module Approvals {
  import opened Common
  import Workflow

  type UserId = nat

  datatype Flow = Parallel | Linear

  datatype ApprovalStatus = Pending | Actionable | Approved

  datatype Approval = Approval(user: UserId, position: nat, status: ApprovalStatus)

  predicate IsPending(a: Approval) { a.status == Pending }
  predicate IsActionable(a: Approval) { a.status == Actionable }
  predicate IsApproved(a: Approval) { a.status == Approved }

  /** Position i + 1 at index i. */
  predicate InPositionOrder(s: seq<Approval>) {
    forall i :: 0 <= i < |s| ==> s[i].position == i + 1
  }

  /** The approval's own `initialize!` event: pending becomes actionable. */
  function Initialized(a: Approval): (r: Approval)
    requires IsPending(a)
    ensures IsActionable(r) && r.user == a.user && r.position == a.position
  {
    a.(status := Actionable)
  }

  /** Index of the pending approval with the lowest position, if any. */
  function FirstPending(s: seq<Approval>): (r: Option<nat>)
    ensures r.Some? ==> r.value < |s| && IsPending(s[r.value])
    ensures r.Some? ==> forall j :: 0 <= j < r.value ==> !IsPending(s[j])
    ensures r.None? <==> forall j :: 0 <= j < |s| ==> !IsPending(s[j])
  {
    FirstIndex(s, IsPending)
  }

  /** `all_approved?`: no approval has a status other than approved, which
      is to say every approval is counted as approved. */
  predicate AllApproved(s: seq<Approval>)
    ensures AllApproved(s) <==> Count(s, IsApproved) == |s|
  {
    forall i :: 0 <= i < |s| ==> IsApproved(s[i])
  }

  /** Equivalently, no approval is outstanding: none is pending or actionable. */
  lemma AllApprovedNoneOutstanding(s: seq<Approval>)
    ensures AllApproved(s) <==> Count(s, IsPending) + Count(s, IsActionable) == 0
  {
  }

  /** `pending.update_all(status: 'actionable')`: afterwards nothing is
      pending; approvals that were not pending are untouched. */
  function AllPendingMadeActionable(s: seq<Approval>): (r: seq<Approval>)
    ensures |r| == |s|
    ensures forall i :: 0 <= i < |s| ==>
      r[i].user == s[i].user && r[i].position == s[i].position && !IsPending(r[i]) &&
      (IsPending(s[i]) ==> IsActionable(r[i])) && (!IsPending(s[i]) ==> r[i] == s[i])
  {
    seq(|s|, i requires 0 <= i < |s| => if IsPending(s[i]) then Initialized(s[i]) else s[i])
  }

  /** `kickstart_approvals`: the approvals after the sequencer has run.
      Parallel: every pending approval becomes actionable. Linear: when no
      approval is actionable, the first pending one (if any) becomes
      actionable. Otherwise nothing changes. */
  function Kickstarted(flow: Flow, s: seq<Approval>): (r: seq<Approval>)
    ensures |r| == |s|
    ensures forall i :: 0 <= i < |s| ==> r[i].user == s[i].user && r[i].position == s[i].position
    ensures forall i :: 0 <= i < |s| ==> (IsApproved(r[i]) <==> IsApproved(s[i]))
    ensures forall i :: 0 <= i < |s| && r[i] != s[i] ==> IsPending(s[i]) && IsActionable(r[i])
    ensures InPositionOrder(s) ==> InPositionOrder(r)
  {
    if flow == Parallel then
      AllPendingMadeActionable(s)
    else if Count(s, IsActionable) == 0 then
      match FirstPending(s)
      case Some(k) => s[k := Initialized(s[k])]
      case None => s
    else
      s
  }

  /** Parallel flow: afterwards no approval is pending, and exactly the
      previously pending ones changed. */
  lemma KickstartParallel(s: seq<Approval>)
    ensures var r := Kickstarted(Parallel, s);
      Count(r, IsPending) == 0 &&
      forall i :: 0 <= i < |s| ==> (r[i] != s[i] <==> IsPending(s[i]))
  {
    var r := Kickstarted(Parallel, s);
    forall i | 0 <= i < |s| ensures !IsPending(r[i]) && (r[i] != s[i] <==> IsPending(s[i])) {
      assert r[i] == if IsPending(s[i]) then Initialized(s[i]) else s[i];
    }
  }

  /** Linear flow with nothing actionable and something pending: exactly the
      first pending approval becomes actionable, so exactly one is actionable. */
  lemma KickstartLinearStartsFirstPending(s: seq<Approval>)
    requires Count(s, IsActionable) == 0 && FirstPending(s).Some?
    ensures var k := FirstPending(s).value; var r := Kickstarted(Linear, s);
      IsActionable(r[k]) &&
      (forall i :: 0 <= i < |s| && i != k ==> r[i] == s[i]) &&
      Count(r, IsActionable) == 1
  {
    var k := FirstPending(s).value;
    CountUpdate(s, IsActionable, k, Initialized(s[k]));
  }

  /** Linear flow: an approval already actionable, or none pending, leaves
      the approvals as they are. */
  lemma KickstartLinearOtherwiseUnchanged(s: seq<Approval>)
    requires Count(s, IsActionable) > 0 || FirstPending(s).None?
    ensures Kickstarted(Linear, s) == s
  {
  }

  /** Linear flow keeps "at most one actionable approval". */
  lemma KickstartLinearAtMostOne(s: seq<Approval>)
    requires Count(s, IsActionable) <= 1
    ensures Count(Kickstarted(Linear, s), IsActionable) <= 1
  {
    if Count(s, IsActionable) == 0 && FirstPending(s).Some? {
      KickstartLinearStartsFirstPending(s);
    }
  }

  /** Running the sequencer twice is the same as running it once. */
  lemma KickstartIdempotent(flow: Flow, s: seq<Approval>)
    ensures Kickstarted(flow, Kickstarted(flow, s)) == Kickstarted(flow, s)
  {
    var r := Kickstarted(flow, s);
    if flow == Parallel {
      KickstartParallel(s);
      KickstartParallel(r);
      assert Kickstarted(flow, r) == r;
    } else if Count(s, IsActionable) == 0 && FirstPending(s).Some? {
      KickstartLinearStartsFirstPending(s);
    }
  }

  /** `approvals.update_all(status: 'pending')`: every approval pending,
      users and positions kept. */
  function AllReset(s: seq<Approval>): (r: seq<Approval>)
    ensures |r| == |s|
    ensures forall i :: 0 <= i < |s| ==>
      IsPending(r[i]) && r[i].user == s[i].user && r[i].position == s[i].position
  {
    seq(|s|, i requires 0 <= i < |s| => s[i].(status := Pending))
  }

  /** Kickstarting approvals that are all pending: in parallel flow every
      one becomes actionable; in linear flow the first becomes actionable
      and every other stays pending. */
  lemma KickstartFromAllPending(flow: Flow, z: seq<Approval>)
    requires forall i :: 0 <= i < |z| ==> IsPending(z[i])
    ensures var r := Kickstarted(flow, z);
      (flow == Parallel ==> forall i :: 0 <= i < |z| ==> IsActionable(r[i])) &&
      (flow == Linear && |z| > 0 ==>
        IsActionable(r[0]) && forall i :: 0 < i < |z| ==> IsPending(r[i]))
  {
    var r := Kickstarted(flow, z);
    if flow == Linear && |z| > 0 {
      assert Count(z, IsActionable) == 0;
      assert FirstPending(z) == Some(0);
      KickstartLinearStartsFirstPending(z);
    }
  }

  /** The approvals after `restart`: all reset to pending, then kickstarted.
      None is approved any more; users and positions are kept. */
  function Restarted(flow: Flow, s: seq<Approval>): (r: seq<Approval>)
    ensures |r| == |s|
    ensures forall i :: 0 <= i < |s| ==>
      !IsApproved(r[i]) && r[i].user == s[i].user && r[i].position == s[i].position
  {
    Kickstarted(flow, AllReset(s))
  }

  /** `restart` discards the previous cycle: no approval stays approved; in
      parallel flow every approval is actionable; in linear flow exactly the
      first is actionable and every other is pending. Users and positions
      are kept. */
  lemma RestartOutcome(flow: Flow, s: seq<Approval>)
    ensures var r := Restarted(flow, s);
      |r| == |s| &&
      (forall i :: 0 <= i < |s| ==> r[i].user == s[i].user && r[i].position == s[i].position) &&
      Count(r, IsApproved) == 0 &&
      (flow == Parallel ==> forall i :: 0 <= i < |s| ==> IsActionable(r[i])) &&
      (flow == Linear && |s| > 0 ==>
        IsActionable(r[0]) && forall i :: 0 < i < |s| ==> IsPending(r[i]))
  {
    var r := Restarted(flow, s);
    KickstartFromAllPending(flow, AllReset(s));
    assert Count(r, IsApproved) == 0;
  }

  /** The approvals after `partial_approve` on a proposal in state `st`:
      nothing on a cancelled proposal; otherwise the first pending approval
      (if any) becomes actionable. It does not approve anything. */
  function PartialAdvanced(st: Workflow.ProposalStatus, s: seq<Approval>): (r: seq<Approval>)
    ensures st == Workflow.Cancelled || FirstPending(s).None? ==> r == s
    ensures st != Workflow.Cancelled && FirstPending(s).Some? ==>
      var k := FirstPending(s).value;
      |r| == |s| && IsActionable(r[k]) && r[k].user == s[k].user && r[k].position == s[k].position &&
      forall i :: 0 <= i < |s| && i != k ==> r[i] == s[i]
    ensures AllApproved(r) <==> AllApproved(s)
    ensures InPositionOrder(s) ==> InPositionOrder(r)
  {
    if st == Workflow.Cancelled then s
    else match FirstPending(s)
      case Some(k) => s[k := Initialized(s[k])]
      case None => s
  }

  /** `reset_status`: a cancelled proposal keeps its status; otherwise the
      status is approved exactly when every approval is approved, and
      pending otherwise. */
  function RecomputedStatus(st: Workflow.ProposalStatus, s: seq<Approval>): (r: Workflow.ProposalStatus)
    ensures st == Workflow.Cancelled ==> r == Workflow.Cancelled
    ensures st != Workflow.Cancelled ==> r != Workflow.Cancelled && (r == Workflow.Approved <==> AllApproved(s))
  {
    if st == Workflow.Cancelled then st
    else if AllApproved(s) then Workflow.Approved
    else Workflow.Pending
  }

  /** Recomputing the status twice is the same as once. */
  lemma RecomputedStatusIdempotent(st: Workflow.ProposalStatus, s: seq<Approval>)
    ensures RecomputedStatus(RecomputedStatus(st, s), s) == RecomputedStatus(st, s)
  {
  }

  /** The sequencer never changes whether all approvals are approved, so
      recomputing the status before or after kickstarting agrees. */
  lemma KickstartKeepsStatus(flow: Flow, st: Workflow.ProposalStatus, s: seq<Approval>)
    ensures RecomputedStatus(st, Kickstarted(flow, s)) == RecomputedStatus(st, s)
  {
    var r := Kickstarted(flow, s);
    assert AllApproved(r) <==> AllApproved(s) by {
      assert forall i :: 0 <= i < |s| ==> (IsApproved(r[i]) <==> IsApproved(s[i]));
    }
  }

  /** `approvers`: the users holding the approvals, in position order. */
  function Approvers(s: seq<Approval>): (r: seq<UserId>)
    ensures |r| == |s|
    ensures forall u :: u in r <==> exists i :: 0 <= i < |s| && s[i].user == u
  {
    if |s| == 0 then [] else [s[0].user] + Approvers(s[1..])
  }

  /** `currently_awaiting_approvals`: the actionable approvals, in order. */
  function CurrentlyAwaiting(s: seq<Approval>): (r: seq<Approval>)
    ensures forall i :: 0 <= i < |r| ==> IsActionable(r[i]) && r[i] in s
    ensures forall i :: 0 <= i < |s| && IsActionable(s[i]) ==> s[i] in r
    ensures |r| == Count(s, IsActionable)
  {
    if |s| == 0 then []
    else if IsActionable(s[0]) then [s[0]] + CurrentlyAwaiting(s[1..])
    else CurrentlyAwaiting(s[1..])
  }

  /** `currently_awaiting_approvers`: the users of the actionable approvals. */
  function CurrentlyAwaitingApprovers(s: seq<Approval>): (r: seq<UserId>)
    ensures forall u :: u in r <==> exists i :: 0 <= i < |s| && IsActionable(s[i]) && s[i].user == u
  {
    if |s| == 0 then []
    else if IsActionable(s[0]) then [s[0].user] + CurrentlyAwaitingApprovers(s[1..])
    else CurrentlyAwaitingApprovers(s[1..])
  }

  /** `is_active_approver?`: the user holds an approval that is no longer
      pending, so the user is an approver who is either awaited now or has
      already approved. */
  predicate IsActiveApprover(s: seq<Approval>, u: UserId)
    ensures IsActiveApprover(s, u) ==> u in Approvers(s)
    ensures IsActiveApprover(s, u) <==>
      u in CurrentlyAwaitingApprovers(s) || exists i :: 0 <= i < |s| && s[i].user == u && IsApproved(s[i])
  {
    exists i :: 0 <= i < |s| && s[i].user == u && !IsPending(s[i])
  }

  /** Right after a restart, the active approvers are every approver in
      parallel flow and only the first approver in linear flow. */
  lemma ActiveApproversAfterRestart(flow: Flow, s: seq<Approval>, u: UserId)
    ensures flow == Parallel ==>
      (IsActiveApprover(Restarted(flow, s), u) <==> exists i :: 0 <= i < |s| && s[i].user == u)
    ensures flow == Linear ==>
      (IsActiveApprover(Restarted(flow, s), u) <==> |s| > 0 && s[0].user == u)
  {
    var r := Restarted(flow, s);
    RestartOutcome(flow, s);
    if flow == Parallel {
      if exists i :: 0 <= i < |s| && s[i].user == u {
        var i :| 0 <= i < |s| && s[i].user == u;
        assert r[i].user == u && !IsPending(r[i]);
      }
    } else if |s| > 0 && s[0].user == u {
      assert r[0].user == u && !IsPending(r[0]);
    }
  }
}
