/** Delegation-aware lookups of app/models/proposal.rb: `existing_approval_for`
    (one hop, three ways), `delegate?`, `delegates`, and the approval list
    that `approvers=` builds from an ordered list of users.

    Delegations are standing (assigner, assignee) pairs, not scoped to one
    proposal; they are kept in the order of their table rows. */
module Delegations {
  import opened Common
  import opened Approvals

  datatype Delegation = Delegation(assigner: UserId, assignee: UserId)

  /** An approval held by `holder` may stand for `u`: it is u's own, or u
      is a delegate of the holder, or the holder is a delegate of u. One
      hop only: delegations of delegates are not followed. Which of the two
      delegated to the other does not matter: some delegation row links
      the unordered pair {holder, u}. */
  predicate StandsFor(holder: UserId, u: UserId, ds: seq<Delegation>)
    ensures StandsFor(holder, u, ds) <==>
      holder == u || exists j :: 0 <= j < |ds| && {ds[j].assigner, ds[j].assignee} == {holder, u}
  {
    holder == u || Delegation(holder, u) in ds || Delegation(u, holder) in ds
  }

  /** `existing_approval_for(user)`: the index of the first approval (in
      position order) whose user is `u`, or the assigner of a delegation to
      `u`, or the assignee of a delegation from `u`; None when none is. */
  function ExistingApprovalFor(s: seq<Approval>, ds: seq<Delegation>, u: UserId): (r: Option<nat>)
    ensures r.Some? ==> r.value < |s|
    ensures r.Some? ==> var v := s[r.value].user;
      v == u || Delegation(v, u) in ds || Delegation(u, v) in ds
    ensures r.Some? ==> forall j :: 0 <= j < r.value ==> !StandsFor(s[j].user, u, ds)
    ensures r.None? <==> forall j :: 0 <= j < |s| ==> !StandsFor(s[j].user, u, ds)
  {
    FirstIndex(s, (a: Approval) => StandsFor(a.user, u, ds))
  }

  /** Delegation works in both directions: when A has delegated to B and
      A's approval is the first one that can stand for B, B finds it; and A
      finds B's approval likewise. */
  lemma DelegationIsSymmetric(s: seq<Approval>, ds: seq<Delegation>, a: UserId, b: UserId, i: nat)
    requires Delegation(a, b) in ds
    requires i < |s|
    requires forall j :: 0 <= j < i ==> !StandsFor(s[j].user, a, ds) && !StandsFor(s[j].user, b, ds)
    ensures s[i].user == a ==> ExistingApprovalFor(s, ds, b) == Some(i)
    ensures s[i].user == b ==> ExistingApprovalFor(s, ds, a) == Some(i)
  {
    if s[i].user == a {
      var r := ExistingApprovalFor(s, ds, b);
      assert StandsFor(s[i].user, b, ds);
      assert r.Some? && r.value <= i;
    }
    if s[i].user == b {
      var r := ExistingApprovalFor(s, ds, a);
      assert StandsFor(s[i].user, a, ds);
      assert r.Some? && r.value <= i;
    }
  }

  /** One hop only: with delegations a -> b -> c, an approval held by c
      does not stand for a unless a and c are related directly. */
  lemma OneHopOnly(s: seq<Approval>, ds: seq<Delegation>, a: UserId, b: UserId, c: UserId)
    requires Delegation(a, b) in ds && Delegation(b, c) in ds
    requires a != c && Delegation(a, c) !in ds && Delegation(c, a) !in ds
    requires forall j :: 0 <= j < |s| ==> s[j].user == c
    ensures ExistingApprovalFor(s, ds, a).None?
  {
  }

  /** `delegate?(user)`: some approver of the proposal has delegated to
      `u`. A delegate of an approver always finds an existing approval to
      act on. */
  predicate IsDelegate(s: seq<Approval>, ds: seq<Delegation>, u: UserId)
    ensures IsDelegate(s, ds, u) ==> ExistingApprovalFor(s, ds, u).Some?
  {
    assert forall i :: 0 <= i < |s| && Delegation(s[i].user, u) in ds ==> StandsFor(s[i].user, u, ds);
    exists i :: 0 <= i < |s| && Delegation(s[i].user, u) in ds
  }

  /** The assignees of the delegations made by `v`, in row order. */
  function AssigneesOf(ds: seq<Delegation>, v: UserId): (r: seq<UserId>)
    ensures forall u :: u in r <==> Delegation(v, u) in ds
  {
    if |ds| == 0 then []
    else if ds[0].assigner == v then [ds[0].assignee] + AssigneesOf(ds[1..], v)
    else AssigneesOf(ds[1..], v)
  }

  /** `delegates`: the assignees of the approvers' outgoing delegations,
      approver by approver. Exactly the users `delegate?` answers yes for. */
  function Delegates(s: seq<Approval>, ds: seq<Delegation>): (r: seq<UserId>)
    ensures forall u :: u in r <==> IsDelegate(s, ds, u)
  {
    if |s| == 0 then []
    else
      var rest := Delegates(s[1..], ds);
      assert forall u :: IsDelegate(s, ds, u) <==>
        Delegation(s[0].user, u) in ds || IsDelegate(s[1..], ds, u) by {
        forall u ensures IsDelegate(s, ds, u) ==>
          Delegation(s[0].user, u) in ds || IsDelegate(s[1..], ds, u)
        {
          if IsDelegate(s, ds, u) && Delegation(s[0].user, u) !in ds {
            var i :| 0 <= i < |s| && Delegation(s[i].user, u) in ds;
            assert i > 0 && s[1..][i - 1] == s[i];
          }
        }
        forall u | IsDelegate(s[1..], ds, u) ensures IsDelegate(s, ds, u) {
          var i :| 0 <= i < |s[1..]| && Delegation(s[1..][i].user, u) in ds;
          assert s[i + 1] == s[1..][i];
        }
      }
      AssigneesOf(ds, s[0].user) + rest
  }

  /** The approval `approvers=` places at index `idx` for listed user `u`:
      the existing approval found for `u`, re-positioned, or a fresh pending
      approval for `u`. Either way it sits at position idx + 1 and can
      stand for `u`. */
  function ReassignedEntry(s: seq<Approval>, ds: seq<Delegation>, u: UserId, idx: nat): (r: Approval)
    ensures r.position == idx + 1 && StandsFor(r.user, u, ds)
    ensures match ExistingApprovalFor(s, ds, u)
      case Some(k) => r.user == s[k].user && r.status == s[k].status
      case None => r.user == u && IsPending(r)
  {
    match ExistingApprovalFor(s, ds, u)
    case Some(k) => s[k].(position := idx + 1)
    case None => Approval(u, idx + 1, Pending)
  }

  /** The approval list `approvers=` builds from `list`, before kickstarting:
      one approval per listed user, in list order, positions 1..n. A user
      matched by `existing_approval_for` gets that approval, with its holder
      and status kept; any other user gets a fresh pending approval. Every
      entry can stand for the user listed at its index. */
  function Reassigned(s: seq<Approval>, ds: seq<Delegation>, list: seq<UserId>): (r: seq<Approval>)
    ensures |r| == |list|
    ensures InPositionOrder(r)
    ensures forall i :: 0 <= i < |list| ==> StandsFor(r[i].user, list[i], ds)
    ensures forall i :: 0 <= i < |list| ==>
      match ExistingApprovalFor(s, ds, list[i])
      case Some(k) => r[i].user == s[k].user && r[i].status == s[k].status
      case None => r[i].user == list[i] && IsPending(r[i])
  {
    seq(|list|, i requires 0 <= i < |list| => ReassignedEntry(s, ds, list[i], i))
  }

  /** `approvers=` with users none of whom matches an existing approval
      starts the new cycle from scratch: every listed user gets a fresh
      approval, all of them actionable in parallel flow, and in linear flow
      only the first. */
  lemma FreshApproversKickstarted(flow: Flow, s: seq<Approval>, ds: seq<Delegation>, list: seq<UserId>)
    requires forall i :: 0 <= i < |list| ==> ExistingApprovalFor(s, ds, list[i]).None?
    ensures var r := Kickstarted(flow, Reassigned(s, ds, list));
      |r| == |list| &&
      (forall i :: 0 <= i < |list| ==> r[i].user == list[i] && r[i].position == i + 1) &&
      (flow == Parallel ==> forall i :: 0 <= i < |list| ==> IsActionable(r[i])) &&
      (flow == Linear && |list| > 0 ==>
        IsActionable(r[0]) && forall i :: 0 < i < |list| ==> IsPending(r[i]))
  {
    var z := Reassigned(s, ds, list);
    forall i | 0 <= i < |list| ensures IsPending(z[i]) && z[i].user == list[i] {
      assert ExistingApprovalFor(s, ds, list[i]).None?;
    }
    KickstartFromAllPending(flow, z);
  }

  /** A reused approval keeps its status, so in linear flow the new first
      approver need not be the actionable one: listing a fresh user before
      the holder of an actionable approval leaves the fresh user pending
      and the holder actionable. */
  lemma ReusedApprovalKeepsLinearTurn()
    ensures var r := Kickstarted(Linear, Reassigned([Approval(7, 1, Actionable)], [], [5, 7]));
      r == [Approval(5, 1, Pending), Approval(7, 2, Actionable)]
  {
    var s := [Approval(7, 1, Actionable)];
    var z := Reassigned(s, [], [5, 7]);
    assert ExistingApprovalFor(s, [], 5).None?;
    assert ExistingApprovalFor(s, [], 7) == Some(0);
    assert z == [Approval(5, 1, Pending), Approval(7, 2, Actionable)];
    assert Count(z, IsActionable) > 0 by { assert IsActionable(z[1]); }
  }
}
