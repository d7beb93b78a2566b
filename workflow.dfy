/** The proposal lifecycle (app/models/proposal.rb, the `workflow do … end`
    block). The table is kept as data, in declaration order, and an event is
    resolved the way the workflow library resolves it: the first rule for the
    current state and event whose guard holds wins; when no rule applies the
    event is not allowed (the library raises, and nothing changes). */
module Workflow {
  import opened Common

  datatype ProposalStatus = Pending | Approved | Cancelled

  datatype Event = PartialApprove | Approve | Restart | Cancel

  /** A rule either always applies or only when every approval is approved. */
  datatype Guard = Always | IfAllApproved

  datatype Rule = Rule(from: ProposalStatus, event: Event, guard: Guard, to: ProposalStatus)

  /** The state table, in the order the rules are declared. */
  const Table: seq<Rule> := [
    Rule(Pending, PartialApprove, IfAllApproved, Approved),
    Rule(Pending, PartialApprove, Always, Pending),
    Rule(Pending, Approve, Always, Approved),
    Rule(Pending, Restart, Always, Pending),
    Rule(Pending, Cancel, Always, Cancelled),
    Rule(Approved, Restart, Always, Pending),
    Rule(Approved, Cancel, Always, Cancelled),
    Rule(Cancelled, PartialApprove, Always, Cancelled)
  ]

  predicate Applies(rule: Rule, s: ProposalStatus, e: Event, allApproved: bool) {
    rule.from == s && rule.event == e && (rule.guard == IfAllApproved ==> allApproved)
  }

  /** The target state of event `e` fired in state `s`, or None when the
      event is not allowed there. `allApproved` is the guard's input. */
  function Transition(s: ProposalStatus, e: Event, allApproved: bool): (r: Option<ProposalStatus>)
    ensures r.Some? <==> exists k :: 0 <= k < |Table| && Applies(Table[k], s, e, allApproved)
    ensures r.Some? ==> exists k :: 0 <= k < |Table| && Applies(Table[k], s, e, allApproved) && Table[k].to == r.value
  {
    match FirstIndex(Table, (rule: Rule) => Applies(rule, s, e, allApproved))
    case Some(k) => Some(Table[k].to)
    case None => None
  }

  /** `approve` is allowed only from pending, and goes to approved. */
  lemma ApproveOnlyFromPending(s: ProposalStatus, allApproved: bool)
    ensures Transition(s, Approve, allApproved) == if s == Pending then Some(Approved) else None
  {
    var p := (rule: Rule) => Applies(rule, s, Approve, allApproved);
    assert !p(Table[0]) && !p(Table[1]);
    if s == Pending {
      assert p(Table[2]);
    } else {
      assert forall j :: 0 <= j < |Table| ==> !p(Table[j]) by {
        forall j | 0 <= j < |Table| ensures !p(Table[j]) { TableRow(j); }
      }
    }
  }

  /** `restart` and `cancel` are allowed from pending and approved only, and
      go to pending and cancelled respectively. */
  lemma RestartAndCancel(s: ProposalStatus, allApproved: bool)
    ensures Transition(s, Restart, allApproved) == if s != Cancelled then Some(Pending) else None
    ensures Transition(s, Cancel, allApproved) == if s != Cancelled then Some(Cancelled) else None
  {
    var pr := (rule: Rule) => Applies(rule, s, Restart, allApproved);
    var pc := (rule: Rule) => Applies(rule, s, Cancel, allApproved);
    forall j | 0 <= j < |Table| ensures pr(Table[j]) ==> Table[j].to == Pending { TableRow(j); }
    forall j | 0 <= j < |Table| ensures pc(Table[j]) ==> Table[j].to == Cancelled { TableRow(j); }
    if s == Pending {
      assert pr(Table[3]) && pc(Table[4]);
    } else if s == Approved {
      assert pr(Table[5]) && pc(Table[6]);
    } else {
      forall j | 0 <= j < |Table| ensures !pr(Table[j]) && !pc(Table[j]) { TableRow(j); }
    }
  }

  /** `partial_approve` from pending goes to approved exactly when every
      approval is approved and otherwise stays pending; from cancelled it
      stays cancelled; from approved it is not allowed. */
  lemma PartialApproveOutcome(s: ProposalStatus, allApproved: bool)
    ensures s == Pending ==> Transition(s, PartialApprove, allApproved) == Some(if allApproved then Approved else Pending)
    ensures s == Cancelled ==> Transition(s, PartialApprove, allApproved) == Some(Cancelled)
    ensures s == Approved ==> Transition(s, PartialApprove, allApproved) == None
  {
    var p := (rule: Rule) => Applies(rule, s, PartialApprove, allApproved);
    if s == Pending {
      if !allApproved { assert !p(Table[0]) && p(Table[1]); }
    } else if s == Cancelled {
      forall j | 0 <= j < 7 ensures !p(Table[j]) { TableRow(j); }
      assert p(Table[7]);
    } else {
      forall j | 0 <= j < |Table| ensures !p(Table[j]) { TableRow(j); }
    }
  }

  /** No event leads out of cancelled: the only event allowed there is
      `partial_approve`, and it stays in cancelled. */
  lemma CancelledOnlyPartialApprove(e: Event, allApproved: bool)
    ensures Transition(Cancelled, e, allApproved) == if e == PartialApprove then Some(Cancelled) else None
  {
    match e
    case PartialApprove => PartialApproveOutcome(Cancelled, allApproved);
    case Approve => ApproveOnlyFromPending(Cancelled, allApproved);
    case Restart => RestartAndCancel(Cancelled, allApproved);
    case Cancel => RestartAndCancel(Cancelled, allApproved);
  }

  /** Only `approve` and `partial_approve` lead to approved. */
  lemma ApprovedOnlyByApproval(s: ProposalStatus, e: Event, allApproved: bool)
    requires Transition(s, e, allApproved) == Some(Approved)
    ensures e == Approve || e == PartialApprove
  {
    var k :| 0 <= k < |Table| && Applies(Table[k], s, e, allApproved) && Table[k].to == Approved;
    TableRow(k);
  }

  /** Fires a sequence of events, each with the guard value it saw; an event
      that is not allowed leaves the state as it was. The state ends in
      approved only if it started there or some event was `approve` or
      `partial_approve`. */
  function Run(s: ProposalStatus, events: seq<(Event, bool)>): (r: ProposalStatus)
    ensures r == Approved ==>
      s == Approved || exists i :: 0 <= i < |events| && (events[i].0 == Approve || events[i].0 == PartialApprove)
    decreases |events|
  {
    if |events| == 0 then s
    else
      var t := Transition(s, events[0].0, events[0].1);
      var next := match t
        case Some(v) => v
        case None => s;
      if t == Some(Approved) then
        ApprovedOnlyByApproval(s, events[0].0, events[0].1);
        Run(next, events[1..])
      else
        var r := Run(next, events[1..]);
        assert r == Approved && next != Approved ==>
          exists i :: 1 <= i < |events| && (events[i].0 == Approve || events[i].0 == PartialApprove) by {
          if r == Approved && next != Approved {
            var i :| 0 <= i < |events[1..]| && (events[1..][i].0 == Approve || events[1..][i].0 == PartialApprove);
            assert events[i + 1] == events[1..][i];
          }
        }
        r
  }

  /** Cancellation is sticky under every sequence of events. */
  lemma {:induction false} CancelledIsSticky(events: seq<(Event, bool)>)
    ensures Run(Cancelled, events) == Cancelled
    decreases |events|
  {
    if |events| > 0 {
      CancelledOnlyPartialApprove(events[0].0, events[0].1);
      CancelledIsSticky(events[1..]);
    }
  }

  /** The rows of the table, one by one. */
  lemma TableRow(j: int)
    requires 0 <= j < |Table|
    ensures j == 0 ==> Table[j] == Rule(Pending, PartialApprove, IfAllApproved, Approved)
    ensures j == 1 ==> Table[j] == Rule(Pending, PartialApprove, Always, Pending)
    ensures j == 2 ==> Table[j] == Rule(Pending, Approve, Always, Approved)
    ensures j == 3 ==> Table[j] == Rule(Pending, Restart, Always, Pending)
    ensures j == 4 ==> Table[j] == Rule(Pending, Cancel, Always, Cancelled)
    ensures j == 5 ==> Table[j] == Rule(Approved, Restart, Always, Pending)
    ensures j == 6 ==> Table[j] == Rule(Approved, Cancel, Always, Cancelled)
    ensures j == 7 ==> Table[j] == Rule(Cancelled, PartialApprove, Always, Cancelled)
  {
  }
}
