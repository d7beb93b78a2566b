/** The observer registry of app/models/proposal.rb: `add_observer` and
    `create_new_observation`. A user observes a proposal at most once;
    adding an observer again changes nothing. A non-blank reason records
    one comment attributed to the user who added the observer. */
module Observers {
  import opened Common
  import opened Approvals

  /** An observation of the proposal by `user` (its role is always "observer"). */
  datatype Observation = Observation(user: UserId)

  /** The comment `create_new_observation` records; its localised text is
      left opaque and only its parts are kept. */
  datatype Comment = ObserverAddedComment(author: UserId, observer: UserId, reason: string)

  /** The proposal's observations and comments. */
  datatype Registry = Registry(observations: seq<Observation>, comments: seq<Comment>)

  /** Ruby's `blank?` on an optional reason: nil, or a blank string. */
  predicate BlankReason(reason: Option<string>) {
    reason.None? || BlankString(reason.value)
  }

  /** At most one observation per user. */
  predicate UniqueObservers(obs: seq<Observation>) {
    forall i, j :: 0 <= i < j < |obs| ==> obs[i].user != obs[j].user
  }

  /** `observers`: the users observing, in order. */
  function ObserverUsers(obs: seq<Observation>): (r: seq<UserId>)
    ensures forall u :: u in r <==> exists i :: 0 <= i < |obs| && obs[i].user == u
  {
    if |obs| == 0 then [] else [obs[0].user] + ObserverUsers(obs[1..])
  }

  /** Index of `u`'s observation, if `u` already observes. */
  function ObservationOf(obs: seq<Observation>, u: UserId): (r: Option<nat>)
    ensures r.Some? ==> r.value < |obs| && obs[r.value].user == u
    ensures r.None? <==> forall j :: 0 <= j < |obs| ==> obs[j].user != u
  {
    FirstIndex(obs, (o: Observation) => o.user == u)
  }

  /** `add_observer(user, adder, reason)`, corrected to return the existing
      observation on a repeat. A user who already observes gets that
      observation back and nothing is recorded; otherwise exactly one
      observation is appended, and a comment only for a non-blank reason.
      The source reads the adder's name for the comment, so a non-blank
      reason needs an adder. */
  function ObserverAdded(reg: Registry, u: UserId, adder: Option<UserId>, reason: Option<string>): (res: (Registry, Observation))
    requires !BlankReason(reason) ==> adder.Some?
    ensures res.1.user == u && res.1 in res.0.observations
    ensures ObservationOf(reg.observations, u).Some? ==>
      res.0 == reg && res.1 == reg.observations[ObservationOf(reg.observations, u).value]
    ensures ObservationOf(reg.observations, u).None? ==>
      res.0.observations == reg.observations + [Observation(u)] &&
      res.0.comments == reg.comments +
        (if BlankReason(reason) then [] else [ObserverAddedComment(adder.value, u, reason.value)])
    ensures UniqueObservers(reg.observations) ==> UniqueObservers(res.0.observations)
  {
    match ObservationOf(reg.observations, u)
    case Some(k) => (reg, reg.observations[k])
    case None =>
      var observation := Observation(u);
      var comments := if BlankReason(reason) then reg.comments
        else reg.comments + [ObserverAddedComment(adder.value, u, reason.value)];
      (Registry(reg.observations + [observation], comments), observation)
  }

  /** Adding the same observer twice is the same as adding it once: the
      second call returns the same observation and records nothing,
      whatever adder and reason it is given. */
  lemma AddObserverIdempotent(reg: Registry, u: UserId,
                              adder: Option<UserId>, reason: Option<string>,
                              adder2: Option<UserId>, reason2: Option<string>)
    requires !BlankReason(reason) ==> adder.Some?
    requires !BlankReason(reason2) ==> adder2.Some?
    ensures var first := ObserverAdded(reg, u, adder, reason);
      ObserverAdded(first.0, u, adder2, reason2) == first
  {
    var first := ObserverAdded(reg, u, adder, reason);
    if ObservationOf(reg.observations, u).None? {
      var obs := first.0.observations;
      assert obs[|obs| - 1] == Observation(u);
      assert ObservationOf(obs, u) == Some(|obs| - 1);
    }
  }

  /** What `add_observer` returns as written: `observers.find` yields the
      observing User on a repeat, and only a fresh addition yields an
      Observation. */
  datatype Returned = ObserverUser(id: UserId) | ObservationRecord(observation: Observation)

  function AddObserverReturnsAsWritten(reg: Registry, u: UserId): (r: Returned)
    ensures ObservationOf(reg.observations, u).Some? ==> r == ObserverUser(u)
    ensures ObservationOf(reg.observations, u).None? ==> r == ObservationRecord(Observation(u))
  {
    match ObservationOf(reg.observations, u)
    case Some(_) => ObserverUser(u)
    case None => ObservationRecord(Observation(u))
  }

  /** `observation.user`, as the observations controller reads the result
      of `add_observer`: defined on an Observation, missing on a User. */
  function UserOfReturned(r: Returned): Option<UserId> {
    match r
    case ObservationRecord(o) => Some(o.user)
    case ObserverUser(_) => None
  }

  /** As written, re-adding a user who already observes returns a value
      with no `user` to read; the corrected operation returns the user's
      observation. */
  lemma RepeatAddReturnsNoObservation(u: UserId)
    ensures var reg := Registry([Observation(u)], []);
      UserOfReturned(AddObserverReturnsAsWritten(reg, u)).None? &&
      ObserverAdded(reg, u, None, None).1 == Observation(u)
  {
    var reg := Registry([Observation(u)], []);
    assert ObservationOf(reg.observations, u) == Some(0);
  }
}
