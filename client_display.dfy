/** The display attributes of a proposal that are delegated to its
    client-specific data, each with a fallback (app/models/proposal.rb,
    `delegate_with_default`, `public_identifier`, `name`,
    `fields_for_display`, `version`). A client record may or may not supply
    each attribute; one it does not supply reads as nil. */
module ClientDisplay {
  import opened Common

  /** One label/value pair shown for a proposal. */
  type Field = (string, string)

  datatype ClientData = ClientData(
    publicIdentifier: Option<string>,
    name: Option<string>,
    fieldsForDisplay: Option<seq<Field>>,
    version: Option<int>)

  /** `delegate_with_default` with a fallback block: the client's value when
      it is present (not blank), the fallback otherwise. */
  function DelegateWithDefault<T>(value: Option<T>, present: T -> bool, fallback: T): (r: T)
    ensures value.Some? && present(value.value) ==> r == value.value
    ensures !(value.Some? && present(value.value)) ==> r == fallback
    ensures present(fallback) ==> present(r)
  {
    if value.Some? && present(value.value) then value.value else fallback
  }

  predicate PresentString(s: string) { !BlankString(s) }

  predicate PresentFields(f: seq<Field>) { |f| > 0 }

  function Digit(d: nat): (c: char)
    requires d < 10
    ensures '0' <= c <= '9' && (c as int) - ('0' as int) == d
  {
    "0123456789"[d]
  }

  /** The number a string of decimal digits denotes. */
  function DecimalValue(r: string): nat
    requires forall i :: 0 <= i < |r| ==> '0' <= r[i] <= '9'
  {
    if |r| == 0 then 0
    else 10 * DecimalValue(r[..|r| - 1]) + ((r[|r| - 1] as int) - ('0' as int))
  }

  /** Decimal notation of `n`, as Ruby's `Integer#to_s` writes it: digits
      with no leading zero that read back as `n`. */
  function DecimalString(n: nat): (r: string)
    ensures |r| > 0 && (n > 0 ==> r[0] != '0')
    ensures forall i :: 0 <= i < |r| ==> '0' <= r[i] <= '9'
    ensures DecimalValue(r) == n
  {
    if n < 10 then [Digit(n)]
    else
      var r := DecimalString(n / 10) + [Digit(n % 10)];
      assert r[..|r| - 1] == DecimalString(n / 10);
      r
  }

  /** `"##{id}"`: an unsaved proposal has no id, which interpolates as "". */
  function DefaultPublicIdentifier(id: Option<nat>): string {
    "#" + (if id.Some? then DecimalString(id.value) else "")
  }

  /** `public_identifier`: the client's identifier when present, otherwise
      "#" followed by the proposal id. Never blank. */
  function PublicIdentifier(id: Option<nat>, cd: Option<ClientData>): (r: string)
    ensures PresentString(r)
    ensures cd.Some? && cd.value.publicIdentifier.Some? && PresentString(cd.value.publicIdentifier.value) ==>
      r == cd.value.publicIdentifier.value
    ensures !(cd.Some? && cd.value.publicIdentifier.Some? && PresentString(cd.value.publicIdentifier.value)) ==>
      r == "#" + (if id.Some? then DecimalString(id.value) else "")
  {
    var fallback := DefaultPublicIdentifier(id);
    assert !IsSpace(fallback[0]);
    DelegateWithDefault(if cd.Some? then cd.value.publicIdentifier else None, PresentString, fallback)
  }

  /** `name`: the client's name when present, otherwise "Request " followed
      by the public identifier. Never blank. */
  function Name(id: Option<nat>, cd: Option<ClientData>): (r: string)
    ensures PresentString(r)
    ensures cd.Some? && cd.value.name.Some? && PresentString(cd.value.name.value) ==>
      r == cd.value.name.value
    ensures !(cd.Some? && cd.value.name.Some? && PresentString(cd.value.name.value)) ==>
      r == "Request " + PublicIdentifier(id, cd)
  {
    var fallback := "Request " + PublicIdentifier(id, cd);
    assert !IsSpace(fallback[0]);
    DelegateWithDefault(if cd.Some? then cd.value.name else None, PresentString, fallback)
  }

  /** `fields_for_display`: the client's fields when it supplies a non-empty
      list, otherwise none. */
  function FieldsForDisplay(cd: Option<ClientData>): (r: seq<Field>)
    ensures |r| > 0 <==> cd.Some? && cd.value.fieldsForDisplay.Some? && |cd.value.fieldsForDisplay.value| > 0
    ensures |r| > 0 ==> r == cd.value.fieldsForDisplay.value
  {
    DelegateWithDefault(if cd.Some? then cd.value.fieldsForDisplay else None, PresentFields, [])
  }

  /** `updated_at.to_i`: seconds, and 0 for a record never saved. */
  function UpdatedSeconds(updatedAt: Option<int>): int {
    if updatedAt.Some? then updatedAt.value else 0
  }

  /** `version`: the larger of the update time and the client's version,
      when the client has one. */
  function Version(updatedAt: Option<int>, cd: Option<ClientData>): (r: int)
    ensures r >= UpdatedSeconds(updatedAt)
    ensures cd.Some? && cd.value.version.Some? ==> r >= cd.value.version.value
    ensures r == UpdatedSeconds(updatedAt) || (cd.Some? && cd.value.version.Some? && r == cd.value.version.value)
  {
    var t := UpdatedSeconds(updatedAt);
    if cd.Some? && cd.value.version.Some? && cd.value.version.value > t then cd.value.version.value else t
  }

  /** A later update never lowers the version, so a link stamped with an
      older version stays stale. */
  lemma VersionMonotonic(t1: Option<int>, t2: Option<int>, cd: Option<ClientData>)
    requires UpdatedSeconds(t1) <= UpdatedSeconds(t2)
    ensures Version(t1, cd) <= Version(t2, cd)
  {
  }
}
