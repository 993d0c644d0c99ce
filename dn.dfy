/**
 * Reading a manager identifier out of an LDAP distinguished name the way the
 * comparison program does it: split on `,`, keep the first relative
 * distinguished name, split that on `=`, take the second field. No escaping
 * (section 2.4 of RFC 4514) is understood; `[1]` on a one-field split throws.
 */
module DistinguishedName {
  import opened Wrappers
  import opened Text

  /** `dn.Split(',')[0].Split('=')[1]`. */
  function FirstRdnValue(dn: string): (r: Result<string>)
    ensures r.Failure? <==> '=' !in Split(dn, ',')[0]
    ensures r.Failure? ==> r.fault == IndexOutOfRange
    ensures r.Success? ==> ',' !in r.value && '=' !in r.value
  {
    var first := Split(dn, ',')[0];
    var fields := Split(first, '=');
    SplitCount(first, '=');
    SplitKeepsAbsent(first, '=', ',');
    if |fields| < 2 then Failure(IndexOutOfRange) else Success(fields[1])
  }

  /**
   * `GetManagerIdFromAD`: the `manager` attribute of a directory entry, absent
   * or present, reduced to the value of its first RDN; absent or empty gives "".
   */
  function GetManagerId(managerDn: Option<string>): (r: Result<string>)
    ensures managerDn.None? || managerDn.value == "" ==> r == Success("")
    ensures managerDn.Some? && managerDn.value != "" ==> r == FirstRdnValue(managerDn.value)
    ensures managerDn.Some? && managerDn.value != "" ==>
              (r.Failure? <==> '=' !in Split(managerDn.value, ',')[0])
    ensures r.Success? ==> ',' !in r.value && '=' !in r.value
  {
    match managerDn
    case None => Success("")
    case Some(dn) => if dn == "" then Success("") else FirstRdnValue(dn)
  }

  /**
   * For `attr=value` followed by the end, a `,` or another `=`, the extraction
   * gives `value` back, provided neither part contains a separator.
   */
  lemma FirstRdnValueOf(attr: string, value: string, tail: string)
    requires ',' !in attr && '=' !in attr
    requires ',' !in value && '=' !in value
    requires tail == [] || tail[0] == ',' || tail[0] == '='
    ensures FirstRdnValue(attr + "=" + value + tail) == Success(value)
  {
    var t0 := FirstSegmentOfRdn(attr, value, tail);
    var fields := FieldsOfRdn(attr, value, t0);
    assert Split(Split(attr + "=" + value + tail, ',')[0], '=') == fields;
  }

  /** The first comma segment is `attr=value` and what follows up to the next `,`. */
  lemma FirstSegmentOfRdn(attr: string, value: string, tail: string) returns (t0: string)
    requires ',' !in attr && ',' !in value
    requires tail == [] || tail[0] == ',' || tail[0] == '='
    ensures Split(attr + "=" + value + tail, ',')[0] == attr + "=" + value + t0
    ensures t0 == [] || t0[0] == '='
  {
    var head := attr + "=" + value;
    assert attr + "=" + value + tail == head + tail;
    assert ',' !in head by {
      assert head == attr + ['='] + value;
    }
    FirstSegmentAppend(head, tail, ',');
    t0 := Split(tail, ',')[0];
    FirstSegmentEmpty(tail, ',');
  }

  /** Splitting `attr=value…` on `=` puts `value` in the second field. */
  lemma FieldsOfRdn(attr: string, value: string, t0: string) returns (fields: seq<string>)
    requires '=' !in attr && '=' !in value
    requires t0 == [] || t0[0] == '='
    ensures fields == Split(attr + "=" + value + t0, '=')
    ensures |fields| >= 2 && fields[1] == value
  {
    assert attr + "=" + value + t0 == attr + ['='] + (value + t0);
    SplitAfter(attr, value + t0, '=');
    FirstSegmentAppend(value, t0, '=');
    FirstSegmentEmpty(t0, '=');
    fields := Split(attr + "=" + value + t0, '=');
  }

  /**
   * An extracted value holds neither `,` nor `=`, so extracting from it once
   * more always fails: the second split has a single field.
   */
  lemma ReExtractionFails(dn: string)
    requires FirstRdnValue(dn).Success?
    ensures FirstRdnValue(FirstRdnValue(dn).value) == Failure(IndexOutOfRange)
  {
    SplitWithout(FirstRdnValue(dn).value, ',');
  }
}
