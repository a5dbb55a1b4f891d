/**
 * Masking sensitive fields of a request body or of request headers before
 * they are logged. A record is a map from field names to values (a value
 * that is not a string stands for its printed form); `None` is a falsy
 * record (`undefined`, `null`, an empty string), which is passed through.
 */
module Sanitize {
  import opened Wrappers

  /** What a sensitive value is replaced by. */
  const MASK: string := "******"

  /** The body fields both the exception filter and the request logger mask. */
  const SENSITIVE_FIELDS: seq<string> := ["password", "token", "secret", "authorization"]

  /** The header fields the request logger masks. */
  const SENSITIVE_HEADERS: seq<string> := ["authorization", "cookie", "x-auth-token"]

  type Record = map<string, string>

  /** A present record with every field among `fields` masked. */
  function MaskFields(m: Record, fields: seq<string>): (r: Record)
    ensures r.Keys == m.Keys
    ensures forall k :: k in m && k in fields ==> r[k] == MASK
    ensures forall k :: k in m && k !in fields ==> r[k] == m[k]
  {
    map k | k in m :: if k in fields then MASK else m[k]
  }

  /**
   * The record with every present field among `fields` masked: a falsy
   * record is returned as it is; no field is added or dropped; a masked
   * field holds `MASK`; every other field keeps its value.
   */
  function Masked(record: Option<Record>, fields: seq<string>): (r: Option<Record>)
    ensures record.None? ==> r == record
    ensures record.Some? ==> r.Some? && r.value.Keys == record.value.Keys
    ensures record.Some? ==> forall k :: k in record.value && k in fields ==> r.value[k] == MASK
    ensures record.Some? ==> forall k :: k in record.value && k !in fields ==> r.value[k] == record.value[k]
  {
    match record
    case None => None
    case Some(m) => Some(MaskFields(m, fields))
  }

  /** Masking one more field overwrites it when it is present and changes nothing else. */
  lemma MaskOneMore(m: Record, fields: seq<string>, f: string)
    ensures MaskFields(m, fields + [f]) == if f in m then MaskFields(m, fields)[f := MASK] else MaskFields(m, fields)
  {
    var a := MaskFields(m, fields + [f]);
    var b := if f in m then MaskFields(m, fields)[f := MASK] else MaskFields(m, fields);
    assert a.Keys == b.Keys;
    forall k | k in a ensures a[k] == b[k] {
      assert k in fields + [f] <==> k in fields || k == f;
    }
  }

  /**
   * The sanitizer: copy the record, then overwrite each listed field that is
   * present, one field at a time.
   */
  method Mask(record: Option<Record>, fields: seq<string>) returns (r: Option<Record>)
    ensures r == Masked(record, fields)
  {
    if record.None? {
      return record;
    }
    var sanitized := record.value;
    assert sanitized == MaskFields(record.value, []);
    for i := 0 to |fields|
      invariant sanitized == MaskFields(record.value, fields[..i])
    {
      MaskOneMore(record.value, fields[..i], fields[i]);
      assert fields[..i + 1] == fields[..i] + [fields[i]];
      if fields[i] in sanitized {
        sanitized := sanitized[fields[i] := MASK];
      }
    }
    assert fields[..|fields|] == fields;
    r := Some(sanitized);
  }

  /** Masking twice masks nothing more. */
  lemma MaskedIdempotent(record: Option<Record>, fields: seq<string>)
    ensures Masked(Masked(record, fields), fields) == Masked(record, fields)
  {
    if record.Some? {
      var once := MaskFields(record.value, fields);
      var twice := MaskFields(once, fields);
      assert twice.Keys == once.Keys;
      assert forall k :: k in twice ==> twice[k] == once[k];
      assert twice == once;
      assert Masked(Some(once), fields) == Some(twice);
    }
  }

  /** Only fields among the listed ones change, and a masked record reveals no listed field's value. */
  lemma MaskedHidesExactlyListed(record: Record, fields: seq<string>, k: string)
    requires k in record
    ensures Masked(Some(record), fields).value[k] != record[k] ==> k in fields
    ensures k in fields ==> Masked(Some(record), fields).value[k] == MASK
  {
  }

  /** Masking with more fields masks whatever masking with fewer did. */
  lemma MaskedMonotone(record: Record, fewer: seq<string>, more: seq<string>)
    requires forall f :: f in fewer ==> f in more
    ensures forall k :: k in record && Masked(Some(record), fewer).value[k] != record[k] ==>
      Masked(Some(record), more).value[k] == MASK
  {
  }

  /**
   * `sanitizeBody` (the same in the exception filter and the request
   * logger): exactly the present fields among password, token, secret and
   * authorization are masked.
   */
  method SanitizeBody(body: Option<Record>) returns (r: Option<Record>)
    ensures body.None? ==> r == body
    ensures body.Some? ==> r.Some? && r.value.Keys == body.value.Keys
    ensures body.Some? ==> forall k :: k in body.value ==>
      r.value[k] == if k in {"password", "token", "secret", "authorization"} then MASK else body.value[k]
  {
    r := Mask(body, SENSITIVE_FIELDS);
  }

  /**
   * `sanitizeHeaders`: exactly the present headers among authorization,
   * cookie and x-auth-token are masked.
   */
  method SanitizeHeaders(headers: Option<Record>) returns (r: Option<Record>)
    ensures headers.None? ==> r == headers
    ensures headers.Some? ==> r.Some? && r.value.Keys == headers.value.Keys
    ensures headers.Some? ==> forall k :: k in headers.value ==>
      r.value[k] == if k in {"authorization", "cookie", "x-auth-token"} then MASK else headers.value[k]
  {
    r := Mask(headers, SENSITIVE_HEADERS);
  }
}
