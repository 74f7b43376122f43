/**
 * The OAI record header of the crosswalk (`OAIProvider.build_recordheader`):
 * identifier, datestamp at second precision, set membership and deletion
 * status. `strptime`/`strftime` become string shapes: an index timestamp is
 * `YYYY-MM-DDThh:mm:ss` optionally followed by `.` and one to six digits, and
 * a datestamp is `YYYY-MM-DDThh:mm:ssZ`.
 */
module Header {
  import opened Wrappers
  import opened Text
  import opened Publication

  /** `n` digits starting at `i`. */
  predicate DigitsAt(s: string, i: nat, n: nat)
    requires i + n <= |s|
  {
    forall k :: i <= k < i + n ==> IsDigit(s[k])
  }

  /** `YYYY-MM-DDThh:mm:ss`. */
  predicate IsSecondTimestamp(s: string) {
    |s| == 19
    && DigitsAt(s, 0, 4) && s[4] == '-' && DigitsAt(s, 5, 2) && s[7] == '-' && DigitsAt(s, 8, 2)
    && s[10] == 'T'
    && DigitsAt(s, 11, 2) && s[13] == ':' && DigitsAt(s, 14, 2) && s[16] == ':' && DigitsAt(s, 17, 2)
  }

  /** `YYYY-MM-DDThh:mm:ss.f` with one to six fraction digits: what `%Y-%m-%dT%H:%M:%S.%f` parses. */
  predicate IsFractionTimestamp(s: string) {
    21 <= |s| <= 26 && IsSecondTimestamp(s[..19]) && s[19] == '.' && DigitsAt(s, 20, |s| - 20)
  }

  /** A timestamp `format_timestamp` accepts: with or without fractional seconds. */
  predicate IsIndexTimestamp(s: string) {
    IsSecondTimestamp(s) || IsFractionTimestamp(s)
  }

  /** The OAI-PMH datestamp `YYYY-MM-DDThh:mm:ssZ`. */
  predicate IsDatestamp(s: string) {
    |s| == 20 && IsSecondTimestamp(s[..19]) && s[19] == 'Z'
  }

  /** A parsed timestamp, each part kept as its digits. */
  datatype DateTime = DateTime(date: string, time: string, fraction: string)

  /** `datetime.strptime(s, "%Y-%m-%dT%H:%M:%S.%f")`. */
  function Strptime(s: string): (d: DateTime)
    requires IsFractionTimestamp(s)
  {
    DateTime(s[..10], s[11..19], s[20..])
  }

  /** `strftime("%Y-%m-%dT%H:%M:%SZ")`: the fraction is dropped. */
  function Strftime(d: DateTime): string {
    d.date + "T" + d.time + "Z"
  }

  /** `format_timestamp`: append ".0" when there is no fraction, parse, print at second precision. */
  function FormatTimestamp(timestamp: string): (r: string)
    requires IsIndexTimestamp(timestamp)
    ensures IsDatestamp(r)
    ensures r[..19] == timestamp[..19]
  {
    var t := if '.' !in timestamp then timestamp + ".0" else timestamp;
    assert IsSecondTimestamp(timestamp) ==> '.' !in timestamp by {
      if IsSecondTimestamp(timestamp) {
        forall k | 0 <= k < 19 ensures timestamp[k] != '.' {
          assert k in {4, 7, 10, 13, 16} || IsDigit(timestamp[k]);
        }
      }
    }
    assert IsFractionTimestamp(t) by {
      if '.' !in timestamp {
        assert t[..19] == timestamp;
      }
    }
    var r := Strftime(Strptime(t));
    assert r[..19] == t[..19];
    r
  }

  /** Fractional seconds make no difference to the datestamp. */
  lemma FormatTimestampDropsFraction(timestamp: string)
    requires IsFractionTimestamp(timestamp)
    ensures IsIndexTimestamp(timestamp[..19])
    ensures FormatTimestamp(timestamp) == FormatTimestamp(timestamp[..19])
  {
    var a := FormatTimestamp(timestamp);
    var b := FormatTimestamp(timestamp[..19]);
    assert a == a[..19] + "Z" && b == b[..19] + "Z";
  }

  /** Formatting a datestamp's own seconds again gives the same datestamp. */
  lemma FormatTimestampIdempotent(timestamp: string)
    requires IsIndexTimestamp(timestamp)
    ensures FormatTimestamp(FormatTimestamp(timestamp)[..19]) == FormatTimestamp(timestamp)
  {
    var a := FormatTimestamp(timestamp);
    var b := FormatTimestamp(a[..19]);
    assert a == a[..19] + "Z" && b == b[..19] + "Z";
  }

  /** `get_set_specs`: the set "gu" for a publication flagged as affiliated. */
  function SetSpecs(affiliated: Option<bool>): (r: seq<string>)
    ensures r == ["gu"] <==> IsTrue(affiliated)
    ensures r == [] <==> !IsTrue(affiliated)
  {
    if affiliated.Some? && affiliated.value && affiliated.value == true then ["gu"] else []
  }

  /** `get_deleted_status`. */
  predicate DeletedStatus(deleted: Option<bool>) {
    deleted == Some(true)
  }

  /** The header `OAIProvider.build_recordheader` builds. */
  datatype RecordHeader = RecordHeader(identifier: string, datestamp: string, setspecs: seq<string>, status: Option<string>)

  /** `OAIProvider.build_recordheader`; `identifierPrefix` is the IDENTIFIER_PREFIX setting. */
  function BuildRecordHeader(publication: Publication, identifierPrefix: string): (h: RecordHeader)
    requires IsIndexTimestamp(publication.updatedAt)
    ensures |h.identifier| > |identifierPrefix| + 1 && h.identifier[..|identifierPrefix| + 1] == identifierPrefix + "/"
    ensures IsDatestamp(h.datestamp) && h.datestamp[..19] == publication.updatedAt[..19]
    ensures h.setspecs == (if IsTrue(publication.affiliated) then ["gu"] else [])
    ensures h.status.Some? <==> publication.deleted == Some(true)
    ensures h.status.Some? ==> h.status.value == "deleted"
  {
    RecordHeader(
      identifierPrefix + "/" + NatToString(publication.publicationId),
      FormatTimestamp(publication.updatedAt),
      SetSpecs(publication.affiliated),
      if DeletedStatus(publication.deleted) then Some("deleted") else None)
  }

  /** The internal id can be read back from the header identifier. */
  lemma HeaderIdentifierRoundTrip(publication: Publication, identifierPrefix: string)
    requires IsIndexTimestamp(publication.updatedAt)
    ensures var id := BuildRecordHeader(publication, identifierPrefix).identifier[|identifierPrefix| + 1..];
      (forall i :: 0 <= i < |id| ==> IsDigit(id[i])) && ParseDecimal(id) == publication.publicationId
  {
    var h := BuildRecordHeader(publication, identifierPrefix);
    assert h.identifier[|identifierPrefix| + 1..] == NatToString(publication.publicationId);
    NatToStringRoundTrip(publication.publicationId);
  }
}
