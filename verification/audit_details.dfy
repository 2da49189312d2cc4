/** The narrative synthesiser: one human-readable sentence per audit-log
    entry, chosen by the entry's upper-cased action-type code. The date
    formatter (`Intl.DateTimeFormat`, en-US, long month, 12-hour clock) is a
    locale library and is passed in as `formatDateTime`. */
module AuditDetails {
  import opened Results
  import opened Text
  import opened Json
  import JsonParse
  import Seqs
  import opened Records

  /** The separator the change list puts between old and new value, as it
      stands in the source file: U+00E2 U+2020 U+2019 (a mis-decoded
      right arrow). */
  const Arrow: string := "\U{E2}\U{2020}\U{2019}"

  const UnknownFields: string := "unknown fields"
  const NoChanges: string := "no changes detected"

  /** `action_by || 'System'`: never empty, and the caller's actor whenever
      one is given. */
  function UserIdentifier(actionBy: Option<string>): (r: string)
    ensures r != ""
    ensures actionBy.Some? && actionBy.value != "" ==> r == actionBy.value
    ensures r == "System" || (actionBy.Some? && r == actionBy.value)
  {
    if actionBy.Some? && actionBy.value != "" then actionBy.value else "System"
  }

  // ---------------------------------------------------------------------
  // Field changes of an UPDATE
  // ---------------------------------------------------------------------

  /** One changed field: its name and the two property reads. */
  datatype Change = Change(field: string, before: Option<Json>, after: Option<Json>)

  /** `new Set([...Object.keys(previous), ...Object.keys(next)])`. */
  function AllFields(previous: Json, next: Json): seq<string> {
    Seqs.Dedup(Keys(previous) + Keys(next))
  }

  /** A field whose two reads serialise differently. */
  predicate Differs(previous: Json, next: Json, f: string) {
    !SameSerialization(Get(previous, f), Get(next, f))
  }

  /** The fields of `fields`, in order, whose two reads serialise
      differently. */
  function ChangedFields(fields: seq<string>, previous: Json, next: Json): seq<string> {
    Seqs.Filter(fields, f => Differs(previous, next, f))
  }

  /** The changed fields with their two reads. */
  function FieldChanges(previous: Json, next: Json): (r: seq<Change>)
    ensures var fs := ChangedFields(AllFields(previous, next), previous, next);
      |r| == |fs| && forall i :: 0 <= i < |r| ==> r[i].field == fs[i]
  {
    var fs := ChangedFields(AllFields(previous, next), previous, next);
    seq(|fs|, i requires 0 <= i < |fs| => Change(fs[i], Get(previous, fs[i]), Get(next, fs[i])))
  }

  /** Every field name in the union of both key lists is reported exactly
      when its two values differ as JSON values (deep structural equality,
      `undefined` differing from `null`); each reported entry carries the two
      reads, and no field is reported twice. */
  lemma FieldChangesExact(previous: Json, next: Json)
    ensures var cs := FieldChanges(previous, next);
      && (forall k :: (exists i :: 0 <= i < |cs| && cs[i].field == k) <==>
            (k in Keys(previous) || k in Keys(next)) && Get(previous, k) != Get(next, k))
      && (forall i :: 0 <= i < |cs| ==>
            cs[i].before == Get(previous, cs[i].field) && cs[i].after == Get(next, cs[i].field))
      && (forall i, j :: 0 <= i < j < |cs| ==> cs[i].field != cs[j].field)
  {
    var fields := AllFields(previous, next);
    var fs := ChangedFields(fields, previous, next);
    var cs := FieldChanges(previous, next);
    forall k
      ensures (exists i :: 0 <= i < |cs| && cs[i].field == k) <==>
        (k in Keys(previous) || k in Keys(next)) && Get(previous, k) != Get(next, k)
    {
      JsonParse.SameSerializationIsEquality(Get(previous, k), Get(next, k));
      assert k in fields <==> k in Keys(previous) + Keys(next);
      assert k in fs <==> k in fields && Differs(previous, next, k);
      if k in fs {
        var i := Seqs.IndexOf(fs, k);
        assert cs[i].field == k;
      }
    }
    Seqs.FilterDistinct(fields, f => Differs(previous, next, f));
  }

  lemma {:induction false} WithoutKeepsDistinct(b: seq<string>, a: seq<string>)
    requires Seqs.Distinct(b)
    ensures Seqs.Distinct(Seqs.Without(b, a))
  {
    if |b| > 0 {
      assert Seqs.Distinct(b[1..]);
      WithoutKeepsDistinct(b[1..], a);
      assert b[0] !in b[1..];
    }
  }

  /** For two values whose keys are distinct (as JavaScript guarantees)
      the fields are visited as the keys of the previous value followed by
      the keys that only the new value has, and the changes come in that
      order. */
  lemma FieldOrder(previous: Json, next: Json)
    requires DistinctKeys(previous) && DistinctKeys(next)
    ensures var newOnly := Seqs.Without(Keys(next), Keys(previous));
      && AllFields(previous, next) == Keys(previous) + newOnly
      && ChangedFields(AllFields(previous, next), previous, next)
         == ChangedFields(Keys(previous), previous, next) + ChangedFields(newOnly, previous, next)
  {
    var kp := Keys(previous);
    var newOnly := Seqs.Without(Keys(next), kp);
    Seqs.DedupAppend(kp, Keys(next));
    Seqs.DedupOfDistinct(kp);
    WithoutKeepsDistinct(Keys(next), kp);
    Seqs.DedupOfDistinct(newOnly);
    Seqs.FilterConcat(kp, newOnly, f => Differs(previous, next, f));
  }

  /** An array answers its own `length`: against an object whose `length`
      member holds the array's size, that field is not a change. */
  lemma ArrayLengthIsRead(items: seq<Json>)
    ensures var previous := JArr(items);
      var next := JObj([Member("length", JNum(|items|))]);
      && "length" in AllFields(previous, next)
      && "length" !in ChangedFields(AllFields(previous, next), previous, next)
  {
    var previous := JArr(items);
    var next := JObj([Member("length", JNum(|items|))]);
    assert Keys(next) == ["length"];
    assert "length" in Keys(previous) + Keys(next);
    assert Get(next, "length") == Some(JNum(|items|));
  }

  /** `${field}: ${formatValue(old)} <arrow> ${formatValue(new)}`. */
  function RenderChange(c: Change): string {
    c.field + ": " + FormatValue(c.before) + " " + Arrow + " " + FormatValue(c.after)
  }

  function RenderChanges(cs: seq<Change>): (r: seq<string>)
    ensures |r| == |cs|
    ensures forall i :: 0 <= i < |cs| ==> r[i] == RenderChange(cs[i])
  {
    seq(|cs|, i requires 0 <= i < |cs| => RenderChange(cs[i]))
  }

  /** `buildFieldChanges(previous_data, new_data)`. */
  function BuildFieldChanges(previous: Json, next: Json): (r: string)
    ensures r == UnknownFields <==> !IsObjectLike(previous) || !IsObjectLike(next)
    ensures r == NoChanges <==>
      IsObjectLike(previous) && IsObjectLike(next) && |FieldChanges(previous, next)| == 0
  {
    if !IsObjectLike(previous) || !IsObjectLike(next) then UnknownFields
    else
      var cs := FieldChanges(previous, next);
      if |cs| > 0 then
        ListIsNotPhrase(cs);
        Join(RenderChanges(cs), "; ")
      else NoChanges
  }

  lemma ArrowInRendered(cs: seq<Change>)
    requires |cs| > 0
    ensures '\U{2020}' in Join(RenderChanges(cs), "; ")
  {
    var parts := RenderChanges(cs);
    var c := cs[0];
    var head := c.field + ": " + FormatValue(c.before) + " ";
    assert parts[0] == head + (Arrow + (" " + FormatValue(c.after)));
    assert parts[0][|head| + 1] == '\U{2020}';
    JoinStartsWithFirst(parts, "; ");
    assert Join(parts, "; ")[|head| + 1] == '\U{2020}';
  }

  /** A rendered change list is never one of the two fixed phrases. */
  lemma ListIsNotPhrase(cs: seq<Change>)
    requires |cs| > 0
    ensures Join(RenderChanges(cs), "; ") != UnknownFields
    ensures Join(RenderChanges(cs), "; ") != NoChanges
  {
    ArrowInRendered(cs);
    PhrasesLackArrow();
  }

  lemma PhrasesLackArrow()
    ensures '\U{2020}' !in UnknownFields && '\U{2020}' !in NoChanges
  {
  }

  /** Two objects yield no change exactly when they agree on every key of
      either. */
  lemma NoChangeIffAgree(previous: Json, next: Json)
    ensures |FieldChanges(previous, next)| == 0 <==>
      forall k :: k in Keys(previous) || k in Keys(next) ==> Get(previous, k) == Get(next, k)
  {
    FieldChangesExact(previous, next);
    var cs := FieldChanges(previous, next);
    if |cs| > 0 {
      assert cs[0].field == cs[0].field;
    }
  }

  /** `buildFieldChanges` answers "unknown fields" exactly when one side is
      not an object, "no changes detected" exactly when both are objects
      that agree on every key of either, and a list otherwise; a list is
      never mistaken for either phrase. */
  lemma BuildFieldChangesCases(previous: Json, next: Json)
    ensures var r := BuildFieldChanges(previous, next);
      && (r == UnknownFields <==> !IsObjectLike(previous) || !IsObjectLike(next))
      && (r == NoChanges <==>
            IsObjectLike(previous) && IsObjectLike(next)
            && forall k :: k in Keys(previous) || k in Keys(next) ==> Get(previous, k) == Get(next, k))
      && (r != UnknownFields && r != NoChanges ==>
            r == Join(RenderChanges(FieldChanges(previous, next)), "; "))
  {
    NoChangeIffAgree(previous, next);
    if IsObjectLike(previous) && IsObjectLike(next) && |FieldChanges(previous, next)| > 0 {
      ListIsNotPhrase(FieldChanges(previous, next));
    }
    assert UnknownFields != NoChanges;
  }

  /** A key that is `null` on one side and missing on the other is a
      change: `k: null <arrow> null`. */
  lemma NullVersusMissing(k: string)
    ensures BuildFieldChanges(JObj([Member(k, JNull)]), JObj([]))
            == k + ": null " + Arrow + " null"
  {
    var p := JObj([Member(k, JNull)]);
    var n := JObj([]);
    assert Keys(p) == [k];
    assert Keys(n) == [];
    assert Keys(p) + Keys(n) == [k];
    assert Seqs.Dedup([k]) == [k] by {
      assert [k][..0] == [];
    }
    assert Get(p, k) == Some(JNull);
    assert Get(n, k) == None;
    assert Differs(p, n, k);
    assert ChangedFields([k], p, n) == [k] by {
      assert [k][1..] == [];
    }
    var cs := FieldChanges(p, n);
    assert cs == [Change(k, Some(JNull), None)];
    assert RenderChanges(cs) == [RenderChange(cs[0])];
  }

  // ---------------------------------------------------------------------
  // One sentence per action type
  // ---------------------------------------------------------------------

  /** `User <actor> `, the opening of every regular sentence. */
  function Actor(log: AuditLog): string {
    "User " + UserIdentifier(log.actionBy) + " "
  }

  function CreateDetails(log: AuditLog, formatDateTime: int -> string): (r: string)
    ensures StartsWith(r, Actor(log))
  {
    var details := Actor(log) + ("created a new " + log.entityType
      + " record (ID: " + log.entityId + ") at " + formatDateTime(log.actionAt) + ".");
    var fields := Keys(log.newData);
    if IsObjectLike(log.newData) && |fields| > 0
    then details + " Initial values were set for: " + Join(fields, ", ") + "."
    else details
  }

  function UpdateHead(log: AuditLog, formatDateTime: int -> string): (r: string)
    ensures StartsWith(r, Actor(log))
  {
    Actor(log) + ("updated the " + log.entityType
      + " record (ID: " + log.entityId + ") at " + formatDateTime(log.actionAt) + ".")
  }

  /** The UPDATE sentence, given the field-change text. */
  function UpdateDetails(log: AuditLog, fieldChanges: string, formatDateTime: int -> string): (r: string)
    ensures StartsWith(r, Actor(log))
  {
    var details := UpdateHead(log, formatDateTime);
    if fieldChanges != UnknownFields && fieldChanges != NoChanges
    then details + "\n\nChanges:\n" + fieldChanges
    else details + " " + fieldChanges + "."
  }

  /** DELETE, ARCHIVE and UNARCHIVE differ only in their verb. */
  function RecordActionDetails(log: AuditLog, verb: string, formatDateTime: int -> string): (r: string)
    ensures StartsWith(r, Actor(log))
  {
    Actor(log) + (verb + " the " + log.entityType
      + " record (ID: " + log.entityId + ") at " + formatDateTime(log.actionAt) + ".")
  }

  function ExportDetails(log: AuditLog, formatDateTime: int -> string): (r: Result<string, string>)
    ensures r.Failure? <==> IsBlank(log.entityId)
    ensures r.Success? ==> StartsWith(r.value, Actor(log))
  {
    if IsBlank(log.entityId)
    then Failure("EXPORT action requires a valid entity_id as reference identifier")
    else Success(Actor(log) + ("exported " + log.entityType + " data at "
      + formatDateTime(log.actionAt) + ". Export reference ID: " + log.entityId + "."))
  }

  function ImportDetails(log: AuditLog, formatDateTime: int -> string): (r: Result<string, string>)
    ensures r.Failure? <==> IsBlank(log.entityId)
    ensures r.Success? ==> StartsWith(r.value, Actor(log))
  {
    if IsBlank(log.entityId)
    then Failure("IMPORT action requires a valid entity_id as reference identifier")
    else Success(Actor(log) + ("imported data into " + log.entityType + " at "
      + formatDateTime(log.actionAt) + ". Import reference ID: " + log.entityId + "."))
  }

  /** ` from IP address <ip>` when the entry has a non-empty address. */
  function IpClause(ipAddress: Option<string>): string {
    if ipAddress.Some? && ipAddress.value != "" then " from IP address " + ipAddress.value else ""
  }

  /** LOGIN and LOGOUT differ only in their verb. */
  function SessionDetails(log: AuditLog, verb: string, formatDateTime: int -> string): (r: string)
    ensures StartsWith(r, Actor(log))
  {
    Actor(log) + (verb + " at " + formatDateTime(log.actionAt) + IpClause(log.ipAddress) + ".")
  }

  function GenericDetails(log: AuditLog, formatDateTime: int -> string): (r: string)
    ensures StartsWith(r, Actor(log))
  {
    Actor(log) + ("performed action '" + ToUpper(log.actionType.code) + "' on "
      + log.entityType + " (ID: " + log.entityId + ") at " + formatDateTime(log.actionAt) + ".")
  }

  function FallbackDetails(log: AuditLog): string {
    "Audit log entry for " + log.entityType + " (ID: " + log.entityId + ")."
  }

  /** The action codes with a dedicated sentence, and everything else. */
  datatype ActionKind =
    | Create | Update | Delete | Archive | Unarchive
    | Export | Import | Login | Logout | Unrecognized

  function Classify(code: string): ActionKind {
    if code == "CREATE" then Create
    else if code == "UPDATE" then Update
    else if code == "DELETE" then Delete
    else if code == "ARCHIVE" then Archive
    else if code == "UNARCHIVE" then Unarchive
    else if code == "EXPORT" then Export
    else if code == "IMPORT" then Import
    else if code == "LOGIN" then Login
    else if code == "LOGOUT" then Logout
    else Unrecognized
  }

  /** The kind an entry is dispatched on: its code, upper-cased. */
  function KindOf(log: AuditLog): ActionKind {
    Classify(ToUpper(log.actionType.code))
  }

  /** True when the EXPORT/IMPORT builder throws for want of a reference. */
  predicate MissingReference(log: AuditLog) {
    (KindOf(log) == Export || KindOf(log) == Import) && IsBlank(log.entityId)
  }

  lemma PrefixOfConcat(a: string, b: string)
    ensures StartsWith(a + b, a)
  {
    assert (a + b)[..|a|] == a;
  }

  lemma PrefixThrough(a: string, b: string, c: string)
    requires StartsWith(b, a)
    ensures StartsWith(b + c, a)
  {
    assert (b + c)[..|a|] == b[..|a|];
  }

  /** The `switch` over the upper-cased code; a builder that throws is a
      failure carrying its message. */
  function Dispatch(log: AuditLog, kind: ActionKind, formatDateTime: int -> string): (r: Result<string, string>)
    ensures r.Failure? <==> (kind == Export || kind == Import) && IsBlank(log.entityId)
    ensures r.Success? ==> StartsWith(r.value, Actor(log))
  {
    match kind
      case Create => Success(CreateDetails(log, formatDateTime))
      case Update => Success(UpdateDetails(log, BuildFieldChanges(log.previousData, log.newData), formatDateTime))
      case Delete => Success(RecordActionDetails(log, "deleted", formatDateTime))
      case Archive => Success(RecordActionDetails(log, "archived", formatDateTime))
      case Unarchive => Success(RecordActionDetails(log, "unarchived", formatDateTime))
      case Export => ExportDetails(log, formatDateTime)
      case Import => ImportDetails(log, formatDateTime)
      case Login => Success(SessionDetails(log, "logged in", formatDateTime))
      case Logout => Success(SessionDetails(log, "logged out", formatDateTime))
      case Unrecognized => Success(GenericDetails(log, formatDateTime))
  }

  /** `buildAuditDetails`: total; a builder that throws is answered with
      the fallback sentence, every other sentence opens with the actor. */
  function BuildAuditDetails(log: AuditLog, formatDateTime: int -> string): (r: string)
    ensures MissingReference(log) ==>
      r == "Audit log entry for " + log.entityType + " (ID: " + log.entityId + ")."
    ensures !MissingReference(log) ==>
      StartsWith(r, "User " + UserIdentifier(log.actionBy) + " ")
  {
    match Dispatch(log, KindOf(log), formatDateTime)
    case Success(details) => details
    case Failure(_) => FallbackDetails(log)
  }

  /** The UPDATE sentence: ` unknown fields.` when a side is not an object,
      ` no changes detected.` when nothing differs, and otherwise the change
      list under a `Changes:` heading. */
  lemma UpdateSentence(log: AuditLog, formatDateTime: int -> string)
    requires KindOf(log) == Update
    ensures var r := BuildAuditDetails(log, formatDateTime);
      var head := UpdateHead(log, formatDateTime);
      var p := log.previousData;
      var n := log.newData;
      && (!IsObjectLike(p) || !IsObjectLike(n) ==> r == head + " " + UnknownFields + ".")
      && (IsObjectLike(p) && IsObjectLike(n) && |FieldChanges(p, n)| == 0 ==>
            r == head + " " + NoChanges + ".")
      && (IsObjectLike(p) && IsObjectLike(n) && |FieldChanges(p, n)| > 0 ==>
            r == head + "\n\nChanges:\n" + Join(RenderChanges(FieldChanges(p, n)), "; "))
  {
    var fc := BuildFieldChanges(log.previousData, log.newData);
    assert BuildAuditDetails(log, formatDateTime) == UpdateDetails(log, fc, formatDateTime);
    BuildFieldChangesCases(log.previousData, log.newData);
  }

  /** The CREATE sentence lists the new value's keys exactly when it is an
      object with at least one key. */
  lemma CreateSentence(log: AuditLog, formatDateTime: int -> string)
    requires KindOf(log) == Create
    ensures var r := BuildAuditDetails(log, formatDateTime);
      var base := "User " + UserIdentifier(log.actionBy) + " " + ("created a new " + log.entityType
        + " record (ID: " + log.entityId + ") at " + formatDateTime(log.actionAt) + ".");
      && (|Keys(log.newData)| > 0 ==>
            r == base + " Initial values were set for: " + Join(Keys(log.newData), ", ") + ".")
      && (|Keys(log.newData)| == 0 ==> r == base)
  {
    assert BuildAuditDetails(log, formatDateTime) == CreateDetails(log, formatDateTime);
  }

  /** LOGIN and LOGOUT mention the address only when there is one, and
      always end with a full stop. */
  lemma SessionSentence(log: AuditLog, formatDateTime: int -> string)
    requires KindOf(log) == Login || KindOf(log) == Logout
    ensures var r := BuildAuditDetails(log, formatDateTime);
      var verb := if KindOf(log) == Login then "logged in" else "logged out";
      var base := "User " + UserIdentifier(log.actionBy) + " " + (verb + " at " + formatDateTime(log.actionAt));
      && (log.ipAddress.Some? && log.ipAddress.value != "" ==>
            r == base + " from IP address " + log.ipAddress.value + ".")
      && (log.ipAddress.None? || log.ipAddress.value == "" ==> r == base + ".")
  {
    var verb := if KindOf(log) == Login then "logged in" else "logged out";
    var ts := formatDateTime(log.actionAt);
    var ip := IpClause(log.ipAddress);
    assert BuildAuditDetails(log, formatDateTime) == SessionDetails(log, verb, formatDateTime);
    Seqs.AppendAssoc(Actor(log), verb + " at " + ts, ip + ".");
    Seqs.AppendAssoc(verb + " at " + ts, ip, ".");
    Seqs.AppendAssoc(Actor(log) + (verb + " at " + ts), ip, ".");
  }

  /** DELETE, ARCHIVE and UNARCHIVE share one sentence and differ in the
      verb only. */
  lemma RecordSentence(log: AuditLog, formatDateTime: int -> string)
    requires KindOf(log) == Delete || KindOf(log) == Archive || KindOf(log) == Unarchive
    ensures var verb := if KindOf(log) == Delete then "deleted"
        else if KindOf(log) == Archive then "archived" else "unarchived";
      BuildAuditDetails(log, formatDateTime)
        == "User " + UserIdentifier(log.actionBy) + " " + (verb + " the " + log.entityType
           + " record (ID: " + log.entityId + ") at " + formatDateTime(log.actionAt) + ".")
  {
    var verb := if KindOf(log) == Delete then "deleted"
      else if KindOf(log) == Archive then "archived" else "unarchived";
    assert BuildAuditDetails(log, formatDateTime) == RecordActionDetails(log, verb, formatDateTime);
  }

  /** EXPORT and IMPORT quote the entity id as a reference; without one the
      builder throws and the entry gets the fallback sentence. */
  lemma ReferenceSentence(log: AuditLog, formatDateTime: int -> string)
    requires KindOf(log) == Export || KindOf(log) == Import
    ensures var r := BuildAuditDetails(log, formatDateTime);
      var user := "User " + UserIdentifier(log.actionBy) + " ";
      var ts := formatDateTime(log.actionAt);
      && (IsBlank(log.entityId) ==>
            r == "Audit log entry for " + log.entityType + " (ID: " + log.entityId + ").")
      && (!IsBlank(log.entityId) && KindOf(log) == Export ==>
            r == user + ("exported " + log.entityType + " data at " + ts
                 + ". Export reference ID: " + log.entityId + "."))
      && (!IsBlank(log.entityId) && KindOf(log) == Import ==>
            r == user + ("imported data into " + log.entityType + " at " + ts
                 + ". Import reference ID: " + log.entityId + "."))
  {
    if !IsBlank(log.entityId) {
      if KindOf(log) == Export {
        assert Success(BuildAuditDetails(log, formatDateTime)) == ExportDetails(log, formatDateTime);
      } else {
        assert Success(BuildAuditDetails(log, formatDateTime)) == ImportDetails(log, formatDateTime);
      }
    }
  }

  /** An unrecognised code is echoed upper-cased in a generic sentence. */
  lemma UnrecognizedSentence(log: AuditLog, formatDateTime: int -> string)
    requires KindOf(log) == Unrecognized
    ensures BuildAuditDetails(log, formatDateTime)
      == "User " + UserIdentifier(log.actionBy) + " " + ("performed action '" + ToUpper(log.actionType.code)
         + "' on " + log.entityType + " (ID: " + log.entityId + ") at " + formatDateTime(log.actionAt) + ".")
  {
    assert BuildAuditDetails(log, formatDateTime) == GenericDetails(log, formatDateTime);
  }

  /** Dispatch ignores the case of the code: two codes that upper-case
      alike give the same sentence. */
  lemma DispatchIgnoresCase(log: AuditLog, code: string, formatDateTime: int -> string)
    requires ToUpper(code) == ToUpper(log.actionType.code)
    ensures BuildAuditDetails(log.(actionType := log.actionType.(code := code)), formatDateTime)
         == BuildAuditDetails(log, formatDateTime)
  {
  }

  /** The actor is `action_by` when it is non-empty and "System" otherwise. */
  lemma ActorOfSentence(log: AuditLog, formatDateTime: int -> string)
    requires !MissingReference(log)
    ensures log.actionBy.Some? && log.actionBy.value != "" ==>
      StartsWith(BuildAuditDetails(log, formatDateTime), "User " + log.actionBy.value + " ")
    ensures log.actionBy.None? || log.actionBy.value == "" ==>
      StartsWith(BuildAuditDetails(log, formatDateTime), "User System ")
  {
    var r := BuildAuditDetails(log, formatDateTime);
    var user := UserIdentifier(log.actionBy);
    assert StartsWith(r, "User " + user + " ");
    if log.actionBy.Some? && log.actionBy.value != "" {
      assert user == log.actionBy.value;
    } else {
      assert user == "System";
    }
  }

  /** `buildBriefAuditDetails`: the narrative of a minimal entry with no
      payloads, id and version 0. */
  function BuildBriefAuditDetails(
    entityType: string, entityId: string, actionTypeCode: string,
    actionBy: Option<string>, actionAt: int, ipAddress: Option<string>,
    formatDateTime: int -> string): (r: string)
    ensures var kind := Classify(ToUpper(actionTypeCode));
      (kind == Export || kind == Import) && IsBlank(entityId) ==>
        r == "Audit log entry for " + entityType + " (ID: " + entityId + ")."
    ensures var kind := Classify(ToUpper(actionTypeCode));
      !((kind == Export || kind == Import) && IsBlank(entityId)) ==>
        StartsWith(r, "User " + UserIdentifier(actionBy) + " ")
  {
    var minimal := AuditLog(0, entityType, entityId, ActionType(0, actionTypeCode, None),
      actionBy, actionAt, JNull, JNull, 0, ipAddress, actionAt);
    BuildAuditDetails(minimal, formatDateTime)
  }

  /** Without payloads an UPDATE can only report unknown fields and a CREATE
      lists no initial values. */
  lemma BriefHasNoPayload(
    entityType: string, entityId: string, actionTypeCode: string,
    actionBy: Option<string>, actionAt: int, ipAddress: Option<string>,
    formatDateTime: int -> string)
    ensures var r := BuildBriefAuditDetails(entityType, entityId, actionTypeCode, actionBy, actionAt, ipAddress, formatDateTime);
      var user := UserIdentifier(actionBy);
      var kind := Classify(ToUpper(actionTypeCode));
      && (kind == Update ==>
            r == "User " + user + " " + ("updated the " + entityType + " record (ID: "
                 + entityId + ") at " + formatDateTime(actionAt) + ".") + " " + UnknownFields + ".")
      && (kind == Create ==>
            r == "User " + user + " " + ("created a new " + entityType + " record (ID: "
                 + entityId + ") at " + formatDateTime(actionAt) + "."))
  {
    var minimal := AuditLog(0, entityType, entityId, ActionType(0, actionTypeCode, None),
      actionBy, actionAt, JNull, JNull, 0, ipAddress, actionAt);
    var kind := Classify(ToUpper(actionTypeCode));
    if kind == Update {
      UpdateSentence(minimal, formatDateTime);
    } else if kind == Create {
      CreateSentence(minimal, formatDateTime);
    }
  }
}
