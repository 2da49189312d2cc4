# Agila audit record engine in Dafny

This project models the core of the Agila audit-trail service in Dafny and proves properties about that model. The core has four parts:

- **Narrative synthesiser** (`backend/src/utils/auditDetails.util.ts`). It turns one stored audit entry into one English sentence. The sentence depends on the entry's upper-cased action-type code:
  - CREATE lists the initial field names;
  - UPDATE lists a field-by-field change list;
  - EXPORT and IMPORT quote a reference id;
  - LOGIN and LOGOUT mention an IP address;
  - any other code gets a generic sentence.

  A builder that throws is answered with a fallback sentence.
- **Audit record store** (`dist/services/auditLogs.service.js`). It covers:
  - per-entity version numbering;
  - creation against the action-type catalog;
  - the role-based access filter;
  - the filtered, paginated listing;
  - lookup by id, entity history, deletion, statistics and search.
- **Dedup gate** (`dist/services/dedup.service.js`). It is a table of processed event ids, each kept for seven days. It has an existence check, a mark operation and an expiry sweep. Every store failure is swallowed.
- **API-key registry** (`backend/src/services/apiKeys.service.ts`). It has create, validate, revoke, delete, get-by-id and list operations over hashed keys.

The database becomes an immutable value:
- the `Store` of the audit service (catalog, rows and the next id);
- the `DedupTable`;
- the API-key `Registry`.

Each service call is a pure function from the old value to a result and, for writes, the new value. Other inputs are handled as follows:
- Clock readings (`now`) are parameters.
- The locale date formatter (`formatDateTime`) is a function parameter.
- The key hash is a function parameter. The generated raw key is a plain argument.
- Store failures are boolean flags.
- Errors are `Failure` values of a `Result`:
  - an unknown action-type code, which the service itself reports (`Invalid action type code: <code>`) when the catalog lookup finds nothing;
  - errors the database raises:
    - deleting or updating an id that is not stored;
    - a duplicate key hash;
    - a negative `skip` (a negative `take` is legal and counts back from the end of the order).

JSON payloads are a `Json` datatype. `JSON.stringify` is modelled and proved injective, so "serialises the same" is the same as "is equal".

The files are:
- `results.dfy`: `Option` and `Result`.
- `seqs.dfy`: filter, dedup (JavaScript `Set` order), sort, window and tally.
- `text.dfy`: ASCII case mapping, trim, substring, join and decimal rendering.
- `json.dfy`: the value model, `Object.keys`, property reads, `JSON.stringify` and `formatValue`.
- `json_parse.dfy`: a reader for the serialised text and the round-trip proof.
- `records.dfy`: `ActionType` and `AuditLog`.
- `audit_details.dfy`, `audit_logs.dfy`, `dedup.dfy` and `api_keys.dfy`: the four services.

In these places the model follows the code as written:
- `createAuditLog` never stores a caller-supplied `action_at` or IP address. Both come from the database (now, and NULL).
- A caller-supplied `action_by` filter replaces the access filter instead of being combined with it (`...accessFilter` is spread first, `action_by` after it).
- No date-range validation error exists.
- `isDuplicate` ignores `expiresAt`. An expired record that has not been swept still counts as a duplicate.

The UPDATE change list separates old and new values with the three characters U+00E2 U+2020 U+2019. Those are the characters that stand in the source file, a double-encoded right arrow. The model keeps them as written.

## Model

| member | source | states |
|---|---|---|
| AuditDetails.BuildAuditDetails | backend/src/utils/auditDetails.util.ts:261-304 | Total on every entry. An EXPORT or IMPORT entry whose entity id is blank (empty or whitespace only) gets exactly `Audit log entry for <T> (ID: <id>).`. Every other entry's sentence opens with `User <actor> `. |
| AuditDetails.Dispatch | backend/src/utils/auditDetails.util.ts:262-298 | The switch over the upper-cased code fails (the builder throws) exactly for EXPORT/IMPORT with a blank reference id. Every successful sentence opens with the actor. |
| AuditDetails.UserIdentifier | backend/src/utils/auditDetails.util.ts:28-30 | The actor is never empty. A given non-empty `action_by` is the actor. Any actor other than `System` is the caller's own `action_by`. |
| AuditDetails.ActorOfSentence | backend/src/utils/auditDetails.util.ts:28-30 | In every branch the actor is `action_by` when it is present and non-empty, and `System` otherwise. |
| AuditDetails.DispatchIgnoresCase | backend/src/utils/auditDetails.util.ts:262 | Two codes that upper-case alike give the same sentence. |
| AuditDetails.FieldChangesExact | backend/src/utils/auditDetails.util.ts:46-65 | A field of the union of both key lists is reported iff its two property reads differ. `undefined` and `null` differ, and equality is deep via the stringify comparison. Each entry carries both reads, and no field appears twice. |
| AuditDetails.FieldOrder | backend/src/utils/auditDetails.util.ts:46-51 | For values without repeated keys, fields are visited as the previous value's keys, then the keys only the new value has. The change list follows that order. |
| Json.ArrayKeysDistinct | backend/src/utils/auditDetails.util.ts:46-47 | `Object.keys` of an array, its decimal indices, never repeats a key, so arrays meet the precondition of the field ordering. |
| AuditDetails.ArrayLengthIsRead | backend/src/utils/auditDetails.util.ts:52-58 | An array answers its own `length` property: against an object whose `length` member holds the array's size, that field is visited but not reported as a change. |
| AuditDetails.BuildFieldChanges | backend/src/utils/auditDetails.util.ts:36-68 | `unknown fields` exactly when either side is not an object or array. `no changes detected` exactly when both are and no field is reported. |
| AuditDetails.BuildFieldChangesCases | backend/src/utils/auditDetails.util.ts:36-68 | Returns `unknown fields` iff either side is not an object or array. Returns `no changes detected` iff both are and they agree on every key. Otherwise returns the rendered changes joined by `; `. |
| AuditDetails.NoChangeIffAgree | backend/src/utils/auditDetails.util.ts:51-67 | The change list is empty exactly when the two values agree on every key of either. |
| AuditDetails.ListIsNotPhrase | backend/src/utils/auditDetails.util.ts:134-138 | A non-empty change list can never equal either fixed phrase, so the UPDATE builder's string test tells the three outcomes apart. |
| AuditDetails.NullVersusMissing | backend/src/utils/auditDetails.util.ts:52-64 | A key that is `null` on one side and missing on the other is reported, as `k: null <arrow> null`. |
| Json.FormatValue | backend/src/utils/auditDetails.util.ts:73-95 | `null`/`undefined` give `null`. A string is quoted without escaping. Every other value is rendered as its `JSON.stringify` text. |
| JsonParse.SameSerializationIsEquality | backend/src/utils/auditDetails.util.ts:56 | Comparing two property reads by `JSON.stringify` is the same as comparing the values, with `undefined` equal only to itself. |
| JsonParse.ValueRoundTrip | backend/src/utils/auditDetails.util.ts:56 | Reading back the serialisation of any value, followed by a terminator, gives the value and the rest of the text. |
| AuditDetails.CreateSentence | backend/src/utils/auditDetails.util.ts:100-117 | The CREATE sentence, with ` Initial values were set for: <keys joined by ", ">.` exactly when the new value has at least one key. |
| AuditDetails.UpdateSentence | backend/src/utils/auditDetails.util.ts:122-141 | The UPDATE sentence has three cases: ` unknown fields.`, ` no changes detected.`, or `\n\nChanges:\n` followed by the change list. |
| AuditDetails.RecordSentence | backend/src/utils/auditDetails.util.ts:146-177 | The DELETE, ARCHIVE and UNARCHIVE sentences, which differ only in the verb. |
| AuditDetails.ReferenceSentence | backend/src/utils/auditDetails.util.ts:183-213 | EXPORT and IMPORT quote the entity id as reference. A blank id gives the fallback sentence. |
| AuditDetails.ExportDetails | backend/src/utils/auditDetails.util.ts:183-195 | Throws exactly when the reference id is blank. Otherwise the sentence opens with the actor. |
| AuditDetails.ImportDetails | backend/src/utils/auditDetails.util.ts:201-213 | Throws exactly when the reference id is blank. Otherwise the sentence opens with the actor. |
| AuditDetails.SessionSentence | backend/src/utils/auditDetails.util.ts:218-251 | LOGIN and LOGOUT add ` from IP address <ip>` only for a non-empty address, and always end with a full stop. |
| AuditDetails.UnrecognizedSentence | backend/src/utils/auditDetails.util.ts:293-297 | Any other code is echoed upper-cased in the generic sentence. |
| AuditDetails.BuildBriefAuditDetails | backend/src/utils/auditDetails.util.ts:310-337 | The brief narrative is the fallback sentence for EXPORT/IMPORT with a blank id, and otherwise opens with `User <actor> `. |
| AuditDetails.BriefHasNoPayload | backend/src/utils/auditDetails.util.ts:310-337 | With no payloads, a brief UPDATE can only report unknown fields, and a brief CREATE lists no initial values. |
| Text.BlankIffAllWhitespace | backend/src/utils/auditDetails.util.ts:190 | `s.trim() === ''` holds exactly when every character is whitespace. |
| AuditLogs.NextVersion | dist/services/auditLogs.service.js:14-28 | 1 for a pair never seen. Otherwise greater than every version of the pair and exactly one more than the highest. |
| AuditLogs.FindActionType | dist/services/auditLogs.service.js:29-38 | Finds a catalog entry iff one has the upper-cased code. |
| AuditLogs.CreateAuditLog | dist/services/auditLogs.service.js:39-63 | Fails with `Invalid action type code: <code>` iff the code is unknown. Otherwise it appends exactly one row. The row gets the next id, the resolved type, the next version of its pair, `action_at = created_at = now` and no IP address. `action_by` is stored only when non-empty. Each payload is stored as `StoredPayload` keeps it: NULL when falsy or omitted, as given otherwise. |
| AuditLogs.StoredPayload | dist/services/auditLogs.service.js:48-49 | The stored payload is either NULL or the caller's own truthy payload. An object or array is always kept unchanged. A falsy or omitted payload (`false`, `0`, `""`, `null`) becomes NULL. |
| AuditLogs.CreateKeepsIdsFresh | dist/services/auditLogs.service.js:42-51 | After a successful create, ids stay unique and below the next id. |
| AuditLogs.CreateKeepsVersionsSequential | dist/services/auditLogs.service.js:39-51 | If a pair's rows carry versions 1, 2, …, n, they still do after any successful create. |
| AuditLogs.BuildAccessFilter | dist/services/auditLogs.service.js:64-89 | No constraint exactly for the role `SuperAdmin`. A department prefix (one of FIN, HR, INV, OPS) exactly for a department admin. Otherwise the caller's own id. |
| AuditLogs.AccessFilterCases | dist/services/auditLogs.service.js:64-89 | SuperAdmin sees every row. An admin of finance, hr, inventory or operations sees the rows whose actor starts with FIN, HR, INV or OPS. Everyone else sees only rows with their own id. A row without actor is visible only to SuperAdmin. |
| AuditLogs.AdminMarkerIsCaseSensitive | dist/services/auditLogs.service.js:66-88 | The role `finance admin` sees exactly the rows with its own id, because the `Admin` test is case-sensitive. |
| AuditLogs.LowerCaseRoleSeesOwnRows | dist/services/auditLogs.service.js:66-88 | A role without a capital `A` (for example `finance admin`) is treated as a plain user. |
| AuditLogs.BuildWhere | dist/services/auditLogs.service.js:93-124 | The spread order: a given `action_by` replaces the access constraint. An absent or empty `entity_type` or `entity_id` imposes no condition, and a given one must match exactly. The action-type condition is the resolved id. The lower date bound is `dateFrom` and the upper is the last millisecond of `dateTo`. |
| AuditLogs.ListingRespectsAccess | dist/services/auditLogs.service.js:93-97 | Without an `action_by` filter every matching row is visible to the caller. With one, only that actor's rows match, whatever the role. |
| AuditLogs.DateBoundsInclusive | dist/services/auditLogs.service.js:98-116 | Both bounds are inclusive, and a millisecond outside either bound is excluded. |
| AuditLogs.NewestPage | dist/services/auditLogs.service.js:130-135 | The window for a non-negative `take` of the rows sorted newest first: at most `take` rows, the exact count, in order, each from the input. |
| AuditLogs.NewestTail | dist/services/auditLogs.service.js:134-135 | The window for a negative `take` of `-n`: at most `n` rows, the exact count, ending `skip` rows before the end of the newest-first order, still newest first, each from the input. |
| AuditLogs.TailMeetsPage | dist/services/auditLogs.service.js:134-135 | Counting `n` rows back from the end gives the same rows as the forward page that skips all the others. |
| AuditLogs.TypeCondition | dist/services/auditLogs.service.js:118-129 | No code means no type condition, a known code its id, an unknown code no page at all. |
| AuditLogs.GetAuditLogs | dist/services/auditLogs.service.js:90-152 | An unknown code gives an empty page with total 0. A negative skip is refused. Otherwise `total` counts every matching row, and `logs` is the requested window of them, newest first. A non-negative limit counts forward, and a negative limit counts back from the end. Page and limit are echoed with defaults 1 and 10. |
| AuditLogs.GetAuditLogById | dist/services/auditLogs.service.js:153-171 | Returns a row iff a row with that id is visible to the caller. |
| AuditLogs.CreateThenGet | dist/services/auditLogs.service.js:39-63 | A created row that the caller may see reads back unchanged, both by id and in its pair's history. Its payloads are the caller's own when truthy. A falsy or omitted new payload (`false`, `0`, `""`, `null`) reads back as NULL, so only truthy payloads come back identical. |
| AuditLogs.HiddenLooksAbsent | dist/services/auditLogs.service.js:153-170 | A stored row the caller may not see reads exactly like a missing id. |
| AuditLogs.GetEntityHistory | dist/services/auditLogs.service.js:172-194 | Exactly the visible rows of the pair, as a permutation, ordered by ascending version. |
| AuditLogs.DeleteAuditLog | dist/services/auditLogs.service.js:195-199 | Fails iff no row has the id. Otherwise it removes that id and keeps every other row. |
| AuditLogs.DeleteKeepsIdsFresh | dist/services/auditLogs.service.js:195-199 | After a delete, ids stay unique and below the next id. |
| AuditLogs.EntityBreakdown | dist/services/auditLogs.service.js:211-222 | Exactly one group per entity type present, each counting exactly its rows, ordered by count descending. |
| AuditLogs.ActionBreakdown | dist/services/auditLogs.service.js:204-250 | As many groups as distinct action-type ids present. Every id present is covered, and each group counts exactly the rows of one id, resolved against the catalog. |
| AuditLogs.GetAuditLogStats | dist/services/auditLogs.service.js:200-256 | The total and both breakdowns range over the visible rows. Recent activity counts the visible rows of the last 24 hours and never exceeds the total. |
| AuditLogs.SearchAuditLogs | dist/services/auditLogs.service.js:257-286 | A negative skip is refused. Otherwise it returns the total of matching visible rows and the requested window newest first, counted back from the end for a negative limit. Every returned row is visible and matches. |
| AuditLogs.SearchIgnoresCase | dist/services/auditLogs.service.js:261-265 | The search term matches regardless of letter case. |
| Dedup.IsDuplicate | dist/services/dedup.service.js:5-22 | False for an absent or empty id and when the lookup fails. Otherwise true iff a record with that id exists, whatever its source or expiry. |
| Dedup.MarkAsProcessed | dist/services/dedup.service.js:23-41 | Nothing changes for an empty id, a failing create or an id already present. Otherwise it appends `(id, source, now + 7 days)`. |
| Dedup.MarkThenDuplicate | dist/services/dedup.service.js:5-58 | After a successful mark the id is a duplicate. Its record survives sweeps up to its expiry instant. After any later sweep the record is gone, and the id is no longer a duplicate. |
| Dedup.MarkTwiceKeepsFirst | dist/services/dedup.service.js:38-40 | A second mark of the same id violates the unique key and is swallowed, so the first record stays. |
| Dedup.CleanupExpired | dist/services/dedup.service.js:42-58 | Removes exactly the records with `expiresAt < now` (strictly before) and keeps all others. It returns the number removed. A failing delete returns 0 and changes nothing. |
| Dedup.PartsAddUp | dist/services/dedup.service.js:44-52 | Expired and live records together are the whole table, so the returned count is the size difference. |
| Dedup.MarkKeepsUnique | dist/services/dedup.service.js:23-41 | Marking keeps event ids unique. |
| Dedup.SweepKeepsUnique | dist/services/dedup.service.js:44-50 | A sweep keeps event ids unique. |
| ApiKeys.CreateApiKey | backend/src/services/apiKeys.service.ts:12-35 | The stored row holds the hash of the raw key, never the key. Both permissions default to true and the key starts active. The raw key is handed back once. A hash already stored is a failure. |
| ApiKeys.CreateThenValidate | backend/src/services/apiKeys.service.ts:17-28 | A fresh key validates with the permissions it was created with. With an injective hash, no other raw key validates as it. |
| ApiKeys.ValidateApiKey | backend/src/services/apiKeys.service.ts:40-85 | Four outcomes: `Validation failed` on a failing lookup, `API key not found` when no stored hash matches, `API key has been revoked` for an inactive key, and otherwise the key's id, service and permissions. |
| ApiKeys.ValidateStoredKey | backend/src/services/apiKeys.service.ts:44-77 | With unique hashes, validation answers for the key stored under the raw key's hash. |
| ApiKeys.RevokeApiKey | backend/src/services/apiKeys.service.ts:109-116 | Fails iff the id is not stored. Otherwise it clears `isActive` on that key, and every other field and key stays the same. |
| ApiKeys.RevokeThenValidate | backend/src/services/apiKeys.service.ts:62-67 | A revoked key is reported as revoked, not as missing. |
| ApiKeys.RevokeThenGet | backend/src/services/apiKeys.service.ts:109-144 | After a revoke, reading the key by id shows the same key, now inactive. |
| ApiKeys.DeleteApiKey | backend/src/services/apiKeys.service.ts:121-125 | Fails iff the id is not stored. Otherwise it removes that id only, and the table shrinks. |
| ApiKeys.DeleteKeepsValid | backend/src/services/apiKeys.service.ts:121-125 | After a delete, ids and hashes stay unique. |
| ApiKeys.DeleteThenValidate | backend/src/services/apiKeys.service.ts:121-125 | After a delete, validating the deleted key's raw key reports `API key not found`. |
| ApiKeys.GetApiKeyById | backend/src/services/apiKeys.service.ts:130-144 | The stored key with that id without its hash, or nothing iff no key has it. |
| ApiKeys.ListApiKeys | backend/src/services/apiKeys.service.ts:90-104 | Every key once (as a permutation), without hashes, newest first. |
| ApiKeys.ListedAsFetched | backend/src/services/apiKeys.service.ts:90-144 | The list and the single read agree: an id is listed iff it can be fetched, and as the same view. |

## Left out

- Persistence, network, HTTP glue and the API-key middleware (which currently lets every request through) are not modelled. The services run over in-memory values.
- Concurrency is not modelled. Two writers reading the same highest version can assign the same version, and two marks of one event can race. Calls are modelled one at a time.
- Console logging is not modelled.
- Dates are not parsed. A date filter is the day's start in milliseconds, and `formatDateTime` (`Intl.DateTimeFormat`) is an arbitrary function parameter. An invalid date, which would make the formatter throw inside the `try` and yield the fallback sentence, is not modelled.
- Dedup.MarkAsProcessed: the seven-day expiry is a fixed 7 × 86 400 000 ms. `setDate(+7)` in local time can differ by an hour across a daylight-saving change.
- Dedup.IsDuplicate: the `sourceService` argument is omitted, because the source ignores it.
- Case mapping (`toUpperCase`, `toLowerCase`, `mode: 'insensitive'`) covers ASCII letters only.
- `sortBy`/`sortOrder` columns other than the default `action_at` descending are not modelled.
- Ties in sorting keep table order (a stable sort), and group order is first occurrence. The database leaves both unspecified.
- `contains` and `startsWith` are plain substring and prefix tests. SQL `LIKE` wildcards in the data are not modelled.
- A negative `skip` is a `Failure`. The database's exact error text is not modelled.
- AuditLogs.NewestTail: a negative `take` is modelled as the database's documented backward pagination, with the rows returned in the requested order. The database's exact behaviour at the edges is not part of this model.
- JavaScript quirks with no counterpart in the value model are not modelled:
  - non-integer numbers, NaN and `undefined` nested inside payloads;
  - inherited properties such as a role named `constructor …` that reads `deptCodes.constructor`;
  - the reordering `Object.keys` applies to integer-like keys.
- AuditDetails.Dispatch: `entity_id` is always a string. A JavaScript `null` reference id is represented by the empty string, which takes the same fallback path. The fallback then reads `(ID: )` where JavaScript prints `(ID: null)`.
- Json.FormatValue: numbers are integers printed digit by digit. `String(n)` and `JSON.stringify` switch to exponent form from 1e21 (`1e+21`) and lose precision beyond 2^53. Neither is modelled.
- AuditDetails.FieldChangesExact: property reads cover only own keys and an array's `length`. Inherited members are not modelled, and they differ from the model in two ways.
  - A key such as `constructor` that one side lacks reads an inherited function there. `JSON.stringify` gives `undefined` for it, so it is still compared as missing. But `formatValue` prints it with `String(value)`, as `function Object() { [native code] }`, where the model prints `null`.
  - An own `__proto__` key on one side is compared against the other side's prototype, which serialises as `{}`. So `{"__proto__": {}}` against `{}` is "no changes detected" in JavaScript, but the model reports a change.
- `updatedAt` of the API-key table is not modelled.
- The key generator (`generateApiKey`) and `hashValue` are not part of this model. The raw key is an argument and the hash an arbitrary function. Injectivity is assumed only where a property needs it.
- Seed scripts are not modelled. The action-type seed lacks ARCHIVE and UNARCHIVE, which then fail creation as unknown codes.
