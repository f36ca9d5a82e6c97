# Session table and key search of the NetHSM PKCS#11 backend

This project is a Dafny model of `pkcs11/src/backend/session.rs` in the NetHSM
PKCS#11 provider. That file is the bookkeeping layer behind PKCS#11 session
handles. In the OASIS PKCS#11 v2.40 base specification these are the calls
C_OpenSession, C_CloseSession and C_CloseAllSessions (section 5.6) and
C_FindObjectsInit (section 5.7). The model has three parts.

- **Session manager** (`SessionBackend.SessionManager`). It is a class with a
  map from session handle to `Session` and a counter that starts at 1. The
  ghost set `issued` records every handle ever handed out. The class
  invariant `Valid()` says that every live handle was issued and that every
  issued handle is below the counter. So a handle is never handed out twice,
  even after its session has been closed. Like the Rust `HashMap`, which owns
  its sessions by value, the table owns its sessions: each one is valid, and
  no two handles share a session or an object store.
- **Session and key search** (`SessionBackend.Session`). It is a class with
  the fields of the Rust struct. `EnumInit` refuses a second active search.
  It then parses the filter and resolves it. A key id leads to one fetch by
  id (`FetchKey`). No filter leads to a full fetch (`FetchAllKeys`), which
  clears the store, lists the keys and then fetches each one. The remote key
  service is a value `Remote` passed to each call, made of two oracles:
  `keysGet` and `keysKeyIdGet`. The contracts relate the object store after
  the call to the store before it. The two-state predicate `FoundOne`
  describes a single-key fetch and `Refetched` describes a full fetch.
- **Attribute filter parser** (`AttrFilter`). `FindKeyId` is the scan loop of
  `find_key_id`. It is proved equal to `ScanFilter`, a separate declarative
  definition: if a visited ID or LABEL entry does not decode, the result is
  CKR_ARGUMENTS_BAD; otherwise it is the first ID, or else the last LABEL,
  or else no filter. Lemmas about `ScanFilter` state the properties of the
  parser.

The object store `Db` (the backend's `db` module) is not part of this
model. `ObjectDb.Db` is a small stand-in class. The session layer
relies only on its contracts: `AddObject` files an object under a handle
not in use, `Clear` empties the store, and `Enumerate` lists the handles in
use in the order they were added.

Three behaviours of the code that a reader might not expect, all modelled
as written:
- A later CKA_LABEL replaces an earlier candidate, because line 198 assigns
  on every LABEL (`AttrFilter.LaterLabelOverrides`).
- `fetch_all_keys` never sets `fetched_all_keys` (lines 146-171), so a
  successful full fetch does not mark the cache complete. In the model,
  `EnumInit` may change only `enumCtx` and the object store, so the flag
  stays as it was. The cached branch runs only when outside code has set
  the public field.
- If a full fetch fails partway, the store keeps the objects fetched before
  the failure (`Refetched`).

## Model

| member | source | states |
|---|---|---|
| `AttrFilter.ParseStrFromAttr` | pkcs11/src/backend/session.rs:207-210 | succeeds exactly when the attribute has a value and that value is valid UTF-8, and then yields the decoded text; otherwise it fails with CKR_ARGUMENTS_BAD |
| `AttrFilter.FindKeyId` | pkcs11/src/backend/session.rs:188-205 | the scan loop's result equals the declarative filter: no template gives no filter; otherwise an undecodable ID or LABEL entry reached by the scan gives CKR_ARGUMENTS_BAD, else the first ID's text, else the last LABEL's text, else no filter |
| `AttrFilter.FirstId` | pkcs11/src/backend/session.rs:192-196 | is the index of the first CKA_ID entry (no ID before it, an ID at it), or the template length when there is none |
| `AttrFilter.LastLabel` | pkcs11/src/backend/session.rs:197-199 | is the index of the last CKA_LABEL entry (a LABEL there, none after it), or none when the template has no LABEL |
| `AttrFilter.IdEndsScan` | pkcs11/src/backend/session.rs:193-196 | once a template contains an ID, appending any further entries does not change the result: the scan stops at the first ID |
| `AttrFilter.LaterLabelOverrides` | pkcs11/src/backend/session.rs:197-199 | in a template with no ID that parses, appending a decodable LABEL makes that LABEL's text the result, replacing any earlier LABEL |
| `AttrFilter.IdOverridesEarlierLabels` | pkcs11/src/backend/session.rs:192-201 | an ID that decodes, with no ID before it and only decodable LABELs before it, is the result whatever entries follow it |
| `AttrFilter.UndecodableEntryFails` | pkcs11/src/backend/session.rs:192-199 | an ID or LABEL entry with no ID before it, whose value is missing or not UTF-8, makes the parse fail with CKR_ARGUMENTS_BAD |
| `AttrFilter.OtherKindIgnored` | pkcs11/src/backend/session.rs:192-200 | inserting an entry of any other attribute type anywhere in a template leaves the result unchanged |
| `ObjectDb.Db.constructor` | pkcs11/src/backend/session.rs:100 | a new store is empty |
| `ObjectDb.Db.AddObject` | pkcs11/src/backend/session.rs:182 | the returned handle was not in use; the store gains exactly that entry and it comes last in enumeration order |
| `ObjectDb.Db.Clear` | pkcs11/src/backend/session.rs:155-156 | afterwards the store holds no object |
| `ObjectDb.Db.Enumerate` | pkcs11/src/backend/session.rs:148-152 | lists the handles in use in insertion order, the order `AddObject` extends: every handle in use and only those, each once |
| `SessionBackend.FirstMissing` | pkcs11/src/backend/session.rs:165-169 | is the index of the first listed key id that the service fails to return (every earlier id is returned), or the list length when all are returned |
| `SessionBackend.Resolved` | pkcs11/src/backend/session.rs:165-169 | has one object per listed key id, in list order, each made from that id's record |
| `SessionBackend.Session.constructor` | pkcs11/src/backend/session.rs:93-107 | a new session keeps its slot id, slot and flags, is in state CKS_RO_PUBLIC_SESSION with device error CKR_OK, is not marked complete, has no sign, encrypt, decrypt or search context, and has an empty, fresh object store |
| `SessionBackend.Session.GetCkInfo` | pkcs11/src/backend/session.rs:108-115 | the session-info record reports the session's slot id, state, flags and last device error; a search set up by `EnumInit` (and by `FindObjectsInitOn` on the looked-up session) leaves this record unchanged |
| `SessionBackend.Session.FetchKey` | pkcs11/src/backend/session.rs:173-185 | if the service does not return the key, the result is CKR_DEVICE_ERROR and the store is untouched; otherwise the object made from the record is filed under a new handle, exactly one entry is added, and that handle and object are returned |
| `SessionBackend.Session.FetchAllKeys` | pkcs11/src/backend/session.rs:146-171 | when marked complete, it returns the store's handles in enumeration order and changes nothing. Otherwise the store is cleared first. A failed listing gives CKR_DEVICE_ERROR with an empty store. Otherwise the store holds, in list order, the objects of the listed keys up to the first key the service fails to return. Success, with one handle per listed key in list order, happens exactly when no key fails, else CKR_DEVICE_ERROR. The completeness flag is never set |
| `SessionBackend.Session.FindKey` | pkcs11/src/backend/session.rs:136-144 | a key id gives the single-key fetch, with its sole handle as the result; no key id gives the full fetch |
| `SessionBackend.Session.EnumInit` | pkcs11/src/backend/session.rs:117-135 | with a search already active, the result is CKR_OPERATION_ACTIVE and nothing changes. Otherwise a context is stored exactly when the result is CKR_OK. A parse error is returned with the store untouched. A key filter stores exactly the one new handle, or gives CKR_DEVICE_ERROR with no context and no store change. No filter gives the full-fetch outcome. The session-info record, the completeness flag and the other contexts are unchanged; only the search context and the object store may change (all as the two-state predicate `SearchStarted`) |
| `SessionBackend.SessionManager.constructor` | pkcs11/src/backend/session.rs:28-33 | no sessions, nothing issued, and the counter at 1 |
| `SessionBackend.SessionManager.CreateSession` | pkcs11/src/backend/session.rs:35-47 | returns the counter's old value, which was never issued before and is larger than every live handle. The counter goes up by exactly one. The map gains exactly that entry, a fresh new session on the given slot and flags, and no other entry changes. The invariant is kept |
| `SessionBackend.SessionManager.GetSession` | pkcs11/src/backend/session.rs:49-55 | yields the session stored under the handle, or none exactly when no session is stored under it |
| `SessionBackend.SessionManager.DeleteSession` | pkcs11/src/backend/session.rs:57-62 | returns the handle and its session exactly when the handle was present. Only that key is removed, and a later lookup of it yields none. The counter and the issued handles are unchanged |
| `SessionBackend.SessionManager.DeleteAllSlotSessions` | pkcs11/src/backend/session.rs:64-74 | afterwards no session of the slot remains. Every session of another slot is still present and unchanged, and no entry is added. The counter is untouched |
| `SessionBackend.FindObjectsInitOn` | pkcs11/src/backend/session.rs:53-135 | composes `get_session_mut` (lines 53-55) with `enum_init` (lines 117-135): an unknown handle gives none. On a known handle the looked-up session ends exactly as `EnumInit` leaves it (`SearchStarted`): an active search is kept and answered with CKR_OPERATION_ACTIVE, CKR_OK exactly when a context is stored, and its state, flags, device error and completeness flag unchanged. The table stays valid and no other session or object store changes |
| `SessionBackend.ReopenGetsNewHandle` | pkcs11/src/backend/session.rs:35-62 | a session opened after another one was closed gets a strictly larger handle, and the closed handle stays invalid |

## Left out

- The HTTP calls `default_api::keys_get` and `keys_key_id_get` (lines 158 and 175), with their transport, authentication and error types. They are the oracles of `Remote`, and any failure is `None`. A key summary is reduced to its key id. `keysKeyIdGet` is one fixed function for a whole call, so within one full fetch two fetches of the same id (a listing with duplicates) give the same answer, and a transient failure between them is not modelled. The service a session talks to is chosen by its slot's API configuration (lines 158 and 175); the model does not tie `Remote` to `Session.slot`, so one `Remote` may serve sessions on different slots. Every contract holds for every `Remote`.
- The `error!` logging on remote failures (lines 159 and 176). It has no effect on state.
- The internals of `Db`, `Object::from_key_data` and the raw attribute template types, whose sources are not part of this model. `ObjectDb.Db` is a stand-in that meets only the contracts listed above. An object is reduced to its key id and opaque record bytes. A template entry is reduced to its attribute type and optional value bytes.
- `ObjectDb.Db.Enumerate`: the store is assumed to enumerate its handles in insertion order, because the source of `Db` is not part of this model.
- The UTF-8 validation of `String::from_utf8`. It is the parameter `decode`, about which nothing is assumed.
- The contents of the slot configuration and the numeric encoding of CK_RV, CK_STATE and the attribute type codes. The return codes and session states are tagged datatypes.
- The 64-bit width of CK_SESSION_HANDLE and CK_OBJECT_HANDLE. Handles are unbounded naturals, so counter exhaustion is not modelled.
- The sign, encrypt and decrypt contexts. They are empty records here and appear only as independent optional fields.
- Reassigning the public fields `slot_id` and `db` from outside this file. Nothing in the core does this, so both are `const` in the model.
- Locking and concurrency. The file does not implement any; calls run one at a time.
- The HashMap's iteration order in `delete_all_slot_sessions`. The model picks handles in an arbitrary order, and the result does not depend on that order.
