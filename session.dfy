/** The session table and the per-session key search of the PKCS#11 backend
    (pkcs11/src/backend/session.rs): handle allocation for C_OpenSession,
    C_CloseSession and C_CloseAllSessions, and the search set up by
    C_FindObjectsInit, which resolves a filter against a remote key service
    and caches the keys it fetches in the session's object store. */
module SessionBackend {
  import opened Types
  import opened AttrFilter
  import opened ObjectDb

  /** CK_SESSION_HANDLE, CK_SLOT_ID and CK_FLAGS (their 64-bit width and
      counter exhaustion are not modelled). */
  type SessionHandle = nat
  type SlotId = nat
  type Flags = nat

  /** The slot configuration a session is opened on; this layer only passes
      it on to the remote service. */
  datatype Slot = Slot(apiConfig: string)

  /** CK_STATE: the session states of PKCS#11. */
  datatype SessionState =
    | RoPublicSession | RoUserFunctions | RwPublicSession | RwUserFunctions | RwSoFunctions

  /** CK_SESSION_INFO. */
  datatype SessionInfo = SessionInfo(slotId: SlotId, state: SessionState, flags: Flags, deviceError: Rv)

  /** The sign, encrypt and decrypt contexts carry no data in this layer. */
  datatype SignCtx = SignCtx
  datatype EncryptCtx = EncryptCtx
  datatype DecryptCtx = DecryptCtx

  /** The result of C_FindObjectsInit: the object handles found. */
  datatype EnumCtx = EnumCtx(handles: seq<ObjectHandle>)

  /** The remote key service as seen at the time of a call: the answer of
      "list keys" (the key ids, or None for any failure) and of "get key by
      id" (the key's record, or None for any failure). */
  datatype Remote = Remote(keysGet: Option<seq<string>>, keysKeyIdGet: string -> Option<KeyData>)

  predicate Resolves(remote: Remote, id: string) {
    remote.keysKeyIdGet(id).Some?
  }

  /** Index of the first listed id the service fails to return, or |ks|. */
  function FirstMissing(remote: Remote, ks: seq<string>): (k: nat)
    ensures k <= |ks|
    ensures forall j :: 0 <= j < k ==> Resolves(remote, ks[j])
    ensures k < |ks| ==> !Resolves(remote, ks[k])
  {
    if ks == [] then 0
    else if !Resolves(remote, ks[0]) then 0
    else 1 + FirstMissing(remote, ks[1..])
  }

  /** The cached object the service's record for `id` becomes. */
  function Fetched(remote: Remote, id: string): Object
    requires Resolves(remote, id)
  {
    FromKeyData(remote.keysKeyIdGet(id).value, id)
  }

  /** The objects made from the records of the ids ks, in the same order. */
  function Resolved(remote: Remote, ks: seq<string>): (os: seq<Object>)
    requires forall j :: 0 <= j < |ks| ==> Resolves(remote, ks[j])
    ensures |os| == |ks|
    ensures forall j :: 0 <= j < |ks| ==> os[j] == Fetched(remote, ks[j])
  {
    seq(|ks|, j requires 0 <= j < |ks| && Resolves(remote, ks[j]) => Fetched(remote, ks[j]))
  }

  /** Fetching one more listed key appends its object. */
  lemma ResolvedSnoc(remote: Remote, ks: seq<string>, i: nat)
    requires i < |ks|
    requires forall j :: 0 <= j <= i ==> Resolves(remote, ks[j])
    ensures Resolved(remote, ks[..i + 1]) == Resolved(remote, ks[..i]) + [Fetched(remote, ks[i])]
  {
  }

  class Session {
    const slotId: SlotId
    const slot: Slot
    var flags: Flags
    var state: SessionState
    var deviceError: Rv
    /** Whether the object store is taken to hold the full remote inventory. */
    var fetchedAllKeys: bool
    const db: Db
    var signCtx: Option<SignCtx>
    var encryptCtx: Option<EncryptCtx>
    var decryptCtx: Option<DecryptCtx>
    var enumCtx: Option<EnumCtx>

    ghost predicate Valid()
      reads this, db
    {
      db.Valid()
    }

    /** The state of a newly opened session. */
    ghost predicate IsNew()
      reads this, db
    {
      && state == RoPublicSession
      && !fetchedAllKeys
      && deviceError == Ok
      && signCtx.None? && encryptCtx.None? && decryptCtx.None? && enumCtx.None?
      && db.objects == map[]
    }

    /** `Session::new`. */
    constructor (slotId: SlotId, slot: Slot, flags: Flags)
      ensures Valid() && fresh(db)
      ensures this.slotId == slotId && this.slot == slot && this.flags == flags
      ensures IsNew()
    {
      this.slot := slot;
      this.slotId := slotId;
      this.flags := flags;
      state := RoPublicSession;
      fetchedAllKeys := false;
      db := new Db();
      deviceError := Ok;
      signCtx := None;
      encryptCtx := None;
      decryptCtx := None;
      enumCtx := None;
    }

    /** `get_ck_info`: the session-info record reports the session's slot,
        state, flags and last device error. */
    function GetCkInfo(): (info: SessionInfo)
      reads this
      ensures info.slotId == slotId && info.state == state
      ensures info.flags == flags && info.deviceError == deviceError
    {
      SessionInfo(slotId, state, flags, deviceError)
    }

    // -------------------------------------------------------------------
    // Outcomes of the fetch operations, as relations between the store
    // before and after

    /** The single-key fetch of `id` either failed with CKR_DEVICE_ERROR and
        left the store alone, or filed exactly one new object for it, whose
        handle is the sole result. */
    twostate predicate FoundOne(new r: Result<seq<ObjectHandle>>, remote: Remote, id: string)
      reads db
    {
      if Resolves(remote, id) then
        && r.Success? && |r.value| == 1
        && db.Added(r.value[0], Fetched(remote, id))
      else
        r == Failure(DeviceError) && unchanged(db)
    }

    /** A full fetch that cleared the store: if listing fails the store stays
        empty; otherwise the store holds, in list order, the objects of the
        listed keys up to the first one the service fails to return; the
        call succeeds with the store's handles exactly when no key failed. */
    ghost predicate Refetched(r: Result<seq<ObjectHandle>>, remote: Remote)
      reads db
      requires db.Valid()
    {
      match remote.keysGet
      case None => r == Failure(DeviceError) && db.objects == map[]
      case Some(ks) =>
        var k := FirstMissing(remote, ks);
        && db.Listing() == Resolved(remote, ks[..k])
        && if k == |ks| then r == Success(db.Enumerate()) else r == Failure(DeviceError)
    }

    // -------------------------------------------------------------------
    // The search engine

    /** `fetch_key`: get one key from the remote service and cache it under a
        new handle. */
    method FetchKey(remote: Remote, keyId: string) returns (r: Result<(ObjectHandle, Object)>)
      requires Valid()
      modifies db
      ensures Valid()
      ensures !Resolves(remote, keyId) ==> r == Failure(DeviceError) && unchanged(db)
      ensures Resolves(remote, keyId) ==>
                && r.Success?
                && r.value.1 == Fetched(remote, keyId)
                && db.Added(r.value.0, r.value.1)
    {
      var keyData := remote.keysKeyIdGet(keyId);
      if keyData.None? {
        return Failure(DeviceError);
      }
      var obj := FromKeyData(keyData.value, keyId);
      assert obj == Fetched(remote, keyId);
      var handle := db.AddObject(obj);
      return Success((handle, obj));
    }

    /** `fetch_all_keys`: reuse the cache when it is marked complete;
        otherwise clear it and fetch every listed key into it. The
        completeness flag is never set here. */
    method FetchAllKeys(remote: Remote) returns (r: Result<seq<ObjectHandle>>)
      requires Valid()
      modifies db
      ensures Valid()
      ensures fetchedAllKeys ==> r == Success(old(db.Enumerate())) && unchanged(db)
      ensures !fetchedAllKeys ==> Refetched(r, remote)
    {
      if fetchedAllKeys {
        return Success(db.Enumerate());
      }
      // clear first, so that no key is cached twice
      db.Clear();
      var keys := remote.keysGet;
      if keys.None? {
        return Failure(DeviceError);
      }
      var ks := keys.value;
      var handles: seq<ObjectHandle> := [];
      for i := 0 to |ks|
        invariant i <= FirstMissing(remote, ks)
        invariant db.Valid()
        invariant handles == db.order
        invariant db.Listing() == Resolved(remote, ks[..i])
      {
        var fetched := FetchKey(remote, ks[i]);
        if fetched.Failure? {
          assert FirstMissing(remote, ks) == i;
          return Failure(fetched.error);
        }
        ResolvedSnoc(remote, ks, i);
        handles := handles + [fetched.value.0];
      }
      assert ks[..|ks|] == ks;
      assert db.Enumerate() == handles;
      return Success(handles);
    }

    /** `find_key`: a key id selects a single-key fetch, no key id a full fetch. */
    method FindKey(keyId: Option<string>, remote: Remote) returns (r: Result<seq<ObjectHandle>>)
      requires Valid()
      modifies db
      ensures Valid()
      ensures keyId.Some? ==> FoundOne(r, remote, keyId.value)
      ensures keyId.None? && fetchedAllKeys ==> r == Success(old(db.Enumerate())) && unchanged(db)
      ensures keyId.None? && !fetchedAllKeys ==> Refetched(r, remote)
    {
      match keyId {
        case Some(id) =>
          var fetched := FetchKey(remote, id);
          if fetched.Failure? {
            return Failure(fetched.error);
          }
          return Success([fetched.value.0]);
        case None =>
          r := FetchAllKeys(remote);
      }
    }

    /** The search result an `EnumInit` call left behind, as a Result. */
    function Outcome(rv: Rv): Result<seq<ObjectHandle>>
      reads this
    {
      if enumCtx.Some? then Success(enumCtx.value.handles) else Failure(rv)
    }

    /** What a call of `enum_init` leaves behind. With a search already
        active it answers CKR_OPERATION_ACTIVE and changes nothing. Otherwise
        a search context is stored exactly when the answer is CKR_OK: a parse
        error is returned with the store untouched, a key filter gives the
        single-key fetch, and no filter gives the cached or the full-fetch
        outcome. Either way the session-info record, the completeness flag
        and the other contexts are as before. */
    twostate predicate SearchStarted(rv: Rv, template: Option<seq<Attr>>, decode: Utf8Decoder, remote: Remote)
      reads this, db
    {
      && old(Valid()) && Valid()
      && GetCkInfo() == old(GetCkInfo())
      && fetchedAllKeys == old(fetchedAllKeys)
      && signCtx == old(signCtx) && encryptCtx == old(encryptCtx) && decryptCtx == old(decryptCtx)
      && (old(enumCtx).Some? ==> rv == OperationActive && enumCtx == old(enumCtx) && unchanged(db))
      && (old(enumCtx).None? ==> (rv == Ok <==> enumCtx.Some?))
      && (old(enumCtx).None? ==>
            match FilterOf(template, decode)
            case Failure(e) => rv == e && enumCtx.None? && unchanged(db)
            case Success(Some(id)) => FoundOne(Outcome(rv), remote, id)
            case Success(None) =>
              if fetchedAllKeys then
                rv == Ok && enumCtx == Some(EnumCtx(old(db.Enumerate()))) && unchanged(db)
              else
                Refetched(Outcome(rv), remote))
    }

    /** `enum_init` (C_FindObjectsInit): refuse a second active search, parse
        the filter, resolve it, and on success store the handles found as the
        active search. Only the search context and the object store change. */
    method EnumInit(template: Option<seq<Attr>>, decode: Utf8Decoder, remote: Remote) returns (rv: Rv)
      requires Valid()
      modifies this`enumCtx, db
      ensures SearchStarted(rv, template, decode, remote)
    {
      if enumCtx.Some? {
        return OperationActive;
      }
      var keyId := FindKeyId(template, decode);
      if keyId.Failure? {
        return keyId.error;
      }
      var handles := FindKey(keyId.value, remote);
      if handles.Failure? {
        return handles.error;
      }
      enumCtx := Some(EnumCtx(handles.value));
      return Ok;
    }
  }

  /** A table owns its sessions: each is valid, and no two handles share a
      session or an object store. */
  ghost predicate Owned(ss: map<SessionHandle, Session>)
    reads ss.Values, set s | s in ss.Values :: s.db
  {
    && (forall h :: h in ss ==> ss[h].Valid())
    && (forall h, g :: h in ss && g in ss && h != g ==> ss[h] != ss[g] && ss[h].db != ss[g].db)
  }

  /** Dropping entries from an owned table leaves it owned. */
  lemma OwnedSubmap(ss: map<SessionHandle, Session>, ss': map<SessionHandle, Session>)
    requires Owned(ss)
    requires forall h :: h in ss' ==> h in ss && ss'[h] == ss[h]
    ensures Owned(ss')
  {
  }

  class SessionManager {
    var sessions: map<SessionHandle, Session>
    var nextSessionHandle: SessionHandle
    /** Every handle this manager has handed out so far. */
    ghost var issued: set<SessionHandle>

    /** The sessions the table owns and their object stores. */
    ghost function Repr(): set<object>
      reads this
    {
      sessions.Values + set s | s in sessions.Values :: s.db
    }

    /** Every live handle was issued, and every issued handle is below the
        counter. The table owns its sessions (`Owned`). */
    ghost predicate Valid()
      reads this, Repr()
    {
      && 0 < nextSessionHandle
      && (forall h :: h in sessions ==> h in issued)
      && (forall h :: h in issued ==> 0 < h < nextSessionHandle)
      && Owned(sessions)
    }

    /** `SessionManager::new`: no sessions; the first handle will be 1. */
    constructor ()
      ensures Valid()
      ensures sessions == map[] && nextSessionHandle == 1 && issued == {}
    {
      sessions := map[];
      nextSessionHandle := 1;
      issued := {};
    }

    /** `create_session` (C_OpenSession): store a new session under the
        counter's value, which has never been handed out, and advance the
        counter by one. */
    method CreateSession(slotId: SlotId, slot: Slot, flags: Flags) returns (handle: SessionHandle)
      requires Valid()
      modifies this
      ensures Valid()
      ensures handle == old(nextSessionHandle) && nextSessionHandle == handle + 1
      ensures handle !in old(issued) && issued == old(issued) + {handle}
      ensures forall h :: h in old(sessions) ==> h < handle
      ensures handle in sessions && sessions == old(sessions)[handle := sessions[handle]]
      ensures var s := sessions[handle];
                && fresh(s) && fresh(s.db) && s.Valid() && s.IsNew()
                && s.slotId == slotId && s.slot == slot && s.flags == flags
    {
      var session := new Session(slotId, slot, flags);
      handle := nextSessionHandle;
      sessions := sessions[handle := session];
      issued := issued + {handle};
      nextSessionHandle := nextSessionHandle + 1;
    }

    /** `get_session` and `get_session_mut`: the session under a handle, if
        any (None is the caller's CKR_SESSION_HANDLE_INVALID). */
    function GetSession(handle: SessionHandle): (r: Option<Session>)
      reads this
      ensures r.Some? <==> handle in sessions
      ensures r.Some? ==> r.value == sessions[handle]
    {
      if handle in sessions then Some(sessions[handle]) else None
    }

    /** `delete_session` (C_CloseSession): remove the entry under a handle
        and hand it back; every other entry and the counter stay as they are. */
    method DeleteSession(handle: SessionHandle) returns (r: Option<(SessionHandle, Session)>)
      requires Valid()
      modifies this`sessions
      ensures Valid()
      ensures r == if handle in old(sessions) then Some((handle, old(sessions)[handle])) else None
      ensures sessions == old(sessions) - {handle}
      ensures GetSession(handle).None?
      ensures nextSessionHandle == old(nextSessionHandle) && issued == old(issued)
    {
      if handle in sessions {
        r := Some((handle, sessions[handle]));
      } else {
        r := None;
      }
      sessions := sessions - {handle};
    }

    /** `delete_all_slot_sessions` (C_CloseAllSessions): collect the handles
        of the slot's sessions, then remove them. Afterwards no session of the
        slot remains and every other session is still there, unchanged. */
    method DeleteAllSlotSessions(slotId: SlotId)
      requires Valid()
      modifies this`sessions
      ensures Valid()
      ensures forall h :: h in sessions ==> sessions[h].slotId != slotId
      ensures forall h :: h in sessions ==> h in old(sessions) && sessions[h] == old(sessions)[h]
      ensures forall h :: h in old(sessions) && old(sessions)[h].slotId != slotId ==> h in sessions
      ensures nextSessionHandle == old(nextSessionHandle) && issued == old(issued)
    {
      var deleted: seq<SessionHandle> := [];
      var unvisited := sessions.Keys;
      while unvisited != {}
        invariant unvisited <= sessions.Keys
        invariant forall h :: h in deleted <==>
                    h in sessions && h !in unvisited && sessions[h].slotId == slotId
        decreases unvisited
      {
        var h :| h in unvisited;
        if sessions[h].slotId == slotId {
          deleted := deleted + [h];
        }
        unvisited := unvisited - {h};
      }
      ghost var before := sessions;
      for i := 0 to |deleted|
        invariant forall h :: h in sessions <==> h in before && h !in deleted[..i]
        invariant forall h :: h in sessions ==> sessions[h] == before[h]
      {
        sessions := sessions - {deleted[i]};
      }
      assert deleted[..|deleted|] == deleted;
      OwnedSubmap(before, sessions);
    }
  }

  /** C_FindObjectsInit as the caller drives it: look the session up with
      `get_session_mut` and start the search with `enum_init`. An unknown
      handle gives None; otherwise that session ends as `enum_init` leaves
      it, no other session or object store changes, and the table stays
      valid. */
  method FindObjectsInitOn(m: SessionManager, handle: SessionHandle, template: Option<seq<Attr>>,
                           decode: Utf8Decoder, remote: Remote) returns (rv: Option<Rv>)
    requires m.Valid()
    modifies m.Repr()
    ensures m.Valid() && m.sessions == old(m.sessions)
    ensures rv.None? <==> handle !in m.sessions
    ensures handle in m.sessions ==> m.sessions[handle].SearchStarted(rv.value, template, decode, remote)
    ensures forall g :: g in m.sessions && g != handle ==>
              unchanged(m.sessions[g], m.sessions[g].db)
  {
    var s := m.GetSession(handle);
    if s.None? {
      return None;
    }
    var code := s.value.EnumInit(template, decode, remote);
    rv := Some(code);
  }

  /** A session handle is never handed out twice: one opened after another
      was closed gets a larger, different handle, and the closed one stays
      invalid. */
  method ReopenGetsNewHandle(m: SessionManager, slotId: SlotId, slot: Slot, flags: Flags)
    returns (first: SessionHandle, second: SessionHandle)
    requires m.Valid()
    modifies m
    ensures m.Valid()
    ensures first < second && first !in m.sessions && second in m.sessions
  {
    first := m.CreateSession(slotId, slot, flags);
    var closed := m.DeleteSession(first);
    second := m.CreateSession(slotId, slot, flags);
  }
}
