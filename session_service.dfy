/**
 * The in-memory session token store (`SessionService`): sessions indexed both by
 * device id and by token, at most one per device, expired lazily when looked up.
 */
module Sessions {
  import opened Wrappers
  import opened Models

  /** Token lifetime used when none is configured. */
  const DefaultTokenExpirationHours: int := 24

  /** The one way creating a session can fail. */
  datatype CreateError = ActiveSessionExists

  /** A session is live strictly before its expiry instant. */
  predicate IsLive(s: SessionTokenResponse, now: Instant) {
    s.expiresAt > now
  }

  /** The device a session is registered under. */
  function DeviceOf(s: SessionTokenResponse): string {
    s.deviceInfo.macAddress
  }

  type Index = map<string, SessionTokenResponse>

  /**
   * The cross-index invariant: each token maps to a session carrying that token (also
   * stamped into its device info), each device id to a session registered under that
   * id, and the two indexes hold exactly the same sessions.
   */
  ghost predicate IndexesAgree(byDevice: Index, byToken: Index) {
    && (forall t | t in byToken ::
          byToken[t].sessionToken == t && byToken[t].deviceInfo.sessionToken == Some(t))
    && (forall t | t in byToken ::
          DeviceOf(byToken[t]) in byDevice && byDevice[DeviceOf(byToken[t])] == byToken[t])
    && (forall d | d in byDevice ::
          DeviceOf(byDevice[d]) == d && byDevice[d].sessionToken in byToken
          && byToken[byDevice[d].sessionToken] == byDevice[d])
  }

  /** Under the invariant, the device index maps `d` to `s` exactly when the token index maps `s`'s token to `s` and `s` belongs to `d`. */
  lemma IndexesAgreeIff(byDevice: Index, byToken: Index, d: string, s: SessionTokenResponse)
    requires IndexesAgree(byDevice, byToken)
    ensures (d in byDevice && byDevice[d] == s)
        <==> (s.sessionToken in byToken && byToken[s.sessionToken] == s && DeviceOf(s) == d)
  {
  }

  /** No device holds two tokens. */
  lemma OneTokenPerDevice(byDevice: Index, byToken: Index, t1: string, t2: string)
    requires IndexesAgree(byDevice, byToken)
    requires t1 in byToken && t2 in byToken && DeviceOf(byToken[t1]) == DeviceOf(byToken[t2])
    ensures t1 == t2
  {
  }

  /** Removing a stored session from both indexes keeps them in agreement. */
  lemma EvictKeepsAgreement(byDevice: Index, byToken: Index, s: SessionTokenResponse)
    requires IndexesAgree(byDevice, byToken)
    requires s.sessionToken in byToken && byToken[s.sessionToken] == s
    ensures IndexesAgree(byDevice - {DeviceOf(s)}, byToken - {s.sessionToken})
  {
    var dev', tok' := byDevice - {DeviceOf(s)}, byToken - {s.sessionToken};
    forall t | t in tok' ensures DeviceOf(tok'[t]) in dev' && dev'[DeviceOf(tok'[t])] == tok'[t] {
      if DeviceOf(byToken[t]) == DeviceOf(s) {
        OneTokenPerDevice(byDevice, byToken, t, s.sessionToken);
      }
    }
  }

  /** Adding a session under a new token for a device with no session keeps the indexes in agreement. */
  lemma InsertKeepsAgreement(byDevice: Index, byToken: Index, s: SessionTokenResponse)
    requires IndexesAgree(byDevice, byToken)
    requires s.sessionToken !in byToken && DeviceOf(s) !in byDevice
    requires s.deviceInfo.sessionToken == Some(s.sessionToken)
    ensures IndexesAgree(byDevice[DeviceOf(s) := s], byToken[s.sessionToken := s])
  {
  }

  /** The two indexes always hold the same number of entries. */
  lemma {:induction false} IndexSizesAgree(byDevice: Index, byToken: Index)
    requires IndexesAgree(byDevice, byToken)
    ensures |byDevice| == |byToken|
    decreases |byToken|
  {
    if byToken == map[] {
      assert byDevice.Keys == {};
    } else {
      var t :| t in byToken;
      var s := byToken[t];
      EvictKeepsAgreement(byDevice, byToken, s);
      RemoveKeyShrinks(byToken, t);
      RemoveKeyShrinks(byDevice, DeviceOf(s));
      IndexSizesAgree(byDevice - {DeviceOf(s)}, byToken - {t});
    }
  }

  /** Removing a present key takes one entry off an index. */
  lemma RemoveKeyShrinks(m: Index, k: string)
    requires k in m
    ensures |m - {k}| == |m| - 1
  {
    assert (m - {k}).Keys == m.Keys - {k};
  }

  /** `SessionService`: the two indexes and the configured token lifetime. */
  class SessionService {
    var byDeviceId: Index
    var byToken: Index
    const tokenExpirationHours: int

    ghost predicate Valid()
      reads this
    {
      IndexesAgree(byDeviceId, byToken)
    }

    /** An empty store whose tokens last the configured number of hours, 24 if none is configured. */
    constructor (configuredExpirationHours: Option<int>)
      ensures Valid() && byDeviceId == map[] && byToken == map[]
      ensures tokenExpirationHours == configuredExpirationHours.GetOr(DefaultTokenExpirationHours)
    {
      byDeviceId, byToken := map[], map[];
      tokenExpirationHours := configuredExpirationHours.GetOr(DefaultTokenExpirationHours);
    }

    /**
     * `CreateSessionAsync`: refuses while the device has a live session; otherwise drops
     * the device's expired session, if any, and registers a new session under
     * `freshToken` that expires `tokenExpirationHours` after `now`, with the token and
     * the device id stamped into the device info.
     */
    method CreateSession(deviceId: string, deviceInfo: DeviceInfo, freshToken: string, now: Instant)
      returns (r: Result<SessionTokenResponse, CreateError>)
      requires Valid()
      requires freshToken !in byToken
      modifies this
      ensures Valid()
      ensures r.Failure? <==> deviceId in old(byDeviceId) && IsLive(old(byDeviceId)[deviceId], now)
      ensures r.Failure? ==> r.error == ActiveSessionExists
                             && byDeviceId == old(byDeviceId) && byToken == old(byToken)
      ensures r.Success? ==>
        && r.value.sessionToken == freshToken
        && r.value.expiresAt == now + tokenExpirationHours * TicksPerHour
        && r.value.deviceInfo == deviceInfo.(sessionToken := Some(freshToken), macAddress := deviceId)
        && byDeviceId == old(byDeviceId)[deviceId := r.value]
        && byToken == (if deviceId in old(byDeviceId)
                       then old(byToken) - {old(byDeviceId)[deviceId].sessionToken}
                       else old(byToken))[freshToken := r.value]
      ensures r.Success? && deviceId in old(byDeviceId) ==> old(byDeviceId)[deviceId].sessionToken !in byToken
    {
      var devices, tokens := byDeviceId, byToken;
      if deviceId in devices {
        var existing := devices[deviceId];
        if existing.expiresAt > now {
          r := Failure(ActiveSessionExists);
          return;
        }
        EvictKeepsAgreement(devices, tokens, existing);
        tokens := tokens - {existing.sessionToken};
        devices := devices - {deviceId};
      }
      var expiresAt := now + tokenExpirationHours * TicksPerHour;
      var stamped := deviceInfo.(sessionToken := Some(freshToken), macAddress := deviceId);
      var response := SessionTokenResponse(freshToken, expiresAt, stamped);
      InsertKeepsAgreement(devices, tokens, response);
      assert devices[deviceId := response] == byDeviceId[deviceId := response];
      byDeviceId := devices[deviceId := response];
      byToken := tokens[freshToken := response];
      r := Success(response);
    }

    /**
     * `GetSessionByDeviceIdAsync`: the device's session while it is live; an expired
     * session is removed from both indexes and reported absent.
     */
    method GetSessionByDeviceId(deviceId: string, now: Instant) returns (r: Option<SessionTokenResponse>)
      requires Valid()
      modifies this
      ensures Valid()
      ensures deviceId in old(byDeviceId) && IsLive(old(byDeviceId)[deviceId], now) ==>
        r == Some(old(byDeviceId)[deviceId]) && byDeviceId == old(byDeviceId) && byToken == old(byToken)
      ensures deviceId in old(byDeviceId) && !IsLive(old(byDeviceId)[deviceId], now) ==>
        r == None && byDeviceId == old(byDeviceId) - {deviceId}
        && byToken == old(byToken) - {old(byDeviceId)[deviceId].sessionToken}
      ensures deviceId !in old(byDeviceId) ==>
        r == None && byDeviceId == old(byDeviceId) && byToken == old(byToken)
    {
      r := if deviceId in byDeviceId then Some(byDeviceId[deviceId]) else None;
      if r.Some? && r.value.expiresAt <= now {
        EvictKeepsAgreement(byDeviceId, byToken, r.value);
        byToken := byToken - {r.value.sessionToken};
        byDeviceId := byDeviceId - {deviceId};
        r := None;
      }
    }

    /**
     * `GetSessionByTokenAsync`: the token's session while it is live; an expired
     * session is removed from both indexes and reported absent.
     */
    method GetSessionByToken(token: string, now: Instant) returns (r: Option<SessionTokenResponse>)
      requires Valid()
      modifies this
      ensures Valid()
      ensures token in old(byToken) && IsLive(old(byToken)[token], now) ==>
        r == Some(old(byToken)[token]) && byDeviceId == old(byDeviceId) && byToken == old(byToken)
      ensures token in old(byToken) && !IsLive(old(byToken)[token], now) ==>
        r == None && byDeviceId == old(byDeviceId) - {DeviceOf(old(byToken)[token])}
        && byToken == old(byToken) - {token}
      ensures token !in old(byToken) ==>
        r == None && byDeviceId == old(byDeviceId) && byToken == old(byToken)
    {
      r := if token in byToken then Some(byToken[token]) else None;
      if r.Some? && r.value.expiresAt <= now {
        EvictKeepsAgreement(byDeviceId, byToken, r.value);
        byDeviceId := byDeviceId - {r.value.deviceInfo.macAddress};
        byToken := byToken - {token};
        r := None;
      }
    }

    /**
     * `ClearSessionAsync`: whether `token` was stored, live or expired; a stored
     * session is removed from both indexes, otherwise nothing changes.
     */
    method ClearSession(token: string) returns (cleared: bool)
      requires Valid()
      modifies this
      ensures Valid()
      ensures cleared <==> token in old(byToken)
      ensures cleared ==> byToken == old(byToken) - {token}
                          && byDeviceId == old(byDeviceId) - {DeviceOf(old(byToken)[token])}
      ensures !cleared ==> byDeviceId == old(byDeviceId) && byToken == old(byToken)
      ensures token !in byToken
    {
      cleared := token in byToken;
      if cleared {
        var session := byToken[token];
        EvictKeepsAgreement(byDeviceId, byToken, session);
        byDeviceId := byDeviceId - {session.deviceInfo.macAddress};
        byToken := byToken - {token};
      }
    }

    /** `ClearAllSessionsAsync`: empties both indexes and reports how many sessions there were. */
    method ClearAllSessions() returns (count: int)
      requires Valid()
      modifies this
      ensures Valid()
      ensures count == |old(byToken)| && count == |old(byDeviceId)|
      ensures byToken == map[] && byDeviceId == map[]
    {
      IndexSizesAgree(byDeviceId, byToken);
      count := |byToken|;
      byToken := map[];
      byDeviceId := map[];
    }
  }

  /**
   * A one-hour store: a token is found half an hour after issue, a second create for the
   * device is refused, and after 61 minutes the token and the device both come back
   * empty and clearing the token reports nothing to clear.
   */
  method SessionLifecycleScenario(info: DeviceInfo)
  {
    var minute := TicksPerHour / 60;
    var store := new SessionService(Some(1));
    var created := store.CreateSession("dev-1", info, "abc", 0);
    assert created.Success? && created.value.expiresAt == 60 * minute;
    var found := store.GetSessionByToken("abc", 30 * minute);
    assert found == Some(created.value);
    var again := store.CreateSession("dev-1", info, "def", 30 * minute);
    assert again == Failure(ActiveSessionExists);
    found := store.GetSessionByToken("abc", 61 * minute);
    assert found == None;
    var byDevice := store.GetSessionByDeviceId("dev-1", 61 * minute);
    assert byDevice == None;
    var cleared := store.ClearSession("abc");
    assert !cleared;
  }
}
