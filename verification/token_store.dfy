/**
 * Per-portal OAuth token storage and the expiry-aware access-token lookup.
 *
 * The key-value store is a map from key to record (the JSON written and read
 * back is the record itself). The clock is passed in: `now` is the reading
 * taken by the expiry test, `storedAt` the one taken when a refreshed pair is
 * stored. The OAuth refresh call is a function parameter from refresh token to
 * outcome; a store write that throws after a granted refresh is a flag.
 */
module TokenStore {
  import opened Wrappers
  import opened Strings

  /** Five minutes, in milliseconds: tokens this close to expiry count as expired. */
  const TokenRefreshBufferMs: int := 5 * 60 * 1000

  const KeyPrefix: string := "hubspot:tokens:"

  datatype TokenData = TokenData(accessToken: string, refreshToken: string, expiresAt: int, portalId: string)

  /** What the OAuth provider returns; `expiresIn` is in seconds. */
  datatype OAuthTokenResponse = OAuthTokenResponse(accessToken: string, refreshToken: string, expiresIn: int)

  type Store = map<string, TokenData>

  /** The result of the refresh-token grant. */
  datatype RefreshOutcome = Granted(response: OAuthTokenResponse) | Rejected

  /**
   * The answer of `getValidAccessToken`, the store afterwards, and the
   * refresh tokens sent to the provider (empty when no refresh was attempted).
   */
  datatype Lookup = Lookup(accessToken: Option<string>, store: Store, refreshRequests: seq<string>)

  /** The environment segment of a key: "prod" in production, "dev" otherwise. */
  function EnvSegment(nodeEnv: string): (seg: string)
    ensures seg == "prod" <==> nodeEnv == "production"
    ensures seg == "prod" || seg == "dev"
  {
    if nodeEnv == "production" then "prod" else "dev"
  }

  /** `getTokenKey`: `hubspot:tokens:{prod|dev}:{portalId}`. */
  function GetTokenKey(nodeEnv: string, portalId: string): (key: string)
    ensures StartsWith(key, KeyPrefix)
    ensures EndsWith(key, ":" + portalId)
    ensures |key| == |KeyPrefix| + |EnvSegment(nodeEnv)| + 1 + |portalId|
            && key[|KeyPrefix|..|KeyPrefix| + |EnvSegment(nodeEnv)|] == EnvSegment(nodeEnv)
  {
    var key := KeyPrefix + EnvSegment(nodeEnv) + ":" + portalId;
    assert key[|key| - |":" + portalId|..] == ":" + portalId;
    assert key[|KeyPrefix|..|KeyPrefix| + |EnvSegment(nodeEnv)|] == EnvSegment(nodeEnv);
    key
  }

  /** Keys coincide exactly when the environment segment and the portal coincide. */
  lemma TokenKeyInjective(env1: string, portal1: string, env2: string, portal2: string)
    ensures GetTokenKey(env1, portal1) == GetTokenKey(env2, portal2)
        <==> EnvSegment(env1) == EnvSegment(env2) && portal1 == portal2
  {
    var k1 := GetTokenKey(env1, portal1);
    var k2 := GetTokenKey(env2, portal2);
    var n := |KeyPrefix|;
    assert k1[n] == EnvSegment(env1)[0] && k2[n] == EnvSegment(env2)[0];
    if k1 == k2 {
      if EnvSegment(env1) == EnvSegment(env2) {
        var head := KeyPrefix + EnvSegment(env1) + ":";
        assert k1 == head + portal1 && k2 == head + portal2;
        assert portal1 == k1[|head|..];
      }
    }
  }

  /**
   * `isTokenExpired`: expiry is brought forward by the five-minute buffer, so
   * a token counts as expired once at most five minutes of it remain.
   */
  function IsTokenExpired(expiresAt: int, now: int): (expired: bool)
    ensures expired <==> expiresAt - now <= TokenRefreshBufferMs
  {
    now >= expiresAt - TokenRefreshBufferMs
  }

  /** A token exactly five minutes from expiry is already expired; one millisecond more is not. */
  lemma ExpiryBoundary(now: int)
    ensures IsTokenExpired(now + TokenRefreshBufferMs - 1, now)
    ensures IsTokenExpired(now + TokenRefreshBufferMs, now)
    ensures !IsTokenExpired(now + TokenRefreshBufferMs + 1, now)
  {
  }

  /** `storeTokens`: the new record fully replaces whatever the portal had. */
  function StoreTokens(store: Store, nodeEnv: string, portalId: string,
                       response: OAuthTokenResponse, now: int): (s: Store)
    ensures GetTokenKey(nodeEnv, portalId) in s
    ensures s[GetTokenKey(nodeEnv, portalId)]
         == TokenData(response.accessToken, response.refreshToken, now + response.expiresIn * 1000, portalId)
    ensures forall k :: k != GetTokenKey(nodeEnv, portalId) ==> (k in s <==> k in store)
    ensures forall k :: k != GetTokenKey(nodeEnv, portalId) && k in store ==> s[k] == store[k]
  {
    var record := TokenData(response.accessToken, response.refreshToken,
                            now + response.expiresIn * 1000, portalId);
    store[GetTokenKey(nodeEnv, portalId) := record]
  }

  /** `getTokens`: the portal's record, or None when it has none. */
  function GetTokens(store: Store, nodeEnv: string, portalId: string): (r: Option<TokenData>)
    ensures r.None? <==> GetTokenKey(nodeEnv, portalId) !in store
    ensures r.Some? ==> r.value == store[GetTokenKey(nodeEnv, portalId)]
  {
    var key := GetTokenKey(nodeEnv, portalId);
    if key in store then Some(store[key]) else None
  }

  /** `deleteTokens`: removes the portal's record, if any. */
  function DeleteTokens(store: Store, nodeEnv: string, portalId: string): (s: Store)
    ensures GetTokenKey(nodeEnv, portalId) !in s
    ensures forall k :: k != GetTokenKey(nodeEnv, portalId) ==> (k in s <==> k in store)
    ensures forall k :: k != GetTokenKey(nodeEnv, portalId) && k in s ==> s[k] == store[k]
  {
    store - {GetTokenKey(nodeEnv, portalId)}
  }

  /** Reading after storing gives back the stored pair with its computed expiry. */
  lemma StoreThenGet(store: Store, nodeEnv: string, portalId: string, response: OAuthTokenResponse, now: int)
    ensures GetTokens(StoreTokens(store, nodeEnv, portalId, response, now), nodeEnv, portalId)
         == Some(TokenData(response.accessToken, response.refreshToken, now + response.expiresIn * 1000, portalId))
  {
  }

  /** Storing twice keeps only the second record. */
  lemma StoreOverwrites(store: Store, nodeEnv: string, portalId: string,
                        first: OAuthTokenResponse, firstAt: int, second: OAuthTokenResponse, secondAt: int)
    ensures StoreTokens(StoreTokens(store, nodeEnv, portalId, first, firstAt), nodeEnv, portalId, second, secondAt)
         == StoreTokens(store, nodeEnv, portalId, second, secondAt)
  {
  }

  /** Deleting twice is the same as deleting once, and a deleted portal reads as absent. */
  lemma DeleteIdempotent(store: Store, nodeEnv: string, portalId: string)
    ensures var once := DeleteTokens(store, nodeEnv, portalId);
            DeleteTokens(once, nodeEnv, portalId) == once && GetTokens(once, nodeEnv, portalId).None?
  {
  }

  /** Storing or deleting one portal's tokens leaves every other portal's record as it was. */
  lemma OtherPortalsUnchanged(store: Store, nodeEnv: string, portalId: string, other: string,
                              response: OAuthTokenResponse, now: int)
    requires other != portalId
    ensures GetTokens(StoreTokens(store, nodeEnv, portalId, response, now), nodeEnv, other)
         == GetTokens(store, nodeEnv, other)
    ensures GetTokens(DeleteTokens(store, nodeEnv, portalId), nodeEnv, other)
         == GetTokens(store, nodeEnv, other)
  {
    TokenKeyInjective(nodeEnv, portalId, nodeEnv, other);
  }

  /**
   * `getValidAccessToken`. No record: None. A record that is not expired:
   * its access token, no refresh. An expired record: the refresh token is
   * exchanged; on success the new pair is stored and its access token
   * returned, and on any failure the record is deleted and None returned.
   */
  function GetValidAccessToken(store: Store, nodeEnv: string, portalId: string, now: int,
                               refresh: string -> RefreshOutcome, storeWriteFails: bool,
                               storedAt: int): (r: Lookup)
    ensures GetTokens(store, nodeEnv, portalId).None? ==>
              r == Lookup(None, store, [])
    ensures GetTokens(store, nodeEnv, portalId).Some? ==>
              var t := GetTokens(store, nodeEnv, portalId).value;
              && (!IsTokenExpired(t.expiresAt, now) ==> r == Lookup(Some(t.accessToken), store, []))
              && (IsTokenExpired(t.expiresAt, now) ==> r.refreshRequests == [t.refreshToken])
    ensures r.accessToken.Some? && r.refreshRequests != [] ==>
              GetTokens(r.store, nodeEnv, portalId).Some?
              && GetTokens(r.store, nodeEnv, portalId).value.accessToken == r.accessToken.value
              && refresh(r.refreshRequests[0]).Granted?
              && GetTokens(r.store, nodeEnv, portalId).value.expiresAt
                 == storedAt + refresh(r.refreshRequests[0]).response.expiresIn * 1000
    ensures r.accessToken.Some? && r.refreshRequests != [] ==>
              && refresh(r.refreshRequests[0]).Granted?
              && r.accessToken.value == refresh(r.refreshRequests[0]).response.accessToken
              && r.store == StoreTokens(store, nodeEnv, portalId, refresh(r.refreshRequests[0]).response, storedAt)
    ensures r.accessToken.None? && r.refreshRequests != [] ==>
              r.store == DeleteTokens(store, nodeEnv, portalId)
    ensures r.accessToken.None? <==>
              GetTokens(store, nodeEnv, portalId).None?
              || (r.refreshRequests != [] && (refresh(r.refreshRequests[0]).Rejected? || storeWriteFails))
  {
    match GetTokens(store, nodeEnv, portalId)
    case None => Lookup(None, store, [])
    case Some(tokens) =>
      if IsTokenExpired(tokens.expiresAt, now) then
        match refresh(tokens.refreshToken)
        case Granted(response) =>
          if storeWriteFails then
            Lookup(None, DeleteTokens(store, nodeEnv, portalId), [tokens.refreshToken])
          else
            Lookup(Some(response.accessToken), StoreTokens(store, nodeEnv, portalId, response, storedAt),
                   [tokens.refreshToken])
        case Rejected =>
          Lookup(None, DeleteTokens(store, nodeEnv, portalId), [tokens.refreshToken])
      else
        Lookup(Some(tokens.accessToken), store, [])
  }

  /** Whatever happens for one portal, every other portal's record is left as it was. */
  lemma LookupLeavesOtherPortals(store: Store, nodeEnv: string, portalId: string, other: string, now: int,
                                 refresh: string -> RefreshOutcome, storeWriteFails: bool, storedAt: int)
    requires other != portalId
    ensures GetTokens(GetValidAccessToken(store, nodeEnv, portalId, now, refresh, storeWriteFails, storedAt).store,
                      nodeEnv, other)
         == GetTokens(store, nodeEnv, other)
  {
    TokenKeyInjective(nodeEnv, portalId, nodeEnv, other);
  }

  /**
   * A token handed back without a refresh is never within five minutes of
   * expiry at the time of the check.
   */
  lemma NoStaleToken(store: Store, nodeEnv: string, portalId: string, now: int,
                     refresh: string -> RefreshOutcome, storeWriteFails: bool, storedAt: int)
    ensures var r := GetValidAccessToken(store, nodeEnv, portalId, now, refresh, storeWriteFails, storedAt);
            r.accessToken.Some? && r.refreshRequests == [] ==>
              now < GetTokens(store, nodeEnv, portalId).value.expiresAt - TokenRefreshBufferMs
  {
  }

  /**
   * After a successful refresh, a later lookup that still falls before the
   * new token's buffered expiry returns the new token without refreshing.
   */
  lemma {:induction false} RefreshedTokenServedUntilExpiry(
    store: Store, nodeEnv: string, portalId: string, now: int,
    refresh: string -> RefreshOutcome, storedAt: int,
    later: int, refreshLater: string -> RefreshOutcome, failsLater: bool, storedLater: int)
    requires var r := GetValidAccessToken(store, nodeEnv, portalId, now, refresh, false, storedAt);
             r.accessToken.Some? && r.refreshRequests != []
    requires var response := refresh(GetTokens(store, nodeEnv, portalId).value.refreshToken).response;
             later < storedAt + response.expiresIn * 1000 - TokenRefreshBufferMs
    ensures var r := GetValidAccessToken(store, nodeEnv, portalId, now, refresh, false, storedAt);
            GetValidAccessToken(r.store, nodeEnv, portalId, later, refreshLater, failsLater, storedLater)
            == Lookup(r.accessToken, r.store, [])
  {
    var r := GetValidAccessToken(store, nodeEnv, portalId, now, refresh, false, storedAt);
    var response := refresh(GetTokens(store, nodeEnv, portalId).value.refreshToken).response;
    assert GetTokens(r.store, nodeEnv, portalId).value.expiresAt == storedAt + response.expiresIn * 1000;
  }

  /**
   * After a failed refresh the portal has no credentials: every later lookup
   * returns None without contacting the provider, until tokens are stored again.
   */
  lemma FailedRefreshNeedsReauthorization(
    store: Store, nodeEnv: string, portalId: string, now: int,
    refresh: string -> RefreshOutcome, storeWriteFails: bool, storedAt: int,
    later: int, refreshLater: string -> RefreshOutcome, failsLater: bool, storedLater: int)
    requires var r := GetValidAccessToken(store, nodeEnv, portalId, now, refresh, storeWriteFails, storedAt);
             r.accessToken.None? && r.refreshRequests != []
    ensures var r := GetValidAccessToken(store, nodeEnv, portalId, now, refresh, storeWriteFails, storedAt);
            GetValidAccessToken(r.store, nodeEnv, portalId, later, refreshLater, failsLater, storedLater)
            == Lookup(None, r.store, [])
  {
  }
}
