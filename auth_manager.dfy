/** Authorization of users and tokens, and the workflow in which a remote
    caller asks for a token and an administrator accepts or denies it (or
    the request times out). The persisted auth table is an abstract store
    held in two maps; generated tokens and ids, the current time and the
    requesting object are inputs; emitted signals are returned as values. */
module Auth {
  import opened Json

  /** The object that asked for a token, as an opaque handle for the reply. */
  datatype Caller = NoCaller | Caller(handle: nat)

  /** A pending request, and also a stored token entry. */
  datatype AuthDefinition = AuthDefinition(
    id: string,
    comment: string,
    caller: Caller,
    timeoutTime: nat,
    token: string,
    lastUse: string)

  /** The signals the manager emits. */
  datatype Signal =
    | NewPendingTokenRequest(id: string, comment: string)
    | TokenResponse(success: bool, caller: Caller, token: string, comment: string, id: string)

  /** A user row of the auth table; the password stands for its verification material. */
  datatype UserRecord = UserRecord(password: string, token: string, lastUse: string)

  /** Which part of the configuration a settings update carries. */
  datatype SettingsType = NetworkSettings | OtherSettings(name: string)

  /** The administrative account and its factory password. */
  const DefaultUser := "Hyperion"
  const DefaultPassword := "hyperion"

  /** Every entry is stored under its own id. */
  ghost predicate KeyedById(m: map<string, AuthDefinition>)
  {
    forall k :: k in m ==> m[k].id == k
  }

  /** The user exists and the password verifies; an unknown user and a wrong
      password give the same answer. */
  predicate UserAuthorized(users: map<string, UserRecord>, user: string, pw: string)
  {
    user in users && users[user].password == pw
  }

  /** Some stored token entry carries this token. */
  predicate TokenIssued(tokens: map<string, AuthDefinition>, token: string)
  {
    exists id :: id in tokens && tokens[id].token == token
  }

  /** No two stored entries carry the same token, so a token names one entry. */
  ghost predicate TokensUnique(m: map<string, AuthDefinition>)
  {
    forall a, b :: a in m && b in m && m[a].token == m[b].token ==> a == b
  }

  /** The reply to a request: the token only on success, an empty one otherwise. */
  function Response(def: AuthDefinition, success: bool, token: string): (r: Signal)
  {
    TokenResponse(success, def.caller, if success then token else "", def.comment, def.id)
  }

  /** Outcome of accepting or denying a request by id. */
  datatype Resolution =
    | NotFound
    | Resolved(remaining: map<string, AuthDefinition>, response: Signal)

  /** Accept or deny the request under `id`: it is not found, or it leaves
      the registry and its requester gets one reply. */
  function Resolve(pending: map<string, AuthDefinition>, id: string, accept: bool, token: string)
    : (r: Resolution)
    ensures r.NotFound? <==> id !in pending
    ensures r.Resolved? ==>
      && r.remaining.Keys == pending.Keys - {id}
      && (forall k :: k in r.remaining ==> r.remaining[k] == pending[k])
      && r.response.TokenResponse?
      && r.response.success == accept
      && r.response.token == (if accept then token else "")
      && r.response.caller == pending[id].caller
      && r.response.comment == pending[id].comment
      && r.response.id == pending[id].id
  {
    if id !in pending then NotFound
    else Resolved(pending - {id}, Response(pending[id], accept, token))
  }

  /** The request's deadline has been reached. */
  predicate Expired(def: AuthDefinition, now: nat)
  {
    def.timeoutTime <= now
  }

  /** What a timeout sweep at `now` leaves pending. */
  function Sweep(pending: map<string, AuthDefinition>, now: nat): (r: map<string, AuthDefinition>)
    ensures forall k :: k in r <==> k in pending && now < pending[k].timeoutTime
    ensures forall k :: k in r ==> r[k] == pending[k]
  {
    map k | k in pending && !Expired(pending[k], now) :: pending[k]
  }

  /** The replies a timeout sweep at `now` sends: one denial per expired request. */
  function SweepResponses(pending: map<string, AuthDefinition>, now: nat): (r: set<Signal>)
  {
    set k | k in pending && Expired(pending[k], now) :: Response(pending[k], false, "")
  }

  /** A timeout reply looks exactly like a denial: failure and no token. */
  lemma SweepResponsesAreDenials(pending: map<string, AuthDefinition>, now: nat, k: string)
    requires k in pending && Expired(pending[k], now)
    ensures Resolve(pending, k, false, "").Resolved?
    ensures Resolve(pending, k, false, "").response in SweepResponses(pending, now)
    ensures forall s :: s in SweepResponses(pending, now) ==>
      s.TokenResponse? && !s.success && s.token == ""
  {
  }

  /** Sweeping twice at the same time removes nothing more, and a sweep at a
      later time subsumes an earlier one. */
  lemma SweepSettles(pending: map<string, AuthDefinition>, earlier: nat, later: nat)
    requires earlier <= later
    ensures Sweep(Sweep(pending, earlier), earlier) == Sweep(pending, earlier)
    ensures Sweep(Sweep(pending, earlier), later) == Sweep(pending, later)
    ensures SweepResponses(Sweep(pending, earlier), earlier) == {}
  {
  }

  /** Each expired request is answered exactly once by a sweep. */
  lemma {:induction false} SweepNotifiesEachExpiredOnce(pending: map<string, AuthDefinition>, now: nat)
    requires KeyedById(pending)
    ensures |SweepResponses(pending, now)| == |pending| - |Sweep(pending, now)|
  {
    var expired := set k | k in pending && Expired(pending[k], now);
    var kept := Sweep(pending, now).Keys;
    assert kept == pending.Keys - expired;
    assert pending.Keys == kept + expired && kept !! expired;
    assert SweepResponses(pending, now) == set k | k in expired :: Response(pending[k], false, "");
    ImageOfKeysCount(pending, expired);
  }

  /** The denials for distinct request ids are distinct. */
  lemma {:induction false} ImageOfKeysCount(pending: map<string, AuthDefinition>, ks: set<string>)
    requires KeyedById(pending)
    requires ks <= pending.Keys
    ensures |set k | k in ks :: Response(pending[k], false, "")| == |ks|
    decreases ks
  {
    if ks != {} {
      var k :| k in ks;
      var smaller := ks - {k};
      ImageOfKeysCount(pending, smaller);
      var image := set j | j in ks :: Response(pending[j], false, "");
      var smallerImage := set j | j in smaller :: Response(pending[j], false, "");
      assert image == smallerImage + {Response(pending[k], false, "")};
      assert Response(pending[k], false, "") !in smallerImage;
    }
  }

  /** The loop of the timer tick: each pending request is visited once, and
      one whose deadline has been reached is dropped and answered with a denial. */
  method SweepPending(pending: map<string, AuthDefinition>, now: nat)
    returns (remaining: map<string, AuthDefinition>, signals: seq<Signal>)
    requires KeyedById(pending)
    ensures remaining == Sweep(pending, now)
    ensures forall s :: s in signals <==> s in SweepResponses(pending, now)
    ensures forall i, j :: 0 <= i < j < |signals| ==> signals[i] != signals[j]
  {
    remaining := pending;
    var todo := pending.Keys;
    signals := [];
    while todo != {}
      invariant todo <= pending.Keys
      invariant remaining == map k | k in pending && (k in todo || !Expired(pending[k], now)) :: pending[k]
      invariant forall s :: s in signals <==>
        s in (set k | k in pending && k !in todo && Expired(pending[k], now) :: Response(pending[k], false, ""))
      invariant forall i :: 0 <= i < |signals| ==> signals[i].id in pending && signals[i].id !in todo
      invariant forall i, j :: 0 <= i < j < |signals| ==> signals[i].id != signals[j].id
      decreases |todo|
    {
      var k :| k in todo;
      var def := remaining[k];
      if def.timeoutTime <= now {
        signals := signals + [TokenResponse(false, def.caller, "", def.comment, def.id)];
        remaining := remaining - {k};
      }
      todo := todo - {k};
    }
  }

  /** Once a request is resolved, a second accept or deny on its id is not
      found, and no later sweep can answer it again. */
  lemma ResolvedAtMostOnce(
    pending: map<string, AuthDefinition>, id: string, accept: bool, token: string,
    again: bool, token2: string, now: nat)
    requires KeyedById(pending)
    requires Resolve(pending, id, accept, token).Resolved?
    ensures Resolve(Resolve(pending, id, accept, token).remaining, id, again, token2).NotFound?
    ensures forall s :: s in SweepResponses(Resolve(pending, id, accept, token).remaining, now) ==>
      s.id != id
  {
  }

  class AuthManager {
    /** How long a request waits for an answer, in milliseconds. */
    const requestLifetime: nat
    var uuid: string
    var pendingRequests: map<string, AuthDefinition>
    var authRequired: bool
    var localAuthRequired: bool
    var localAdminAuthRequired: bool
    /** The auth table: user rows by name, token rows by id. */
    var users: map<string, UserRecord>
    var tokens: map<string, AuthDefinition>

    /** Entries live under their id, a pending request carries no token yet,
        and every stored token entry carries a real (non-empty) token that no
        other entry carries. */
    ghost predicate Valid()
      reads this
    {
      && KeyedById(pendingRequests)
      && KeyedById(tokens)
      && (forall k :: k in pendingRequests ==> pendingRequests[k].token == "")
      && (forall k :: k in tokens ==> tokens[k].token != "")
      && TokensUnique(tokens)
    }

    /** Created over an opened auth table and the stored installation id. */
    constructor (id: string, users: map<string, UserRecord>, tokens: map<string, AuthDefinition>,
                 requestLifetime: nat)
      requires KeyedById(tokens)
      requires forall k :: k in tokens ==> tokens[k].token != ""
      requires TokensUnique(tokens)
      ensures Valid()
      ensures uuid == id && this.users == users && this.tokens == tokens
      ensures this.requestLifetime == requestLifetime
      ensures pendingRequests == map[]
      ensures authRequired && !localAuthRequired && localAdminAuthRequired
    {
      this.requestLifetime := requestLifetime;
      uuid := id;
      this.users := users;
      this.tokens := tokens;
      pendingRequests := map[];
      authRequired := true;
      localAuthRequired := false;
      localAdminAuthRequired := true;
    }

    method GetID() returns (id: string)
      ensures id == uuid
    {
      id := uuid;
    }

    /** Every stored token entry once, in no particular order. */
    method GetTokenList() returns (list: seq<AuthDefinition>)
      requires Valid()
      ensures |list| == |tokens|
      ensures forall d :: d in list <==> d in tokens.Values
      ensures forall i, j :: 0 <= i < j < |list| ==> list[i] != list[j]
    {
      list := [];
      var todo := tokens.Keys;
      while todo != {}
        invariant todo <= tokens.Keys
        invariant |list| + |todo| == |tokens.Keys|
        invariant forall d :: d in list ==> d.id in tokens && tokens[d.id] == d && d.id !in todo
        invariant forall k :: k in tokens && k !in todo ==> tokens[k] in list
        invariant forall i, j :: 0 <= i < j < |list| ==> list[i] != list[j]
        decreases |todo|
      {
        var k :| k in todo;
        list := list + [tokens[k]];
        todo := todo - {k};
      }
    }

    method IsAuthRequired() returns (required: bool)
      ensures required == authRequired
    {
      required := authRequired;
    }

    method IsLocalAuthRequired() returns (required: bool)
      ensures required == localAuthRequired
    {
      required := localAuthRequired;
    }

    method IsLocalAdminAuthRequired() returns (required: bool)
      ensures required == localAdminAuthRequired
    {
      required := localAdminAuthRequired;
    }

    /** The administrative account still accepts its factory password. */
    method HasHyperionDefaultPw() returns (isDefault: bool)
      ensures isDefault == UserAuthorized(users, DefaultUser, DefaultPassword)
    {
      isDefault := IsUserAuthorized(DefaultUser, DefaultPassword);
    }

    /** The current token of a user, the administrative account when none is
        named. A user without a token yet is issued `newToken`, which is stored,
        so later calls return the same token. */
    method GetUserToken(newToken: string, usr: string := DefaultUser) returns (token: string)
      requires Valid()
      requires newToken != ""
      modifies this
      ensures Valid()
      ensures usr in old(users) && old(users)[usr].token != "" ==>
        token == old(users)[usr].token && users == old(users)
      ensures usr in old(users) && old(users)[usr].token == "" ==>
        token == newToken && users == old(users)[usr := old(users)[usr].(token := newToken)]
      ensures usr !in old(users) ==> token == "" && users == old(users)
      ensures usr in users ==> token == users[usr].token
      ensures tokens == old(tokens) && pendingRequests == old(pendingRequests)
      ensures authRequired == old(authRequired) && localAuthRequired == old(localAuthRequired)
      ensures localAdminAuthRequired == old(localAdminAuthRequired) && uuid == old(uuid)
    {
      if usr !in users {
        token := "";
      } else if users[usr].token == "" {
        users := users[usr := users[usr].(token := newToken)];
        token := newToken;
      } else {
        token := users[usr].token;
      }
    }

    /** Back to the factory password, with a newly generated token. */
    method ResetHyperionUser(newToken: string) returns (ok: bool)
      requires Valid()
      requires newToken != ""
      requires DefaultUser in users ==> newToken != users[DefaultUser].token
      modifies this
      ensures Valid()
      ensures ok
      ensures UserAuthorized(users, DefaultUser, DefaultPassword)
      ensures users[DefaultUser].token == newToken
      ensures DefaultUser in old(users) ==> users[DefaultUser].token != old(users)[DefaultUser].token
      ensures forall u :: u != DefaultUser ==> (u in users <==> u in old(users))
      ensures forall u :: u != DefaultUser && u in users ==> users[u] == old(users)[u]
      ensures tokens == old(tokens) && pendingRequests == old(pendingRequests)
      ensures authRequired == old(authRequired) && localAuthRequired == old(localAuthRequired)
      ensures localAdminAuthRequired == old(localAdminAuthRequired) && uuid == old(uuid)
    {
      var lastUse := if DefaultUser in users then users[DefaultUser].lastUse else "";
      users := users[DefaultUser := UserRecord(DefaultPassword, newToken, lastUse)];
      ok := true;
    }

    /** A token issued at once for a trusted caller, bypassing the request workflow. */
    method CreateToken(comment: string, newId: string, newToken: string) returns (def: AuthDefinition)
      requires Valid()
      requires newToken != ""
      requires newId !in tokens
      requires !TokenIssued(tokens, newToken)
      modifies this
      ensures Valid()
      ensures def.id == newId && def.comment == comment && def.token == newToken
      ensures tokens == old(tokens)[newId := def]
      ensures TokenIssued(tokens, newToken)
      ensures pendingRequests == old(pendingRequests) && users == old(users)
      ensures authRequired == old(authRequired) && localAuthRequired == old(localAuthRequired)
      ensures localAdminAuthRequired == old(localAdminAuthRequired) && uuid == old(uuid)
    {
      def := AuthDefinition(newId, comment, NoCaller, 0, newToken, "");
      tokens := tokens[newId := def];
      assert tokens[newId].token == newToken;
    }

    method IsUserAuthorized(user: string, pw: string) returns (ok: bool)
      ensures ok == UserAuthorized(users, user, pw)
    {
      ok := UserAuthorized(users, user, pw);
    }

    /** A token is accepted when some entry carries it; that entry's last use is refreshed. */
    method IsTokenAuthorized(token: string, now: string) returns (ok: bool)
      requires Valid()
      modifies this
      ensures Valid()
      ensures ok == TokenIssued(old(tokens), token)
      ensures ok ==> token != ""
      ensures tokens.Keys == old(tokens).Keys
      ensures forall id :: id in tokens ==>
        tokens[id] == if old(tokens)[id].token == token then old(tokens)[id].(lastUse := now)
                      else old(tokens)[id]
      ensures pendingRequests == old(pendingRequests) && users == old(users)
      ensures authRequired == old(authRequired) && localAuthRequired == old(localAuthRequired)
      ensures localAdminAuthRequired == old(localAdminAuthRequired) && uuid == old(uuid)
    {
      ok := TokenIssued(tokens, token);
      tokens := map id | id in tokens ::
        if tokens[id].token == token then tokens[id].(lastUse := now) else tokens[id];
    }

    /** A user's token is accepted when the user has been issued a token and
        this is it; its last use is refreshed. A user without a token accepts none. */
    method IsUserTokenAuthorized(usr: string, token: string, now: string) returns (ok: bool)
      requires Valid()
      modifies this
      ensures Valid()
      ensures ok == (usr in old(users) && old(users)[usr].token != "" && old(users)[usr].token == token)
      ensures ok ==> token != ""
      ensures ok ==> users == old(users)[usr := old(users)[usr].(lastUse := now)]
      ensures !ok ==> users == old(users)
      ensures tokens == old(tokens) && pendingRequests == old(pendingRequests)
      ensures authRequired == old(authRequired) && localAuthRequired == old(localAuthRequired)
      ensures localAdminAuthRequired == old(localAdminAuthRequired) && uuid == old(uuid)
    {
      ok := usr in users && users[usr].token != "" && users[usr].token == token;
      if ok {
        users := users[usr := users[usr].(lastUse := now)];
      }
    }

    /** Change a password, which succeeds only when the current one verifies;
        existing tokens stay valid. */
    method UpdateUserPassword(user: string, pw: string, newPw: string) returns (ok: bool)
      requires Valid()
      modifies this
      ensures Valid()
      ensures ok == UserAuthorized(old(users), user, pw)
      ensures !ok ==> users == old(users)
      ensures ok ==> users == old(users)[user := old(users)[user].(password := newPw)]
      ensures ok ==> UserAuthorized(users, user, newPw)
      ensures ok && newPw != pw ==> !UserAuthorized(users, user, pw)
      ensures forall u :: u != user ==> (UserAuthorized(users, u, pw) <==> UserAuthorized(old(users), u, pw))
      ensures tokens == old(tokens) && pendingRequests == old(pendingRequests)
      ensures authRequired == old(authRequired) && localAuthRequired == old(localAuthRequired)
      ensures localAdminAuthRequired == old(localAdminAuthRequired) && uuid == old(uuid)
    {
      ok := IsUserAuthorized(user, pw);
      if ok {
        users := users[user := users[user].(password := newPw)];
      }
    }

    /** Register a request under the caller's id (replacing any earlier one
        with that id), due to time out `requestLifetime` after `now`, and
        announce it. */
    method SetNewTokenRequest(caller: Caller, comment: string, id: string, now: nat)
      returns (signals: seq<Signal>)
      requires Valid()
      modifies this
      ensures Valid()
      ensures id in pendingRequests
      ensures pendingRequests[id] == AuthDefinition(id, comment, caller, now + requestLifetime, "", "")
      ensures forall k :: k != id ==> (k in pendingRequests <==> k in old(pendingRequests))
      ensures forall k :: k != id && k in pendingRequests ==> pendingRequests[k] == old(pendingRequests)[k]
      ensures signals == [NewPendingTokenRequest(id, comment)]
      ensures tokens == old(tokens) && users == old(users)
      ensures authRequired == old(authRequired) && localAuthRequired == old(localAuthRequired)
      ensures localAdminAuthRequired == old(localAdminAuthRequired) && uuid == old(uuid)
    {
      pendingRequests := pendingRequests[id := AuthDefinition(id, comment, caller, now + requestLifetime, "", "")];
      signals := [NewPendingTokenRequest(id, comment)];
    }

    /** Accept a pending request: it leaves the registry, its token is stored,
        and its requester is told the token. False if the id is not pending. */
    method AcceptTokenRequest(id: string, newToken: string) returns (ok: bool, signals: seq<Signal>)
      requires Valid()
      requires newToken != ""
      requires !TokenIssued(tokens, newToken)
      modifies this
      ensures Valid()
      ensures ok == (id in old(pendingRequests))
      ensures !ok ==> unchanged(this) && signals == []
      ensures ok ==>
        var r := Resolve(old(pendingRequests), id, true, newToken);
        && pendingRequests == r.remaining
        && signals == [r.response]
        && tokens == old(tokens)[id := AuthDefinition(id, old(pendingRequests)[id].comment, NoCaller, 0, newToken, "")]
      ensures ok ==> TokenIssued(tokens, newToken)
      ensures users == old(users)
      ensures authRequired == old(authRequired) && localAuthRequired == old(localAuthRequired)
      ensures localAdminAuthRequired == old(localAdminAuthRequired) && uuid == old(uuid)
    {
      signals := [];
      ok := id in pendingRequests;
      if ok {
        var def := pendingRequests[id];
        pendingRequests := pendingRequests - {id};
        tokens := tokens[id := AuthDefinition(id, def.comment, NoCaller, 0, newToken, "")];
        assert tokens[id].token == newToken;
        signals := [TokenResponse(true, def.caller, newToken, def.comment, id)];
      }
    }

    /** Deny a pending request: it leaves the registry and its requester is
        told, with no token. False if the id is not pending. */
    method DenyTokenRequest(id: string) returns (ok: bool, signals: seq<Signal>)
      requires Valid()
      modifies this
      ensures Valid()
      ensures ok == (id in old(pendingRequests))
      ensures !ok ==> unchanged(this) && signals == []
      ensures ok ==>
        var r := Resolve(old(pendingRequests), id, false, "");
        pendingRequests == r.remaining && signals == [r.response]
      ensures tokens == old(tokens) && users == old(users)
      ensures authRequired == old(authRequired) && localAuthRequired == old(localAuthRequired)
      ensures localAdminAuthRequired == old(localAdminAuthRequired) && uuid == old(uuid)
    {
      signals := [];
      ok := id in pendingRequests;
      if ok {
        var def := pendingRequests[id];
        pendingRequests := pendingRequests - {id};
        signals := [TokenResponse(false, def.caller, "", def.comment, id)];
      }
    }

    /** A copy of the pending requests, keyed by id. */
    method GetPendingRequests() returns (requests: map<string, AuthDefinition>)
      ensures requests == pendingRequests
    {
      requests := pendingRequests;
    }

    /** Delete a stored token entry; false if there is none with that id. */
    method DeleteToken(id: string) returns (ok: bool)
      requires Valid()
      modifies this
      ensures Valid()
      ensures ok == (id in old(tokens))
      ensures tokens == old(tokens) - {id}
      ensures ok ==> !TokenIssued(tokens, old(tokens)[id].token)
      ensures pendingRequests == old(pendingRequests) && users == old(users)
      ensures authRequired == old(authRequired) && localAuthRequired == old(localAuthRequired)
      ensures localAdminAuthRequired == old(localAdminAuthRequired) && uuid == old(uuid)
    {
      ok := id in tokens;
      tokens := tokens - {id};
    }

    /** The timer tick: every request whose deadline has been reached is
        removed and its requester is told it was denied, once. */
    method CheckTimeout(now: nat) returns (signals: seq<Signal>)
      requires Valid()
      modifies this
      ensures Valid()
      ensures pendingRequests == Sweep(old(pendingRequests), now)
      ensures forall s :: s in signals <==> s in SweepResponses(old(pendingRequests), now)
      ensures forall i, j :: 0 <= i < j < |signals| ==> signals[i] != signals[j]
      ensures tokens == old(tokens) && users == old(users)
      ensures authRequired == old(authRequired) && localAuthRequired == old(localAuthRequired)
      ensures localAdminAuthRequired == old(localAdminAuthRequired) && uuid == old(uuid)
    {
      var remaining;
      remaining, signals := SweepPending(pendingRequests, now);
      pendingRequests := remaining;
    }

    /** A network settings update replaces the three flags; a missing field
        falls back to its baseline (required, not required locally, required
        for local administration). Other settings are ignored. */
    method HandleSettingsUpdate(settingsType: SettingsType, config: JsonObject)
      requires Valid()
      modifies this
      ensures Valid()
      ensures settingsType != NetworkSettings ==> unchanged(this)
      ensures settingsType == NetworkSettings ==>
        && authRequired == ToBool(Field(config, "authRequired"), true)
        && localAuthRequired == ToBool(Field(config, "localAuthRequired"), false)
        && localAdminAuthRequired == ToBool(Field(config, "localAdminAuthRequired"), true)
      ensures tokens == old(tokens) && users == old(users) && pendingRequests == old(pendingRequests)
      ensures uuid == old(uuid)
    {
      if settingsType == NetworkSettings {
        authRequired := ToBool(Field(config, "authRequired"), true);
        localAuthRequired := ToBool(Field(config, "localAuthRequired"), false);
        localAdminAuthRequired := ToBool(Field(config, "localAdminAuthRequired"), true);
      }
    }
  }

  /** The request lifecycle from a caller's point of view: submit, see it
      pending, accept it, and find that it can be resolved only once. */
  method TokenRequestLifecycle(caller: Caller, newToken: string)
    requires newToken != ""
  {
    var m := new AuthManager("install-id", map[], map[], 5000);
    var announced := m.SetNewTokenRequest(caller, "phone", "r1", 0);
    assert announced == [NewPendingTokenRequest("r1", "phone")];
    var pending := m.GetPendingRequests();
    assert pending.Keys == {"r1"} && pending["r1"].comment == "phone";
    assert m.tokens == map[];
    var accepted, replies := m.AcceptTokenRequest("r1", newToken);
    assert accepted && replies == [TokenResponse(true, caller, newToken, "phone", "r1")];
    pending := m.GetPendingRequests();
    assert "r1" !in pending;
    var again, none := m.DenyTokenRequest("r1");
    assert !again && none == [];
  }

  /** A request nobody answers is kept until its deadline, then denied once. */
  method TokenRequestTimeout(caller: Caller)
  {
    var m := new AuthManager("install-id", map[], map[], 5000);
    var _ := m.SetNewTokenRequest(caller, "tv", "r2", 0);
    assert m.pendingRequests.Keys == {"r2"};
    var early := m.CheckTimeout(4999);
    assert m.pendingRequests.Keys == {"r2"};
    assert forall s :: s !in early;
    var expired := m.CheckTimeout(5000);
    var denial := TokenResponse(false, caller, "", "tv", "r2");
    assert denial in expired && forall s :: s in expired ==> s == denial;
    assert "r2" !in m.pendingRequests;
  }
}
