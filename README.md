# Hyperion authorization manager and UDP colour listener, in Dafny

This project models two parts of the Hyperion ambient-light daemon.

**`AuthManager`** (module `Auth`, file `auth_manager.dfy`) authorizes users and API tokens. It also runs a workflow for token requests. A remote caller submits a request under an id of its choosing. An administrator later accepts the request, which issues a token, or denies it. A periodic timer expires requests whose deadline has passed. The manager also holds the installation id and three "authorization required" flags that the network settings control.

The model is a class `AuthManager` with these fields:
- the pending-request map;
- the three flags;
- the installation id;
- an abstract auth table, made of user rows by name and token rows by id.

The pure functions `Resolve`, `Sweep` and `SweepResponses` define what resolving a request and sweeping timeouts do to the pending map. The class methods are proved against them, and the lemmas prove that a request is answered at most once.

**`UDPListener`** (module `Udp`, file `udp_listener.dfy`) receives raw colour frames over UDP and hands them to the engine. It can also be switched on and off.
- `ProcessTheDatagram` fills a preallocated array of LED colours in a loop, as the source does.
- It is proved equal to `Frame`, a reference decoder that reads the datagram as a stream of byte triples.
- `FrameLayout` proves that `Frame` gives one colour per LED. LED `i` takes bytes `3i`, `3i+1` and `3i+2` when the packet covers it, and is black otherwise.
- The active/inactive toggle (`Start`, `Stop`, `ComponentStateChanged`, `HandleSettingsUpdate`) is a class whose methods state the new state and the engine calls they make.

Module `Json` (file `json.dfy`) models the QJsonObject lookups that both settings handlers use. A missing key reads as undefined, and `toBool`, `toInt` and `toString` fall back to the default given to them.

Inputs that stand for the outside world:
- the current time (`now`);
- whether the socket bind succeeds (`bindOk`);
- the engine's LED count;
- the requesting object (an opaque `Caller` handle);
- generated tokens and ids.

Signals (`newPendingTokenRequest`, `tokenResponse`) and calls into the engine (`registerPriority`, `setColors`, …) are returned as values.

Only the header of `AuthManager` is part of this model; `AuthManager.cpp` is not. The behaviour of its members therefore follows the header's declarations and doc comments. These choices fill the gaps:
- Submitting a request under an id that is already pending replaces the earlier request. This is what assigning into a `QMap` does.
- A request's deadline is `now + requestLifetime`. The lifetime is a constant of the manager, fixed when it is constructed.
- A request has expired once `timeoutTime <= now`.
- The network settings are read from the fields `authRequired`, `localAuthRequired` and `localAdminAuthRequired`. A missing field falls back to `true`, `false` and `true` respectively. Settings of any other type are ignored.
- `getUserToken` issues a token to a user who has none yet (an empty token), stores it and returns it. Later calls return the same token. For an unknown user it returns the empty string, because there is no row to store a token in.
- Token generation always yields a non-empty string, so the token methods require `newToken != ""`. A stored token entry never carries an empty token, and no two entries carry the same token, so a token names exactly one entry.
- Generated values are fresh. `createToken` gets an id that is not yet in the table and a token that no entry carries. `acceptTokenRequest` also gets a token that no entry carries. `resetHyperionUser` gets a token that differs from the administrative account's current one.
- A user's own token and API tokens are held and checked separately. A user row carries the user's token, which `getUserToken` and `resetHyperionUser` set and `isUserTokenAuthorized` checks. Token rows carry API tokens, which `createToken` and accepted requests add and `isTokenAuthorized` checks. `isTokenAuthorized` consults only the token rows and `isUserTokenAuthorized` only the user rows. Freshness of a generated token is assumed only within the store it goes into, so the same string held in both stores passes both checks. A user who has not been issued a token yet (empty token) accepts no token at all.
- Accepting a request stores its token under the request's id. That id is chosen by the caller, so if the table already holds an entry under it, accepting replaces that entry and its old token stops authorizing.

The port the listener binds to is never configured. `_listenPort` is initialised to 0 (UDPListener.cpp:28), and `handleSettingsUpdate` (lines 144-154) reads no port. So `start` binds port 0, which lets the system pick an arbitrary free port, and the Bonjour registration announces port 0. `Create` proves `listenPort == 0`, and `HandleSettingsUpdate` keeps the port unchanged.

## Model

| member | source | states |
|---|---|---|
| `Auth.AuthManager.constructor` | include/hyperion/AuthManager.h:22-23 | opens over the stored id and an auth table whose tokens are non-empty and distinct, with no pending requests; auth required and local admin auth required, local auth not required |
| `Auth.AuthManager.GetID` | include/hyperion/AuthManager.h:35-39 | returns the stored installation id and changes nothing |
| `Auth.AuthManager.GetTokenList` | include/hyperion/AuthManager.h:41-44 | lists every stored token entry exactly once: the list has as many entries as the table, no entry appears twice, and an entry is listed iff it is stored |
| `Auth.AuthManager.IsAuthRequired` | include/hyperion/AuthManager.h:46-50 | returns the global auth flag and changes nothing |
| `Auth.AuthManager.IsLocalAuthRequired` | include/hyperion/AuthManager.h:52-56 | returns the local-network auth flag and changes nothing |
| `Auth.AuthManager.IsLocalAdminAuthRequired` | include/hyperion/AuthManager.h:58-62 | returns the local admin auth flag and changes nothing |
| `Auth.AuthManager.HasHyperionDefaultPw` | include/hyperion/AuthManager.h:64-68 | true exactly when user "Hyperion" is authorized with password "hyperion" |
| `Auth.AuthManager.GetUserToken` | include/hyperion/AuthManager.h:70-75 | returns the user's current token, with "Hyperion" as the default argument; a user with no token yet is issued the new token, which is stored, so later calls return it again; empty for an unknown user, with nothing changed |
| `Auth.AuthManager.ResetHyperionUser` | include/hyperion/AuthManager.h:77-81 | succeeds; afterwards "Hyperion" verifies with the factory password and holds the newly generated token, so its previous token no longer matches; other users, tokens and pending requests are unchanged |
| `Auth.AuthManager.CreateToken` | include/hyperion/AuthManager.h:83-88 | stores and returns an entry with the given comment, a fresh id and a fresh token, which is then authorized; existing entries and the pending requests are untouched |
| `Auth.AuthManager.IsUserAuthorized` | include/hyperion/AuthManager.h:90-96 | true iff the user exists and the password verifies; an unknown user and a wrong password give the same answer |
| `Auth.AuthManager.IsTokenAuthorized` | include/hyperion/AuthManager.h:98-103 | true iff some stored entry carries the token, so never for the empty token; exactly the entries carrying it get their last use refreshed |
| `Auth.AuthManager.IsUserTokenAuthorized` | include/hyperion/AuthManager.h:105-111 | true iff the user has been issued a token and this is it, so never for the empty token; on success only that user's last use changes |
| `Auth.AuthManager.UpdateUserPassword` | include/hyperion/AuthManager.h:113-120 | succeeds iff the current password verifies; on failure nothing changes; on success the new password verifies, the old one no longer does when it differs, and other users are unaffected |
| `Auth.AuthManager.SetNewTokenRequest` | include/hyperion/AuthManager.h:122-128 | afterwards exactly one entry is pending under the id, with that caller and comment, no token and the deadline `now + requestLifetime`; other ids are unchanged; emits `newPendingTokenRequest(id, comment)` |
| `Auth.AuthManager.AcceptTokenRequest` | include/hyperion/AuthManager.h:130-135 | false with no change and no signal when the id is not pending; otherwise true, the request leaves the pending map, its fresh token is stored and authorized, and `tokenResponse(true, caller, token, comment, id)` is emitted once |
| `Auth.AuthManager.DenyTokenRequest` | include/hyperion/AuthManager.h:137-142 | false with no change and no signal when the id is not pending; otherwise true, the request leaves the pending map and `tokenResponse(false, caller, "", comment, id)` is emitted once |
| `Auth.AuthManager.GetPendingRequests` | include/hyperion/AuthManager.h:144-148 | returns a snapshot equal to the pending map and changes nothing |
| `Auth.AuthManager.DeleteToken` | include/hyperion/AuthManager.h:150-155 | true iff an entry with that id was stored; afterwards none is, and the deleted token no longer authorizes, since no other entry carries it |
| `Auth.AuthManager.HandleSettingsUpdate` | include/hyperion/AuthManager.h:162-168 | a network settings update replaces all three flags, with missing fields falling back to true/false/true; other updates change nothing |
| `Auth.AuthManager.CheckTimeout` | include/hyperion/AuthManager.h:210-217 | leaves exactly the requests whose deadline is still ahead; emits one denial with an empty token per expired request, each once, and nothing else |
| `Auth.SweepPending` | include/hyperion/AuthManager.h:210-217 | the sweep loop visits each pending request once: what it keeps is `Sweep`, and what it sends is `SweepResponses`, without duplicates |
| `Auth.Resolve` | include/hyperion/AuthManager.h:130-142 | not found iff the id is not pending; otherwise only that id leaves the map, and the reply carries accept/deny, the request's caller, comment and id, and a token only on accept |
| `Auth.Sweep` | include/hyperion/AuthManager.h:210-217 | an entry survives a sweep iff its `timeoutTime` is still ahead, and survivors are unchanged |
| `Auth.SweepResponsesAreDenials` | include/hyperion/AuthManager.h:178-186 | an expired request's reply is the reply a deny would give it, and every timeout reply is a failure without a token |
| `Auth.SweepSettles` | include/hyperion/AuthManager.h:210-217 | a second sweep at the same time removes nothing and answers no one; a later sweep subsumes an earlier one |
| `Auth.SweepNotifiesEachExpiredOnce` | include/hyperion/AuthManager.h:210-217 | a sweep sends as many replies as it removes requests |
| `Auth.ResolvedAtMostOnce` | include/hyperion/AuthManager.h:130-148 | after an accept or deny, a second accept or deny of the same id is not found, and no later sweep replies to that id |
| `Udp.FrameLayout` | libsrc/udplistener/UDPListener.cpp:128-139 | a decoded frame has exactly the engine's LED count of colours; LED `i` is bytes `3i..3i+2` when `i < size/3`, and black otherwise |
| `Udp.TrailingBytesIgnored` | libsrc/udplistener/UDPListener.cpp:128 | one or two bytes after the last whole triple do not change the frame |
| `Udp.ExcessTriplesIgnored` | libsrc/udplistener/UDPListener.cpp:132-134 | triples beyond the engine's LED count do not change the frame |
| `Udp.UdpListener.ProcessTheDatagram` | libsrc/udplistener/UDPListener.cpp:126-142 | sends the engine the reference decoding of the datagram on the listener's priority and timeout, tagged with the UDP listener component and the sender |
| `Udp.UdpListener.ReadPendingDatagrams` | libsrc/udplistener/UDPListener.cpp:110-123 | sends one decoded frame per pending datagram, in arrival order |
| `Udp.UdpListener.constructor` | libsrc/udplistener/UDPListener.cpp:19-29 | a new listener is inactive, with priority, timeout and port 0 |
| `Udp.UdpListener.Create` | libsrc/udplistener/UDPListener.cpp:19-35 | constructing a listener applies its whole configuration: priority, timeout, address and sharing are taken from it with the same defaults as `HandleSettingsUpdate`, and the port stays 0; it is active iff enabled and the bind succeeds, and only then registers its priority |
| `Udp.UdpListener.Start` | libsrc/udplistener/UDPListener.cpp:46-78 | a no-op when already active; on a failed bind it stays inactive and reports nothing; otherwise it becomes active, registers its priority and reports itself enabled; configuration fields are unchanged |
| `Udp.UdpListener.Stop` | libsrc/udplistener/UDPListener.cpp:80-89 | a no-op when inactive; otherwise it becomes inactive, unregisters its priority and reports itself disabled |
| `Udp.UdpListener.ComponentStateChanged` | libsrc/udplistener/UDPListener.cpp:91-102 | acts only for the UDP listener component and only when the requested state differs from the current one; then it starts or stops |
| `Udp.UdpListener.HandleSettingsUpdate` | libsrc/udplistener/UDPListener.cpp:144-154 | takes priority, timeout (default 10000), address (empty means any IPv4) and sharing from the settings; always stops, then starts iff enabled, so it ends active iff enabled and bound |
| `Udp.UdpListener.Destroy` | libsrc/udplistener/UDPListener.cpp:37-43 | stops if active, then clears the priority channel the listener held when destroyed; its configuration is unchanged |

## Left out

- Database access of the auth and meta tables is left out. The tables are abstract maps, so a store failure at run time is not modelled and `ResetHyperionUser` always succeeds.
- Password hashing is left out. A user's password stands for its verification material.
- Random token, id and UUID generation is left out. Generated values are parameters of the methods that use them.
- The QTimer that drives `checkTimeout`, and its start and stop, are left out. `CheckTimeout` takes the current time as a parameter.
- The static singleton `AuthManager::manager` / `getInstance` is left out; it is only a global accessor.
- Qt signal dispatch is left out. Signals are returned to the caller instead of being broadcast.
- Auth.AuthManager.CheckTimeout: does not fix the order of the replies. The source walks its map in key order; the model visits the keys in an arbitrary order and states the replies as a set without duplicates.
- Auth.SweepPending: does not fix the order of the replies either, for the same reason.
- Auth.AuthManager.GetTokenList: does not fix the order of the list, which the database query decides.
- Socket I/O in the UDP listener is left out: binding, closing, the multicast join for addresses in 224.0.0.0/4, and reading datagrams. The bind outcome is an input, and pending datagrams are a sequence.
- Bonjour service registration on the first successful start is left out; it is network announcement only.
- `getPort` is left out, because it reads the socket's bound port.
- Udp.UdpListener.Create: the source constructor reads the configuration itself. Dafny constructors cannot return the engine calls it makes, so `Create` allocates with the constructor and then calls `HandleSettingsUpdate`.
- The engine itself is left out. This covers its priority muxer, component register, LED count and `clear`. The LED count is a parameter, and engine calls are returned as `EngineCall` values.
- Logging is left out throughout.
- QJSON numbers are modelled as integers. A non-integral number given for `priority` or `timeout` is not modelled.
