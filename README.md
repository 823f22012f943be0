# loytra core, modelled in Dafny

This project models the core of loytra. loytra installs and runs "loytra
modules": Python packages that bring systemd user services, packagers that
install their dependencies, and a websocket broker for their APIs.

**The topic/data websocket broker.** `WSTDServerBase` and its method layer
`WSTDApiServer` are the main part:
- The broker keeps two registries: clients (`_clients`) and sockets (`_wsrefs`).
  Each socket has its own tunnel-id → client-id table and an `is_tunnel` flag.
- It authorizes and de-authorizes clients.
- It routes direct, tunnel and broadcast sends.
- It reads frames off a socket and tears the socket down when the connection ends.
- The method layer dispatches incoming topics to prefix handlers and sends their
  automatic responses.

**The smaller helpers:**
- the simulated API client (`dmapi_client.py`): matching, app-topic parsing,
  reply selection and definition parsing;
- the CLI's packager path lookup, packager listing, URL normalisation and
  `module/name` splitting;
- the packager tree (`Packager`, `PackagerGroup`, `MultiPackager`), the env-file
  line editor of `PackagerExecToPath`, and the name split of `PackagerRepoPacman`;
- the systemd unit generator and the `logs` command of `Servicer`;
- module discovery: parsing a module file's export, sorting, keying by name, and
  the file paths;
- the `LoytraModule` constructor;
- the service runner's command line and its argv dispatch.

Files (one Dafny module each):

| file | module | models |
|---|---|---|
| wstd_model.dfy | WsModel | broker state, message shapes, specification functions, registry invariant |
| wstd_server_base.dfy | WsServerBase | the broker class `Broker` (`WSTDServerBase`) |
| wstd_api_server.dfy | WsApiServer | `WebsocketMessageResponse` and the class `ApiServer` (`WSTDApiServer`) |
| dmapi_client.dfy | DmapiClient | the simulated API client |
| cli_actions.dfy | CliActions | the modelled helpers of `LoytraCliActions` |
| packager.dfy | Packagers | the packager tree and the env-file editor |
| servicer.dfy | Servicers | `Servicer` settings, unit file generation, `logs` |
| module_finder.dfy | ModuleFinder | module discovery and ordering |
| module_spec.dfy | ModuleSpecs | `LoytraModule` |
| service_runner.dfy | ServiceRunner | the service runner |
| stable_sort.dfy | StableSorts | a stable sort by integer key (Python's `sorted` with `key=`) |
| dicts.dfy | Dicts | insertion-ordered dictionaries (Python `dict`) |
| strs.dfy | Strs | the Python `str` operations used |
| values.dfy | Values | decoded JSON/msgpack values |
| wrappers.dfy | Wrappers | `Option`, and `Outcome` (returns or raises) |

Modelling choices:
- **Dicts.** A Python dict is a key sequence plus a map. Its iteration order
  matters: it fixes the order of broadcast writes, of disconnect callbacks and of
  handler calls.
- **Booleans.** Python `True`/`False` compare equal to `1`/`0`, so a decoded value
  represents them as the integers 1 and 0.
- **Socket writes.** A socket write is appended to a ghost `outbox`. Whether it
  goes through is given by a `Transport` function parameter.
- **Callbacks.** Every awaited hook is appended to a ghost `hooks` log. The method
  layer turns hooks into listener calls. The value a handler returns is given by
  a `Behaviour` function parameter.
- **Fresh ids.** `secrets.token_hex(6)` becomes a choice of any non-empty id not
  yet registered.

## Model

| member | source | states |
|---|---|---|
| WsServerBase.Broker.constructor | loytra_libs/websocket/wstd_server_base.py:49-74 | both registries start empty; host is "" when remote connections are allowed, else 127.0.0.1 |
| WsServerBase.Broker.GetConnectedClients | loytra_libs/websocket/wstd_server_base.py:110-115 | the listing is `Listed` over the clients in registration order |
| WsModel.ListedMembers | loytra_libs/websocket/wstd_server_base.py:110-115 | a client is listed iff it is registered and either is not the "@" controller or controllers are included; each entry carries its intent and info |
| WsServerBase.Broker.GetConnectedTunnelControllers | loytra_libs/websocket/wstd_server_base.py:117-122 | the listing is `ControllersListed` over the clients in order |
| WsModel.ControllersMembers | loytra_libs/websocket/wstd_server_base.py:117-122 | the controllers listed are exactly the registered clients whose tunnel id is "@" |
| WsServerBase.Broker.GetClient | loytra_libs/websocket/wstd_server_base.py:124-128 | None iff the id is unknown, otherwise its (intent, info) |
| WsServerBase.Broker.ClientCount | loytra_libs/websocket/wstd_server_base.py:130-138 | the count equals the length of the matching `get_connected_clients` listing |
| WsModel.ListedCounts | loytra_libs/websocket/wstd_server_base.py:130-138 | non-controllers plus controllers make up every client; with controllers included the count is the registry size |
| WsServerBase.Broker.SendSocketMessage | loytra_libs/websocket/wstd_server_base.py:140-172 | exactly one write is appended; the result is whether it went through (false when the send raises) |
| WsModel.OutboundMessageShape | loytra_libs/websocket/wstd_server_base.py:148-157 | `extra` keys first, then topic and data override them; `_tid_` is present iff the socket is a tunnel and the id is not "_" |
| WsServerBase.Broker.SendTunnelMessage | loytra_libs/websocket/wstd_server_base.py:174-186 | one tagged write per tunnel socket in order; true iff there is one and every write went through |
| WsServerBase.Broker.SendToTunnelSocket | loytra_libs/websocket/wstd_server_base.py:176-185 | a tunnel socket gets one write tagged with the target's id; a direct socket gets none |
| WsModel.TunnelWritesShape | loytra_libs/websocket/wstd_server_base.py:174-186 | there are writes iff some socket is a tunnel, and each write goes to a tunnel socket |
| WsModel.TunnelTargetTag | loytra_libs/websocket/wstd_server_base.py:178-185 | ALL sends no `_tid_`; CONTROLLER sends "@"; CLIENTS sends "*" |
| WsServerBase.Broker.SendClientMessage | loytra_libs/websocket/wstd_server_base.py:188-195 | false with no write for an unknown client or socket, otherwise the outcome of its single write |
| WsModel.ClientWritesRegistered | loytra_libs/websocket/wstd_server_base.py:188-195 | for a registered client, one write to its own socket under its own tunnel id |
| WsServerBase.Broker.SendBroadcastMessage | loytra_libs/websocket/wstd_server_base.py:197-220 | the writes are the per-socket broadcasts, in socket registration order |
| WsServerBase.Broker.BroadcastToSocket | loytra_libs/websocket/wstd_server_base.py:198-220 | one socket's writes equal `SocketBroadcast` |
| WsServerBase.Broker.BroadcastDirect | loytra_libs/websocket/wstd_server_base.py:199-203 | one untagged write per registered client of the table that matches the filter, in table order |
| WsServerBase.Broker.SendIfMatches | loytra_libs/websocket/wstd_server_base.py:200-203 | a write happens exactly when the client is registered and matches the filter |
| WsModel.DirectTargets | loytra_libs/websocket/wstd_server_base.py:199-203 | the targets are exactly the registered table clients that match the filter |
| WsModel.DirectSocketBroadcast | loytra_libs/websocket/wstd_server_base.py:199-203 | a direct socket gets untagged writes, one per matching registered client |
| WsModel.DirectTargetsFound | loytra_libs/websocket/wstd_server_base.py:199-203 | a direct socket gets a write iff some registered client of its table matches |
| WsServerBase.Broker.CollectTunnelTargets | loytra_libs/websocket/wstd_server_base.py:205-214 | the targets collected and the bulk flag are `TunnelTargets` and `AllTargeted` of the table |
| WsModel.TunnelTargets | loytra_libs/websocket/wstd_server_base.py:207-212 | the targets are exactly the registered table clients that match the filter or are the controller |
| WsServerBase.Broker.SendToTargets | loytra_libs/websocket/wstd_server_base.py:219-220 | one write per target, tagged with that client's own tunnel id |
| WsModel.EmitEachAt | loytra_libs/websocket/wstd_server_base.py:219-220 | the i-th write goes to the i-th target, tagged with its tunnel id when tagging |
| WsModel.TunnelSocketBulkBroadcast | loytra_libs/websocket/wstd_server_base.py:205-217 | with no filter, or when nobody would miss out, a tunnel socket gets exactly one write, tagged "*" |
| WsModel.TargetedBroadcastHasMisser | loytra_libs/websocket/wstd_server_base.py:205-218 | the bulk write is skipped only under a filter that some registered non-controller fails |
| WsModel.TunnelSocketTargetedBroadcast | loytra_libs/websocket/wstd_server_base.py:205-220 | otherwise one write per matching client or controller, each under its own tunnel id |
| WsServerBase.Broker.SendMessage | loytra_libs/websocket/wstd_server_base.py:222-227 | direct to the client iff a non-empty id is given, otherwise a broadcast under the filter |
| WsModel.DirectSendIgnoresFilter | loytra_libs/websocket/wstd_server_base.py:222-227 | a message addressed to a client ignores the filter and makes at most one write |
| WsServerBase.Broker.FreshClientId | loytra_libs/websocket/wstd_server_base.py:264 | the new id is non-empty and not registered |
| WsServerBase.Broker.Authorize | loytra_libs/websocket/wstd_server_base.py:229-298 | returns false iff the mode guard rejects; the registry invariant holds afterwards; the new state is an `AuthorizeOutcome` |
| WsModel.AuthorizeOutcomeRejected | loytra_libs/websocket/wstd_server_base.py:235-245 | a rejected request changes no registry, write or hook |
| WsModel.AuthorizeOutcomeAccepted | loytra_libs/websocket/wstd_server_base.py:247-298 | an accepted request records the client and maps the tunnel id to it, promotes an empty socket, and awaits the hooks and sends the confirmation as specified |
| WsServerBase.Broker.Accept | loytra_libs/websocket/wstd_server_base.py:256-296 | the accepted branch writes exactly the client record, the socket mapping, the connected/authorized hooks and the confirmation |
| WsModel.AuthorizeOutcomeKeeps | loytra_libs/websocket/wstd_server_base.py:229-298 | after either branch: the registry invariant holds, other sockets and their clients are unchanged, no tunnel socket is demoted, and on acceptance the tunnel id maps to the client |
| WsModel.AuthorizeKeepsRegistry | loytra_libs/websocket/wstd_server_base.py:256-274 | the accepted update keeps every table entry pointing at a client with that socket and tunnel id, and every client reachable from its socket |
| WsModel.AuthorizeKeepsSockets | loytra_libs/websocket/wstd_server_base.py:258-274 | socket side of that invariant, including "_" only on direct sockets and never on tunnel sockets |
| WsModel.AuthorizeKeepsClients | loytra_libs/websocket/wstd_server_base.py:267-274 | client side of that invariant |
| WsModel.AuthorizeKeepsOthers | loytra_libs/websocket/wstd_server_base.py:256-274 | the accepted update touches only its own socket and a client of it (or a fresh one) |
| WsModel.ChosenIdOnlyAt | loytra_libs/websocket/wstd_server_base.py:256-264 | the chosen id is mapped, if anywhere, only at the tunnel id being authorized |
| WsModel.AuthorizeConfirmationAddressed | loytra_libs/websocket/wstd_server_base.py:284-286 | the "_auth_" confirmation `{client_id, intent}` is sent once, on the client's socket, unless the client is the controller |
| WsModel.OneClientPerTunnel | loytra_libs/websocket/wstd_server_base.py:256-274 | under the invariant, two clients with the same socket and tunnel id are the same client |
| WsModel.DirectSocketHoldsOneClient | loytra_libs/websocket/wstd_server_base.py:239-245 | a direct socket holds at most one client |
| WsServerBase.Broker.Deauthorize | loytra_libs/websocket/wstd_server_base.py:300-318 | true iff the tunnel id was mapped on the socket; the invariant holds afterwards; the new state is a `DeauthorizeOutcome` |
| WsModel.DeauthorizeRemovesOnlyTarget | loytra_libs/websocket/wstd_server_base.py:300-318 | only that mapping and that client go; exactly one disconnect hook iff the id was mapped, none otherwise |
| WsModel.DeauthorizeKeepsRegistry | loytra_libs/websocket/wstd_server_base.py:300-318 | de-authorization keeps the registry invariant and unmaps the tunnel id |
| WsModel.DeauthorizeKeepsSockets | loytra_libs/websocket/wstd_server_base.py:303-305 | socket side of that invariant |
| WsModel.DeauthorizeKeepsClients | loytra_libs/websocket/wstd_server_base.py:306-307 | client side of that invariant |
| WsModel.DeauthorizeOutcomeKeeps | loytra_libs/websocket/wstd_server_base.py:300-318 | only its own socket and that socket's clients change, and no tunnel is demoted |
| WsServerBase.Broker.Connect | loytra_libs/websocket/wstd_server_base.py:321-324 | a new, empty, direct socket is registered under a fresh non-empty id |
| WsServerBase.ConnectKeepsRegistry | loytra_libs/websocket/wstd_server_base.py:321-324 | registering it keeps the invariant |
| WsServerBase.Broker.Receive | loytra_libs/websocket/wstd_server_base.py:330-375 | undecodable frames close the loop; non-dict frames and frames without a string topic change nothing; a bad `_tid_` abandons; `_auth_`/`_deauth_` have their outcomes; a data message adds exactly its data hooks and nothing else |
| WsModel.NumericTunnelIdIsBad | loytra_libs/websocket/wstd_server_base.py:345-347 | a frame with a numeric `_tid_` is classified as a bad tunnel id |
| WsModel.AuthThenNumericTunnelId | loytra_libs/websocket/wstd_server_base.py:345-347 | in the connection `_auth_` then `{"topic": "ping", "_tid_": 7}`, the loop stops at the second frame and abandons, after an `_auth_` and no `_deauth_` |
| WsModel.ClassifyOutbound | loytra_libs/websocket/wstd_server_base.py:336-349 | a message the server writes for a tunnelled client reads back as a data message with that tunnel id, topic and data |
| WsModel.StopAt | loytra_libs/websocket/wstd_server_base.py:329-347 | the read loop goes on past every frame before the stopping index and ends at the frame there, if any |
| WsModel.ScanStep | loytra_libs/websocket/wstd_server_base.py:329-347 | a frame that lets the loop go on lies before the stopping frame; the stopping frame is neither `_auth_` nor `_deauth_` |
| WsModel.FlagsStep | loytra_libs/websocket/wstd_server_base.py:350-358 | whether an `_auth_` or a `_deauth_` frame has been read grows by the kind of each frame read |
| WsModel.AuthorizeEngages | loytra_libs/websocket/wstd_server_base.py:229-298 | `_authorize_client` unmaps no tunnel id of the socket, and leaves it holding a client unless it is a tunnel socket that held none |
| WsModel.FrameKeepsGrown | loytra_libs/websocket/wstd_server_base.py:329-375 | a frame other than `_deauth_` keeps every tunnel id of the socket mapped, and an `_auth_` frame leaves it holding a client |
| WsModel.EngagedHoldsClient | loytra_libs/websocket/wstd_server_base.py:256-274 | a socket whose table maps some tunnel id has a registered client on it |
| WsServerBase.Broker.ReceiveGrowing | loytra_libs/websocket/wstd_server_base.py:330-375 | one pass of the loop: the frame's step, only this socket changed, and the socket's clients kept unless the frame is `_deauth_` |
| WsServerBase.Broker.ReceiveFrames | loytra_libs/websocket/wstd_server_base.py:329-378 | the loop goes on iff no frame closes or abandons it, and otherwise ends with the step of the first frame that does; only this socket and its clients change; without a `_deauth_` before the stop, every tunnel id of the socket stays mapped and an `_auth_` leaves a client on it |
| WsServerBase.Broker.Teardown | loytra_libs/websocket/wstd_server_base.py:380-403 | the socket is removed, then each of its clients with one disconnect hook; no client of the socket is left, and no client is added or changed |
| WsModel.RemoveClientsOnlyRemoves | loytra_libs/websocket/wstd_server_base.py:392-403 | removing clients never adds or changes one |
| WsModel.RemoveClientsSpec | loytra_libs/websocket/wstd_server_base.py:392-403 | removing distinct registered ids removes exactly them, with one hook each, in order |
| WsModel.TeardownKeepsRegistry | loytra_libs/websocket/wstd_server_base.py:380-403 | the teardown keeps the registry invariant |
| WsModel.TeardownKeepsSockets | loytra_libs/websocket/wstd_server_base.py:381-382 | the other sockets only point at clients that stay |
| WsModel.TeardownKeepsClients | loytra_libs/websocket/wstd_server_base.py:394-398 | the clients that stay were on other sockets |
| WsServerBase.Broker.Handler | loytra_libs/websocket/wstd_server_base.py:320-405 | the loop ends with the step of the first frame that stops it; the socket stays registered iff that frame has a bad `_tid_`, and then a client registered by an earlier `_auth_` (with no `_deauth_` before the stop) stays as well; otherwise none of its clients is left; other sockets and clients are unchanged; no other socket is registered, and every new client is on this socket |
| WsModel.NothingAddedTrans | loytra_libs/websocket/wstd_server_base.py:329-378 | steps that register nothing but on one socket compose, so every client new over both is on that socket |
| WsModel.AuthorizeAddsNothing | loytra_libs/websocket/wstd_server_base.py:229-298 | `_authorize_client` registers no socket, and its new client is on the requesting socket |
| WsModel.DeauthorizeAddsNothing | loytra_libs/websocket/wstd_server_base.py:300-318 | `_deauthorize_client` only removes |
| WsServerBase.HandlerKeepsOldClients | loytra_libs/websocket/wstd_server_base.py:321-324 | clients registered before the socket existed belong to other sockets |
| WsServerBase.Broker.HandlerWithCleanup | loytra_libs/websocket/wstd_server_base.py:320-405 | with the cleanup also run at a bad `_tid_`, neither the socket nor any of its clients outlives the connection |
| WsServerBase.Broker.Destroy | loytra_libs/websocket/wstd_server_base.py:413-418 | the destroy hook runs, then both registries are empty |
| WsApiServer.ResponseDefaults | loytra_libs/websocket/wstd_api_server.py:5-15 | a response built from data alone has no topic, no broadcast and no filter |
| WsApiServer.JsonTransportIgnored | loytra_libs/websocket/wstd_api_server.py:30 | as written, a JSON server hands the base class msgpack |
| WsApiServer.BaseArgsIntended | loytra_libs/websocket/wstd_api_server.py:19-30 | the intended call keeps debug mode, port and transport, and allows remote connections |
| WsApiServer.ApiServer.constructor | loytra_libs/websocket/wstd_api_server.py:19-39 | stores the listeners and an empty handler table over a broker built with the intended arguments |
| WsApiServer.ApiServer.Method | loytra_libs/websocket/wstd_api_server.py:41-45 | stores the handler under the prefix (replacing an earlier one in place) and returns it unchanged |
| WsApiServer.ApiServer.SetOnClientConnectedListener | loytra_libs/websocket/wstd_api_server.py:47-48 | overwrites that listener only |
| WsApiServer.ApiServer.SetOnClientAuthorizedListener | loytra_libs/websocket/wstd_api_server.py:50-51 | overwrites that listener only |
| WsApiServer.ApiServer.SetOnClientDisconnectedListener | loytra_libs/websocket/wstd_api_server.py:53-54 | overwrites that listener only |
| WsApiServer.ApiServer.SetOnTunnelControllerConnectedListener | loytra_libs/websocket/wstd_api_server.py:56-57 | overwrites that listener only |
| WsApiServer.ApiServer.SetOnTunnelControllerDisconnectedListener | loytra_libs/websocket/wstd_api_server.py:59-60 | overwrites that listener only |
| WsApiServer.ApiServer.SetOnReceiveUnhandledListener | loytra_libs/websocket/wstd_api_server.py:62-63 | overwrites that listener only |
| WsApiServer.ApiServer.OnLifecycle | loytra_libs/websocket/wstd_api_server.py:65-83 | a lifecycle hook calls its listener once when one is set, otherwise nothing |
| WsApiServer.ApiServer.CheckAutoResponse | loytra_libs/websocket/wstd_api_server.py:85-89 | the writes are those of the auto-response send |
| WsApiServer.ReplyReachesSender | loytra_libs/websocket/wstd_api_server.py:85-89 | a non-broadcast response goes back to the sender only, on the response topic or else the inbound one, whatever its filter |
| WsApiServer.BroadcastResponse | loytra_libs/websocket/wstd_api_server.py:85-89 | a broadcast response is a broadcast under its filter; anything that is not a response sends nothing |
| WsApiServer.MatchedPrefixesMembers | loytra_libs/websocket/wstd_api_server.py:93-98 | the matched prefixes are exactly the registered prefixes that start the topic |
| WsApiServer.MatchedPrefixesOrdered | loytra_libs/websocket/wstd_api_server.py:93-98 | the matched prefixes are a subsequence of the table (table order) with no repeats |
| WsApiServer.EmptyPrefixMatchesAll | loytra_libs/websocket/wstd_api_server.py:94-95 | an empty prefix matches every topic |
| WsApiServer.HandlerCallsAt | loytra_libs/websocket/wstd_api_server.py:93-98 | one handler call per matched prefix, each to the handler stored under it |
| WsApiServer.ApiServer.InvokeHandler | loytra_libs/websocket/wstd_api_server.py:96-97 | one handler call, then its response's auto-response writes |
| WsApiServer.ApiServer.RunMatchedHandlers | loytra_libs/websocket/wstd_api_server.py:93-98 | the matched handlers are called in table order, each response is auto-checked, and handled iff one matched |
| WsApiServer.UnhandledIffNothingMatched | loytra_libs/websocket/wstd_api_server.py:100-103 | the fallback runs iff nothing matched and a listener is set, and then it is the only call |
| WsApiServer.RegisteredHandlerRuns | loytra_libs/websocket/wstd_api_server.py:93-98 | a handler registered under a prefix of the topic is called, and the fallback is not |
| WsApiServer.ApiServer.OnMessageReceived | loytra_libs/websocket/wstd_api_server.py:91-103 | the calls are the matched handlers, else the fallback; the writes are their auto-responses |
| WsApiServer.ApiServer.Dispatch | loytra_libs/websocket/wstd_api_server.py:65-103 | a message hook goes to the dispatcher, any other hook to its listener |
| DmapiClient.AllInSpec | loytra_cli/dmapi_sim/dmapi_client.py:60-66 | the list loop is true iff every pattern item occurs in the data |
| DmapiClient.MatchSpec | loytra_cli/dmapi_sim/dmapi_client.py:56-79 | a null pattern matches anything; list against list is containment; dict against dict is key presence with equal values; otherwise equality |
| DmapiClient.MatchReflexive | loytra_cli/dmapi_sim/dmapi_client.py:56-79 | every value matches itself |
| DmapiClient.AppTopicRoundTrip | loytra_cli/dmapi_sim/dmapi_client.py:92-99 | an app topic sent with `/`-free keys parses back to its keys and topic, even when the topic holds `/` |
| DmapiClient.ParsedAppTopicRebuilds | loytra_cli/dmapi_sim/dmapi_client.py:92-99 | a topic that parses is the app topic of what it parses to |
| DmapiClient.HandleMessage | loytra_cli/dmapi_sim/dmapi_client.py:91-99 | only parsed app topics are answered, with the replies to their address |
| DmapiClient.HandleAppMessage | loytra_cli/dmapi_sim/dmapi_client.py:82-89 | the sends are `Replies`: one per responding method, in order |
| DmapiClient.RespondersAnswer | loytra_cli/dmapi_sim/dmapi_client.py:83-89 | every responder is a method of the list that answers; all but possibly the last do not break |
| DmapiClient.RespondersWithoutBreak | loytra_cli/dmapi_sim/dmapi_client.py:83-89 | without a breaking method, every answering method replies |
| DmapiClient.FirstBreakingAnswerIsAlone | loytra_cli/dmapi_sim/dmapi_client.py:88-89 | when the first answering method breaks, it alone replies |
| DmapiClient.GetUrlShape | loytra_cli/dmapi_sim/dmapi_client.py:118-120 | the URL is `ws://` or `wss://` by `use_ssl`, the host, `:`, then exactly `str(port)` (only digits for a port that is not negative), then `/api/websocket` |
| DmapiClient.ParseSpec | loytra_cli/dmapi_sim/dmapi_client.py:131-187 | the loop builds `SpecOf` of the definition |
| DmapiClient.ParseConnAccepted | loytra_cli/dmapi_sim/dmapi_client.py:137-150 | an accepted connection has a non-empty stripped host and API key and a positive port |
| DmapiClient.AcceptedSpecIsValid | loytra_cli/dmapi_sim/dmapi_client.py:131-187 | a missing or non-dict `api` gives None; an accepted spec has a non-empty stripped host and api key and a positive port; its monitor list is the given `monitor` list (empty if missing or not a list), and its methods are those parsed from the `methods` list (none if missing or not a list) |
| DmapiClient.ParsedMethodFields | loytra_cli/dmapi_sim/dmapi_client.py:161-182 | a kept method has a string topic and a stripped reply that defaults to the topic |
| DmapiClient.ParsedMethodsRaises | loytra_cli/dmapi_sim/dmapi_client.py:161-182 | once a method entry raises, the whole parse raises |
| DmapiClient.BreakDefaults | loytra_cli/dmapi_sim/dmapi_client.py:175 | a missing `break` breaks; `break` equal to 0 (False) does not |
| CliActions.ModuleAndNameSpec | loytra_cli/clitool/actions.py:32 | `m/rest` splits at the first `/`; without a `/` the name is empty |
| CliActions.ByNameSpec | loytra_cli/clitool/actions.py:31-67 | a servicer or packager is found iff the module is an installed instance and has that name |
| CliActions.FindInPathSpec | loytra_cli/clitool/actions.py:186-197 | none past the end of the path; none when no packager hits; the first hit decides |
| CliActions.FindRoute | loytra_cli/clitool/actions.py:186-197 | a found packager ends a route of groups named by the path, and is named by its last step |
| CliActions.NoBacktracking | loytra_cli/clitool/actions.py:190-197 | the first same-named group is committed to, even when a later sibling would lead to the packager |
| CliActions.NonEmpty | loytra_cli/clitool/actions.py:202 | the kept segments are all non-empty |
| CliActions.NonEmptySingle | loytra_cli/clitool/actions.py:202 | a single segment is kept iff it is non-empty |
| CliActions.NonEmptyConcat | loytra_cli/clitool/actions.py:202 | filtering a concatenation concatenates the filtered parts, so every non-empty segment is kept, in order |
| CliActions.PathPartsSpec | loytra_cli/clitool/actions.py:202 | a `/`-join of `/`-free segments gives back its non-empty segments in order (all of them when none is empty, so `a//b` and `a/b/` give `a`, `b`); a leading `/` is dropped |
| CliActions.FindModulePackagerInPath | loytra_cli/clitool/actions.py:199-213 | the loop returns `ModulePackager` of the path |
| CliActions.ModulePackagerSpec | loytra_cli/clitool/actions.py:199-213 | an empty path gives (None, None); a found packager comes with its installed-instance module; an installed instance named by the first segment is found |
| CliActions.TraverseSpec | loytra_cli/clitool/actions.py:252-258 | the listing is a preorder listing from the level, whose top-level entries are the packagers in order; each group's entry is followed by its own subtree, whose entries one level down are its children; one entry per packager in the tree |
| CliActions.SubtreesAppend | loytra_cli/clitool/actions.py:252-258 | the listings of consecutive siblings keep each group's subtree |
| CliActions.SubtreesGroup | loytra_cli/clitool/actions.py:254-256 | a group's entry followed by its children's listing has the group's subtree right after it |
| CliActions.EntriesListing | loytra_cli/clitool/actions.py:254-258 | a group's entry is directly followed by its subtree one level down |
| CliActions.UrlFolderNameSpec | loytra_cli/clitool/actions.py:82-85 | for `https://<base>/<repo>` with an optional `/` or `.git`, the URL becomes `<base>/<repo>` and the folder `<repo>` |
| CliActions.SchemeRemoved | loytra_cli/clitool/actions.py:82 | the scheme is removed |
| CliActions.UrlSuffixes | loytra_cli/clitool/actions.py:83-84 | one trailing `.git` then one trailing `/` are removed |
| Packagers.BaseDefaults | loytra_modules/_loytra_packager.py:13-23 | the base packager is never in sync, fails both actions, and has an empty status |
| Packagers.GroupIsSync | loytra_modules/_loytra_packager.py:31-32 | a group is in sync iff all its children are, so an empty group is |
| Packagers.Run | loytra_modules/_loytra_packager.py:34-46 | `sync`/`unsync` return `Result` and make the calls `Calls` |
| Packagers.GroupResult | loytra_modules/_loytra_packager.py:34-46 | a group succeeds iff every child does |
| Packagers.GroupCallsEveryChild | loytra_modules/_loytra_packager.py:34-46 | every child is run, also those after a failure |
| Packagers.MultiIsSync | loytra_modules/_loytra_packager.py:370-374 | a multi-packager is in sync iff one of its packagers is |
| Packagers.Selected | loytra_modules/_loytra_packager.py:381 | the selected index, when the input gives one, is a valid index |
| Packagers.MultiUnsyncOnlySynced | loytra_modules/_loytra_packager.py:386-390 | `unsync` only unsyncs packagers that are in sync |
| Packagers.MultiStatusSplits | loytra_modules/_loytra_packager.py:392-397 | the status splits at the pipe character back into the synced packagers' statuses, in order |
| Packagers.SyncedStatusesSpec | loytra_modules/_loytra_packager.py:392-397 | each joined status is a synced packager's status, and one is present when one is synced |
| Packagers.EditLines | loytra_modules/_loytra_packager.py:96-107 | a missing file is left alone; otherwise the written lines are `Edited`; success is always reported |
| Packagers.Kept | loytra_modules/_loytra_packager.py:100-102 | the surviving lines come from the file |
| Packagers.KeptSpec | loytra_modules/_loytra_packager.py:100-102 | a line survives iff it is in neither list |
| Packagers.KeptTwice | loytra_modules/_loytra_packager.py:100-102 | deleting twice deletes nothing more |
| Packagers.KeptDropsAdded | loytra_modules/_loytra_packager.py:103-104 | appended lines are deleted again by the next edit |
| Packagers.EditIdempotent | loytra_modules/_loytra_packager.py:96-105 | repeating an edit changes nothing more |
| Packagers.ExecToPathSync | loytra_modules/_loytra_packager.py:109-115 | edits the env file with the path line to add, and reports success |
| Packagers.ExecToPathUnsync | loytra_modules/_loytra_packager.py:117-118 | edits the env file with the path line to remove, and reports the edit's success |
| Packagers.SyncLeavesOnePathLine | loytra_modules/_loytra_packager.py:93-110 | after `sync` the path line occurs exactly once, last, after the other lines in order |
| Packagers.UnsyncRemovesPathLine | loytra_modules/_loytra_packager.py:117-118 | after `unsync` no path line is left and every other line stays |
| Packagers.PacmanNames | loytra_modules/_loytra_packager.py:191-192 | the name splits into repo and package iff it holds a `/`; otherwise indexing raises |
| Packagers.PacmanNamesRoundTrip | loytra_modules/_loytra_packager.py:191-192 | `repo/package` with `/`-free parts splits back into them |
| Servicers.NewServicer | loytra_modules/_loytra_servicer.py:28-34 | the name is kept; exec start, description and type become one-element lists holding the given values; environment and pre-start commands are kept as given |
| Servicers.PythonServicerSettings | loytra_modules/_loytra_servicer.py:151-153 | type `notify`, the one environment value `PYTHONUNBUFFERED=true`, no `ExecStartPre`; a plain servicer's type is `simple` |
| Servicers.FirstContaining | loytra_modules/_loytra_servicer.py:46 | the first line containing the field, None iff no line does |
| Servicers.Prefixed | loytra_modules/_loytra_servicer.py:48-49 | one line `field + value` per value |
| Servicers.FileLines.constructor | loytra_modules/_loytra_servicer.py:53 | the lines are a copy of the template |
| Servicers.FileLines.AddFieldValues | loytra_modules/_loytra_servicer.py:44-50 | the new lines are `Filled`; when `pop` raises, the lines are unchanged |
| Servicers.FileLines.InsertValues | loytra_modules/_loytra_servicer.py:47-49 | the value lines land right after the found line, in reverse order |
| Servicers.FilledSpec | loytra_modules/_loytra_servicer.py:44-50 | a field found past line 0 is replaced by its value lines in reverse order; the length grows by the number of values minus one; the lines before and after are unchanged |
| Servicers.FilledQuirks | loytra_modules/_loytra_servicer.py:46-50 | a field found at line 0 drops its values but still loses line 0; a missing field raises |
| Servicers.GenerateService | loytra_modules/_loytra_servicer.py:52-59 | the filled copy is `Generated` |
| Servicers.GeneratedNeverRaises | loytra_modules/_loytra_servicer.py:52-59 | unit generation never raises, starts with `[Unit]` and has one line per value in place of each placeholder |
| Servicers.TemplateReady | loytra_modules/_loytra_servicer.py:7-24 | the template starts with `[Unit]` and holds the five placeholders |
| Servicers.PlaceholdersApart | loytra_modules/_loytra_servicer.py:13-16 | no placeholder contains one filled before it |
| Servicers.ExecStartNotInPre | loytra_modules/_loytra_servicer.py:15-16 | `ExecStart=` does not occur in `ExecStartPre=` |
| Servicers.FillStep | loytra_modules/_loytra_servicer.py:54-58 | each fill step succeeds, adds values minus one lines and keeps the file ready for the next field |
| Servicers.Logs | loytra_modules/_loytra_servicer.py:100-112 | the command built step by step is `LogsCommand`, whose shape and since window the next two lemmas state |
| Servicers.LogsCommandShape | loytra_modules/_loytra_servicer.py:100-112 | runs `journalctl -o short-precise` inside `bash -c '...'` and ends with the user unit; the options end with `-f` iff following, else with `--no-pager` |
| Servicers.LogsCommandWindow | loytra_modules/_loytra_servicer.py:103-106 | before the mode, the options end with `-S <since>` when `since` is given and with `-n 1000` otherwise, and that window is all that follows `journalctl -o short-precise` |
| ModuleSpecs.NewModule | loytra_modules/_module_spec.py:7-19 | name, moduler and instance flag kept; the packages form a valid dict |
| ModuleSpecs.NewModuleDefaults | loytra_modules/_module_spec.py:10-19 | without arguments, services and packages are empty and the sort index is -1 |
| ModuleSpecs.NewModuleServices | loytra_modules/_module_spec.py:15 | a given services dict is kept as is |
| ModuleSpecs.PackagerMap | loytra_modules/_module_spec.py:17-18 | the packagers keyed by name form a valid dict |
| ModuleSpecs.PackagerMapSpec | loytra_modules/_module_spec.py:17-18 | every packager's name is a key, every key is some packager's name, and the last packager of a name is its value |
| ModuleSpecs.LaterPackagerWins | loytra_modules/_module_spec.py:18 | of two packagers with one name, the later is kept, at the earlier one's position |
| ModuleFinder.ModuleFilePathRoundTrip | loytra_modules/_module_finder.py:8-13 | the module file path is `<parent>/<folder>/__loytra_module__.py` and gives back the folder |
| ModuleFinder.ParseExport | loytra_modules/_module_finder.py:30-40 | the loop returns `ParsedExport` |
| ModuleFinder.ModulesOfMembers | loytra_modules/_module_finder.py:32-35 | a list export keeps exactly its modules; a list with none gives [] |
| ModuleFinder.ModulesOfAppend | loytra_modules/_module_finder.py:32-35 | the modules keep list order |
| ModuleFinder.ParsedExportSpec | loytra_modules/_module_finder.py:30-40 | only an export that is neither a list nor a module raises; a single module gives a list of one |
| ModuleFinder.GetModules | loytra_modules/_module_finder.py:43-53 | the loop returns `Loaded`, folder by folder |
| ModuleFinder.MissingFilesSkipped | loytra_modules/_module_finder.py:45-47 | folders without a module file add nothing |
| ModuleFinder.FolderModulesByName | loytra_modules/_module_finder.py:65-68 | lookup by folder name agrees with discovery when the file exists and its import succeeds |
| ModuleFinder.SortKey | loytra_modules/_module_finder.py:59 | the key is never negative, and is the sort index when that is non-negative |
| ModuleFinder.UnsortedLast | loytra_modules/_module_finder.py:59 | a module without an index sorts after every module with an index below 999999 |
| ModuleFinder.SortModulesSpec | loytra_modules/_module_finder.py:59 | the sorted modules are ordered by key, a permutation, and stable for each key |
| StableSorts.SortSpec | loytra_modules/_module_finder.py:59 | the sort result is ordered by key and a permutation of the input |
| StableSorts.SortStable | loytra_modules/_module_finder.py:59 | the elements with any one key keep their relative order |
| ModuleFinder.KeyByName | loytra_modules/_module_finder.py:60-61 | the loop builds the dict keyed by module name, later entries winning |
| ModuleFinder.FindModules | loytra_modules/_module_finder.py:56-62 | the result is the sorted loaded modules keyed by name |
| ModuleFinder.FoundModulesKeys | loytra_modules/_module_finder.py:56-62 | the keys are exactly the loaded modules' names |
| ModuleFinder.FoundModuleWinner | loytra_modules/_module_finder.py:59-61 | of modules sharing a name, the one with the strictly greatest key is the one kept |
| ServiceRunner.CallModuleFunction | loytra_modules/_service_runner.py:1-9 | the module is imported first; the function is called iff its name is non-empty |
| ServiceRunner.RunSystemdServiceSpec | loytra_modules/_service_runner.py:12-23 | nothing runs without a module argument; otherwise the module is imported, a function is called iff a non-empty third argument names it, and later arguments are ignored |
| ServiceRunner.CommandSplit | loytra_modules/_service_runner.py:25-30 | the command is the runner, then the quoted module, then the quoted function iff one is given |
| ServiceRunner.RunCommandRoundTrip | loytra_modules/_service_runner.py:25-30 | the service started with the run command imports the module it names and calls the function it names |

## Left out

- The websocket transport is left out: serving, the read loop's `async for`, `socket.send` and `socket.close`. A send is an outbox entry whose success is given by a `Transport` parameter. A connection is the list of frames it delivers.
- asyncio task creation and cancellation are left out. A dispatched message is a `MessageReceived` hook recorded in order, and cancelling pending tasks is not modelled.
- msgpack and JSON encoding are left out; frames arrive as decoded values or as undecodable. `WsModel.Codec` records the chosen transport, and an unknown transport (the `RuntimeError` branch) cannot be expressed.
- Floating-point values are not in `Values.Value`.
- `secrets.token_hex(6)` is left out. A fresh id is any non-empty unregistered string, since the source does not check collisions either.
- Logging and the debug log are left out.
- `run_server` and `_on_run_websocket_server` are left out; they are network I/O.
- DmapiClient: `_send`, `_recv`, `_websocket_loop`, `_client_loop` and `run` are left out; they are network and file I/O. `print` output is left out.
- Packagers: leaf packagers that shell out (user group, file creator, udev rule, pacman, apt, `PackagerRepo`, pip) are `Leaf` values whose sync state, results and status are given.
- Packagers: `chmod`, `os.access` and `find_executable` in `PackagerExecToPath` are left out. `is_sync` and `get_status` of `PackagerExecToPath` and `PackagerRepoPacman` are not modelled; they are shell and file queries.
- Packagers.Run: for `MultiPackager.sync` the number typed at the prompt is a given `selection`; its printing is left out.
- Servicers: the `systemctl`/`journalctl` calls, `get_active_state`, `get_status` and install/uninstall are left out.
- Servicers.Logs: builds the command; running it with `os.system` is left out.
- ModuleFinder: importing a module file (`importlib`) and listing the parent folder are given as parameters. An import that raises is a given `Raises` outcome.
- The `Moduler` internals (git, pip) are left out. `LoytraModuleInstance` is not part of this model; it is an `instance` flag on `LoytraModule`.
- CliActions: the orchestration methods (install, start, stop, restart, status, list, update and the rest) drive external services and are left out. Only their named helpers are modelled.
- ServiceRunner: the `sdnotify` readiness call is left out. Import and call are recorded as steps; a failing import is not modelled.
- ServiceRunner.CommandWords: systemd's command-line parsing is reduced to splitting at spaces and unquoting each word. The round trip is proved for names without spaces or quotes.
- CliActions.UrlFolderNameSpec: proved for URLs of the form `https://<base>/<repo>` with an optional trailing `/` or `.git`, where base and repo hold no `:` and repo no `/`. Other inputs follow `NormalisedUrl`, with no separate lemma.
- WsApiServer.ApiServer.constructor: builds its broker with the corrected base arguments (`BaseArgsIntended`), so the chosen JSON transport takes effect here and remote connections stay at their default. In the source the base class keeps msgpack (see Findings).
- WsServerBase.Broker.Receive: an exception raised by a hook awaited inside `_authorize_client` is caught by the bare `except:` at loytra_libs/websocket/wstd_server_base.py:376-377, which ends the read loop and runs the cleanup. Hooks here always return, so that ending is not modelled.
- WsApiServer.ApiServer.Dispatch: a bound method or auto-response that raises aborts the remaining matched methods and the unhandled-message fallback (loytra_libs/websocket/wstd_api_server.py:93-98). Handlers here always return, so that abort is not modelled.
- Sends made from inside bound methods, hooks and listeners (other than the auto-responses) are not modelled; those callbacks are opaque ids.
- DmapiClient.SpecOf: takes the decoded definition as a dict. A top-level value that is not a dict, where `data.get` raises `AttributeError` in the source, cannot be expressed.
- DmapiClient.GetUrl: booleans are the integers 1 and 0 in `Values`. A port given as `true` passes the port check as 1 and renders as `1` here, while `str(port)` prints `True` in the source.
- StableSorts: Python's `sorted` is Timsort; it is modelled by a stable insertion sort. A stable sort by key has one result, so the order is the same.

## Findings

| source | as written | input that shows it | evidently intended | confidence | as-written member | corrected member |
|---|---|---|---|---|---|---|
| loytra_libs/websocket/wstd_api_server.py:30 | `super().__init__(debug_mode, port, transport)` passes the transport positionally, into `allow_remote_connect` | `WSTDApiServer(False, 8080, transport=JSON)`: the base gets `allow_remote_connect=JSON` and keeps the msgpack transport | pass the transport by keyword and leave remote connections at their default | not executed; high | WsApiServer.JsonTransportIgnored | WsApiServer.BaseArgsIntended |
| loytra_libs/websocket/wstd_server_base.py:345-347 | a frame whose `_tid_` is not a string makes `_handler` return from inside the read loop, skipping the cleanup at lines 380-403 | authorize on a socket, then send `{"topic": "ping", "_tid_": 7}`: the socket stays in `_wsrefs` and its clients in `_clients` after the connection is gone | end the loop and still run the cleanup | not executed; medium | WsServerBase.Broker.Handler | WsServerBase.Broker.HandlerWithCleanup |
