/**
 * The state and the specification functions of the topic/data websocket broker
 * (`WSTDServerBase`): its two registries, the shape of every outbound message,
 * what each send operation writes, and the registry invariant with the lemmas
 * that the authorize, de-authorize and teardown steps keep it.
 *
 * Registries:
 *  - `clients`: client id -> Client (`_clients`);
 *  - `wsrefs`:  socket id -> WsRef (`_wsrefs`), each with its own
 *               tunnel id -> client id table and the `is_tunnel` flag.
 * Both are insertion-ordered like Python dicts (`Dicts.Dict`), because the order
 * of broadcast writes and of disconnect callbacks follows it.
 */
module WsModel {
  import opened Wrappers
  import opened Values
  import Dicts

  type SocketId = string
  type ClientId = string
  type TunnelId = string
  /** A decoded wire message: a dict with string keys. */
  type Message = map<string, Value>

  const TOPIC_AUTHORIZE: string := "_auth_"
  const TOPIC_DEAUTHORIZE: string := "_deauth_"
  const FIELD_TUNNEL_ID: string := "_tid_"
  const TUNNEL_NONE: TunnelId := "_"
  const TUNNEL_CONTROLLER: TunnelId := "@"
  const TUNNEL_CLIENTS: TunnelId := "*"

  /** `WebsocketMessageTransport`: the codec frames are packed with. */
  datatype Codec = Msgpack | Json

  /** `WebsocketTunnelTarget` */
  datatype TunnelTarget = All | Controller | Clients

  /** `_WebsocketClient` */
  datatype Client = Client(socketId: SocketId, clientId: ClientId, tunnelId: TunnelId, intent: seq<Value>, info: Value)

  /** `_WebsocketReference`; the socket handle itself is the transport's and is not modelled. */
  datatype WsRef = WsRef(socketId: SocketId, path: string, clients: Dicts.Dict<TunnelId, ClientId>, isTunnel: bool)

  /** What a send operation is asked to deliver: topic, data and the optional `extra` fields. */
  datatype Outgoing = Outgoing(topic: string, data: Value, extra: Option<Message>)

  /** One `socket.send` attempt, and whether it went through (false when it raised). */
  datatype Write = Write(socketId: SocketId, message: Message, delivered: bool)

  /** The transport's verdict on each write: true when `socket.send` returns, false when it raises. */
  type Transport = (SocketId, Message) -> bool

  /** The overridable hook methods of the base class, in the order they are awaited. */
  datatype Hook =
    | ClientConnected(clientId: ClientId)
    | TunnelControllerConnected(clientId: ClientId)
    | ClientAuthorized(clientId: ClientId, intent: seq<Value>, info: Value)
    | ClientDisconnected(clientId: ClientId)
    | TunnelControllerDisconnected(clientId: ClientId)
    | MessageReceived(clientId: ClientId, topic: string, data: Value, message: Message, isTunnelController: bool)
    | Destroyed

  /** One element of `get_connected_clients()`: `(client_id, intent, info)`. */
  datatype ClientEntry = ClientEntry(clientId: ClientId, intent: seq<Value>, info: Value)

  /** `_is_tunnel_controller` */
  predicate IsTunnelController(tid: TunnelId) {
    tid == TUNNEL_CONTROLLER
  }

  // ---------------------------------------------------------------------------
  // The registry invariant

  /** The tunnel table entry `tid -> cid` of socket `sid` points at a client registered with that socket and tunnel id. */
  ghost predicate Linked(C: map<ClientId, Client>, sid: SocketId, tid: TunnelId, cid: ClientId) {
    cid in C && C[cid].socketId == sid && C[cid].tunnelId == tid
  }

  /**
   * A direct socket holds at most the default tunnel id "_", a tunnel socket never
   * holds it, and every entry of its table points back at a matching client.
   */
  ghost predicate SocketWellFormed(sid: SocketId, w: WsRef, C: map<ClientId, Client>) {
    && w.socketId == sid
    && w.clients.Valid()
    && (if w.isTunnel then TUNNEL_NONE !in w.clients.entries
        else forall tid | tid in w.clients.entries :: tid == TUNNEL_NONE)
    && (forall tid {:trigger Linked(C, sid, tid, w.clients.entries[tid])} | tid in w.clients.entries ::
          Linked(C, sid, tid, w.clients.entries[tid]))
  }

  /** A registered client is reachable from its socket's tunnel table, under its own id. */
  ghost predicate ClientWellFormed(cid: ClientId, c: Client, W: map<SocketId, WsRef>) {
    && c.clientId == cid
    && cid != ""
    && c.socketId in W
    && c.tunnelId in W[c.socketId].clients.entries
    && W[c.socketId].clients.entries[c.tunnelId] == cid
  }

  ghost predicate SocketsWellFormed(C: map<ClientId, Client>, W: map<SocketId, WsRef>) {
    forall sid {:trigger SocketWellFormed(sid, W[sid], C)} | sid in W :: SocketWellFormed(sid, W[sid], C)
  }

  ghost predicate ClientsWellFormed(C: map<ClientId, Client>, W: map<SocketId, WsRef>) {
    forall cid {:trigger ClientWellFormed(cid, C[cid], W)} | cid in C :: ClientWellFormed(cid, C[cid], W)
  }

  /** The invariant of the two registries: each side points at the other. */
  ghost predicate Registry(C: Dicts.Dict<ClientId, Client>, W: Dicts.Dict<SocketId, WsRef>) {
    && C.Valid()
    && W.Valid()
    && SocketsWellFormed(C.entries, W.entries)
    && ClientsWellFormed(C.entries, W.entries)
  }

  /** At most one client per (socket, tunnel id): the registry admits no two clients sharing both. */
  lemma OneClientPerTunnel(C: Dicts.Dict<ClientId, Client>, W: Dicts.Dict<SocketId, WsRef>, c1: ClientId, c2: ClientId)
    requires Registry(C, W)
    requires c1 in C.entries && c2 in C.entries
    requires C.entries[c1].socketId == C.entries[c2].socketId
    requires C.entries[c1].tunnelId == C.entries[c2].tunnelId
    ensures c1 == c2
  {
    assert ClientWellFormed(c1, C.entries[c1], W.entries);
    assert ClientWellFormed(c2, C.entries[c2], W.entries);
  }

  /** A direct socket carries at most one client, the one under "_". */
  lemma {:induction false} DirectSocketHoldsOneClient(sid: SocketId, w: WsRef, C: map<ClientId, Client>)
    requires SocketWellFormed(sid, w, C) && !w.isTunnel
    ensures |w.clients.keys| <= 1
  {
    Dicts.DistinctIndices(w.clients.keys);
    AllDefaultRepeat(w.clients.keys, w.clients.entries);
  }

  /** Tunnel ids that are all "_" repeat as soon as there are two of them. */
  lemma AllDefaultRepeat(ks: seq<TunnelId>, entries: map<TunnelId, ClientId>)
    requires forall i | 0 <= i < |ks| :: ks[i] in entries
    requires forall tid | tid in entries :: tid == TUNNEL_NONE
    ensures |ks| > 1 ==> ks[0] == ks[1]
  {
  }

  // ---------------------------------------------------------------------------
  // Queries

  /** Whether `get_connected_clients` / `client_count` list a client. */
  predicate Listable(c: Client, includeTunnelControllers: bool) {
    !IsTunnelController(c.tunnelId) || includeTunnelControllers
  }

  /** `get_connected_clients(include_tunnel_controllers)` over the first keys of `_clients`. */
  function Listed(keys: seq<ClientId>, C: map<ClientId, Client>, includeTunnelControllers: bool): seq<ClientEntry>
    requires forall i | 0 <= i < |keys| :: keys[i] in C
  {
    if |keys| == 0 then []
    else
      var cid := keys[|keys| - 1];
      Listed(keys[..|keys| - 1], C, includeTunnelControllers)
        + (if Listable(C[cid], includeTunnelControllers) then [ClientEntry(cid, C[cid].intent, C[cid].info)] else [])
  }

  /** `get_connected_tunnel_controllers()` over the first keys of `_clients`. */
  function ControllersListed(keys: seq<ClientId>, C: map<ClientId, Client>): seq<ClientEntry>
    requires forall i | 0 <= i < |keys| :: keys[i] in C
  {
    if |keys| == 0 then []
    else
      var cid := keys[|keys| - 1];
      ControllersListed(keys[..|keys| - 1], C)
        + (if IsTunnelController(C[cid].tunnelId) then [ClientEntry(cid, C[cid].intent, C[cid].info)] else [])
  }

  /**
   * A client id is listed exactly when it is registered and listable, and each
   * listed entry carries that client's current intent and info.
   */
  lemma {:induction false} ListedMembers(keys: seq<ClientId>, C: map<ClientId, Client>, inc: bool)
    requires forall i | 0 <= i < |keys| :: keys[i] in C
    ensures forall e | e in Listed(keys, C, inc) ::
      e.clientId in keys && Listable(C[e.clientId], inc) && e == ClientEntry(e.clientId, C[e.clientId].intent, C[e.clientId].info)
    ensures forall cid | cid in keys && Listable(C[cid], inc) ::
      ClientEntry(cid, C[cid].intent, C[cid].info) in Listed(keys, C, inc)
  {
    if |keys| > 0 {
      var init := keys[..|keys| - 1];
      ListedMembers(init, C, inc);
      assert keys == init + [keys[|keys| - 1]];
    }
  }

  /** The controllers listed are exactly the registered clients whose tunnel id is "@". */
  lemma {:induction false} ControllersMembers(keys: seq<ClientId>, C: map<ClientId, Client>)
    requires forall i | 0 <= i < |keys| :: keys[i] in C
    ensures forall e | e in ControllersListed(keys, C) ::
      e.clientId in keys && C[e.clientId].tunnelId == TUNNEL_CONTROLLER
    ensures forall cid | cid in keys && C[cid].tunnelId == TUNNEL_CONTROLLER ::
      ClientEntry(cid, C[cid].intent, C[cid].info) in ControllersListed(keys, C)
  {
    if |keys| > 0 {
      var init := keys[..|keys| - 1];
      ControllersMembers(init, C);
      assert keys == init + [keys[|keys| - 1]];
    }
  }

  /**
   * Every client is listed either among the plain clients or among the controllers,
   * and the listing that includes controllers lists them all.
   */
  lemma {:induction false} ListedCounts(keys: seq<ClientId>, C: map<ClientId, Client>)
    requires forall i | 0 <= i < |keys| :: keys[i] in C
    ensures |Listed(keys, C, false)| + |ControllersListed(keys, C)| == |keys|
    ensures |Listed(keys, C, true)| == |keys|
  {
    if |keys| > 0 {
      ListedCounts(keys[..|keys| - 1], C);
    }
  }

  // ---------------------------------------------------------------------------
  // Outbound messages

  /** `_send_socket_message` attaches `_tid_` only on a tunnel socket and only for an id other than "_". */
  predicate Tagged(isTunnel: bool, tid: Option<TunnelId>) {
    isTunnel && tid.Some? && tid.value != TUNNEL_NONE
  }

  /**
   * The message dict `_send_socket_message` packs: the `extra` fields first, then
   * `topic` and `data` over them, then `_tid_` when tagged.
   */
  function OutboundMessage(isTunnel: bool, o: Outgoing, tid: Option<TunnelId>): Message {
    var base := if o.extra.Some? then o.extra.value else map[];
    var m := base["topic" := Str(o.topic)]["data" := o.data];
    if Tagged(isTunnel, tid) then m[FIELD_TUNNEL_ID := Str(tid.value)] else m
  }

  /**
   * The packed message carries the topic and the data, carries `_tid_` exactly
   * when tagged, and otherwise only the `extra` fields, which it keeps unless one
   * of those keys overrides them.
   */
  lemma OutboundMessageShape(isTunnel: bool, o: Outgoing, tid: Option<TunnelId>)
    ensures var m := OutboundMessage(isTunnel, o, tid);
      && "topic" in m && m["topic"] == Str(o.topic)
      && "data" in m && m["data"] == o.data
      && (Tagged(isTunnel, tid) ==> FIELD_TUNNEL_ID in m && m[FIELD_TUNNEL_ID] == Str(tid.value))
      && (forall k | k in m ::
            k == "topic" || k == "data" || (k == FIELD_TUNNEL_ID && Tagged(isTunnel, tid)) || (o.extra.Some? && k in o.extra.value))
      && (o.extra.Some? ==> forall k | k in o.extra.value && k != "topic" && k != "data" && !(k == FIELD_TUNNEL_ID && Tagged(isTunnel, tid)) ::
            k in m && m[k] == o.extra.value[k])
  {
  }

  /** One `_send_socket_message` call on socket `w`. */
  function Emit(w: WsRef, o: Outgoing, tid: Option<TunnelId>, t: Transport): Write {
    var m := OutboundMessage(w.isTunnel, o, tid);
    Write(w.socketId, m, t(w.socketId, m))
  }

  predicate AllDelivered(ws: seq<Write>) {
    forall i | 0 <= i < |ws| :: ws[i].delivered
  }

  /** `send_client_message`: one write when the client and its socket are registered, none otherwise. */
  function ClientWrites(C: map<ClientId, Client>, W: map<SocketId, WsRef>, o: Outgoing, cid: ClientId, t: Transport): seq<Write> {
    if cid !in C || C[cid].socketId !in W then []
    else [Emit(W[C[cid].socketId], o, Some(C[cid].tunnelId), t)]
  }

  /** The tunnel id `send_tunnel_message` addresses for a target. */
  function TargetTunnelId(target: TunnelTarget): TunnelId {
    match target
    case All => TUNNEL_NONE
    case Controller => TUNNEL_CONTROLLER
    case Clients => TUNNEL_CLIENTS
  }

  /** `send_tunnel_message` over the first sockets: one write per tunnel socket. */
  function TunnelWrites(socks: seq<WsRef>, o: Outgoing, tid: TunnelId, t: Transport): seq<Write> {
    if |socks| == 0 then []
    else
      var w := socks[|socks| - 1];
      TunnelWrites(socks[..|socks| - 1], o, tid, t) + (if w.isTunnel then [Emit(w, o, Some(tid), t)] else [])
  }

  /** One more socket adds its write, if it is a tunnel socket. */
  lemma TunnelWritesSnoc(socks: seq<WsRef>, o: Outgoing, tid: TunnelId, t: Transport, i: nat)
    requires i < |socks|
    ensures TunnelWrites(socks[..i + 1], o, tid, t)
      == TunnelWrites(socks[..i], o, tid, t) + (if socks[i].isTunnel then [Emit(socks[i], o, Some(tid), t)] else [])
  {
    assert socks[..i + 1][..i] == socks[..i];
  }

  /**
   * `send_tunnel_message` writes exactly once to each tunnel socket, in order, and
   * to no other socket; its result can be true only when some tunnel socket exists.
   */
  lemma {:induction false} TunnelWritesShape(socks: seq<WsRef>, o: Outgoing, tid: TunnelId, t: Transport)
    ensures |TunnelWrites(socks, o, tid, t)| > 0 <==> exists i | 0 <= i < |socks| :: socks[i].isTunnel
    ensures forall w | w in TunnelWrites(socks, o, tid, t) ::
      exists i | 0 <= i < |socks| :: socks[i].isTunnel && w == Emit(socks[i], o, Some(tid), t)
  {
    if |socks| > 0 {
      var init := socks[..|socks| - 1];
      TunnelWritesShape(init, o, tid, t);
      if exists i | 0 <= i < |init| :: init[i].isTunnel {
        var i :| 0 <= i < |init| && init[i].isTunnel;
        assert socks[i] == init[i];
      }
      forall w | w in TunnelWrites(socks, o, tid, t)
        ensures exists i | 0 <= i < |socks| :: socks[i].isTunnel && w == Emit(socks[i], o, Some(tid), t)
      {
        if w in TunnelWrites(init, o, tid, t) {
          var i :| 0 <= i < |init| && init[i].isTunnel && w == Emit(init[i], o, Some(tid), t);
          assert socks[i] == init[i];
        } else {
          assert w == Emit(socks[|socks| - 1], o, Some(tid), t);
        }
      }
    }
  }

  /** The tunnel target decides the `_tid_` field: none for ALL, "@" for CONTROLLER, "*" for CLIENTS. */
  lemma TunnelTargetTag(w: WsRef, o: Outgoing, target: TunnelTarget, t: Transport)
    requires w.isTunnel
    requires o.extra.None?
    ensures var m := Emit(w, o, Some(TargetTunnelId(target)), t).message;
      && (target == All <==> FIELD_TUNNEL_ID !in m)
      && (target == Controller ==> m[FIELD_TUNNEL_ID] == Str(TUNNEL_CONTROLLER))
      && (target == Clients ==> m[FIELD_TUNNEL_ID] == Str(TUNNEL_CLIENTS))
  {
  }

  // ---------------------------------------------------------------------------
  // Broadcast

  /** `intent_filter is None or intent_filter in client.intent` */
  predicate Matches(c: Client, filter: Option<string>) {
    filter.None? || Str(filter.value) in c.intent
  }

  /** On a direct socket: the registered clients, in table order, that match the filter. */
  function DirectTargets(cids: seq<ClientId>, C: map<ClientId, Client>, filter: Option<string>): (r: seq<ClientId>)
    ensures |r| <= |cids|
    ensures forall x | x in r :: x in cids && x in C && Matches(C[x], filter)
    ensures forall x | x in cids && x in C && Matches(C[x], filter) :: x in r
  {
    if |cids| == 0 then []
    else
      var init := cids[..|cids| - 1];
      var cid := cids[|cids| - 1];
      assert cids == init + [cid];
      DirectTargets(init, C, filter) + (if cid in C && Matches(C[cid], filter) then [cid] else [])
  }

  /** One more id of the table: it is a direct target exactly when it is registered and matches. */
  lemma DirectTargetsSnoc(cids: seq<ClientId>, C: map<ClientId, Client>, filter: Option<string>, j: nat)
    requires j < |cids|
    ensures cids[j] in C && Matches(C[cids[j]], filter) ==>
      DirectTargets(cids[..j + 1], C, filter) == DirectTargets(cids[..j], C, filter) + [cids[j]]
    ensures !(cids[j] in C && Matches(C[cids[j]], filter)) ==>
      DirectTargets(cids[..j + 1], C, filter) == DirectTargets(cids[..j], C, filter)
  {
    assert cids[..j + 1][..j] == cids[..j];
    var ts := DirectTargets(cids[..j], C, filter);
    assert ts + [] == ts;
  }

  /** On a tunnel socket with a filter: the registered clients that match it, and the controller. */
  function TunnelTargets(cids: seq<ClientId>, C: map<ClientId, Client>, filter: string): (r: seq<ClientId>)
    ensures |r| <= |cids|
    ensures forall x | x in r :: x in cids && x in C && (Matches(C[x], Some(filter)) || IsTunnelController(C[x].tunnelId))
    ensures forall x | x in cids && x in C && (Matches(C[x], Some(filter)) || IsTunnelController(C[x].tunnelId)) :: x in r
  {
    if |cids| == 0 then []
    else
      var init := cids[..|cids| - 1];
      var cid := cids[|cids| - 1];
      assert cids == init + [cid];
      TunnelTargets(init, C, filter)
        + (if cid in C && (Matches(C[cid], Some(filter)) || IsTunnelController(C[cid].tunnelId)) then [cid] else [])
  }

  /** One more table entry adds that client to the targets exactly when it is registered and matches or is the controller. */
  lemma TunnelTargetsSnoc(cids: seq<ClientId>, C: map<ClientId, Client>, filter: string, j: nat)
    requires j < |cids|
    ensures TunnelTargets(cids[..j + 1], C, filter) == TunnelTargets(cids[..j], C, filter)
      + (if cids[j] in C && (Matches(C[cids[j]], Some(filter)) || IsTunnelController(C[cids[j]].tunnelId)) then [cids[j]] else [])
  {
    assert cids[..j + 1][..j] == cids[..j];
  }

  /** Every registered client of the table matches the filter or is the controller. */
  predicate AllTargeted(cids: seq<ClientId>, C: map<ClientId, Client>, filter: string) {
    forall i | 0 <= i < |cids| && cids[i] in C :: Matches(C[cids[i]], Some(filter)) || IsTunnelController(C[cids[i]].tunnelId)
  }

  /** The prefix of a table extended by one more id: all targeted so far, and that id too. */
  lemma AllTargetedSnoc(cids: seq<ClientId>, C: map<ClientId, Client>, filter: string, j: nat)
    requires j < |cids|
    ensures AllTargeted(cids[..j + 1], C, filter) <==>
      AllTargeted(cids[..j], C, filter) && (cids[j] in C ==> Matches(C[cids[j]], Some(filter)) || IsTunnelController(C[cids[j]].tunnelId))
  {
    assert forall i | 0 <= i < j :: cids[..j + 1][i] == cids[..j][i];
  }

  /** A tunnel socket gets the single bulk "*" message when there is no filter or nobody would miss out. */
  predicate SendsBulk(cids: seq<ClientId>, C: map<ClientId, Client>, filter: Option<string>) {
    filter.None? || AllTargeted(cids, C, filter.value)
  }

  /** One write per target, tagged with the target's tunnel id when `tagged`. */
  function EmitEach(w: WsRef, targets: seq<ClientId>, C: map<ClientId, Client>, o: Outgoing, tagged: bool, t: Transport): (r: seq<Write>)
    requires forall x | x in targets :: x in C
    ensures |r| == |targets|
  {
    if |targets| == 0 then []
    else
      var init := targets[..|targets| - 1];
      var x := targets[|targets| - 1];
      assert forall y | y in init :: y in targets;
      EmitEach(w, init, C, o, tagged, t) + [Emit(w, o, if tagged then Some(C[x].tunnelId) else None, t)]
  }

  /** Writing to one more target appends that target's write. */
  lemma EmitEachSnoc(w: WsRef, targets: seq<ClientId>, x: ClientId, C: map<ClientId, Client>, o: Outgoing, tagged: bool, t: Transport)
    requires forall y | y in targets :: y in C
    requires x in C
    ensures forall y | y in targets + [x] :: y in C
    ensures EmitEach(w, targets + [x], C, o, tagged, t)
      == EmitEach(w, targets, C, o, tagged, t) + [Emit(w, o, if tagged then Some(C[x].tunnelId) else None, t)]
  {
    assert (targets + [x])[..|targets|] == targets;
  }

  /** The i-th write of `EmitEach` goes to the i-th target. */
  lemma {:induction false} EmitEachAt(w: WsRef, targets: seq<ClientId>, C: map<ClientId, Client>, o: Outgoing, tagged: bool, t: Transport)
    requires forall x | x in targets :: x in C
    ensures forall i | 0 <= i < |targets| ::
      EmitEach(w, targets, C, o, tagged, t)[i] == Emit(w, o, if tagged then Some(C[targets[i]].tunnelId) else None, t)
  {
    if |targets| > 0 {
      var init := targets[..|targets| - 1];
      assert forall y | y in init :: y in targets;
      EmitEachAt(w, init, C, o, tagged, t);
    }
  }

  /** What `send_broadcast_message` writes to one socket. */
  function SocketBroadcast(w: WsRef, C: map<ClientId, Client>, o: Outgoing, filter: Option<string>, t: Transport): seq<Write>
    requires w.clients.Valid()
  {
    var cids := w.clients.Values();
    if !w.isTunnel then EmitEach(w, DirectTargets(cids, C, filter), C, o, false, t)
    else if SendsBulk(cids, C, filter) then [Emit(w, o, Some(TUNNEL_CLIENTS), t)]
    else EmitEach(w, TunnelTargets(cids, C, filter.value), C, o, true, t)
  }

  ghost predicate TablesValid(socks: seq<WsRef>) {
    forall i | 0 <= i < |socks| :: socks[i].clients.Valid()
  }

  /** What `send_broadcast_message` writes, socket by socket, over the first sockets. */
  function Broadcast(socks: seq<WsRef>, C: map<ClientId, Client>, o: Outgoing, filter: Option<string>, t: Transport): seq<Write>
    requires TablesValid(socks)
  {
    if |socks| == 0 then []
    else Broadcast(socks[..|socks| - 1], C, o, filter, t) + SocketBroadcast(socks[|socks| - 1], C, o, filter, t)
  }

  /**
   * Broadcast on a direct socket: one untagged write per registered client that
   * matches the filter -- so at most one, since a direct socket holds only "_".
   */
  lemma DirectSocketBroadcast(sid: SocketId, w: WsRef, C: map<ClientId, Client>, o: Outgoing, filter: Option<string>, t: Transport)
    requires SocketWellFormed(sid, w, C) && !w.isTunnel
    ensures var ws := SocketBroadcast(w, C, o, filter, t);
      && |ws| == |DirectTargets(w.clients.Values(), C, filter)| <= 1
      && (forall i | 0 <= i < |ws| :: ws[i].socketId == sid && ws[i].message == OutboundMessage(false, o, None))
      && (|ws| == 1 <==> exists tid | tid in w.clients.entries && w.clients.entries[tid] in C :: Matches(C[w.clients.entries[tid]], filter))
  {
    DirectSocketHoldsOneClient(sid, w, C);
    DirectTargetsFound(w.clients, C, filter);
    EmitEachAt(w, DirectTargets(w.clients.Values(), C, filter), C, o, false, t);
  }

  /** Some registered client of a table matches the filter exactly when the direct targets are not empty. */
  lemma DirectTargetsFound(table: Dicts.Dict<TunnelId, ClientId>, C: map<ClientId, Client>, filter: Option<string>)
    requires table.Valid()
    ensures |DirectTargets(table.Values(), C, filter)| > 0 <==>
      exists tid | tid in table.entries && table.entries[tid] in C :: Matches(C[table.entries[tid]], filter)
  {
    var cids := table.Values();
    var ts := DirectTargets(cids, C, filter);
    if exists tid | tid in table.entries && table.entries[tid] in C :: Matches(C[table.entries[tid]], filter) {
      var tid :| tid in table.entries && table.entries[tid] in C && Matches(C[table.entries[tid]], filter);
      assert tid in table.keys;
      var k :| 0 <= k < |table.keys| && table.keys[k] == tid;
      assert cids[k] in cids;
      assert table.entries[tid] in ts;
    }
    if |ts| > 0 {
      assert ts[0] in ts;
      var k :| 0 <= k < |cids| && cids[k] == ts[0];
      assert table.keys[k] in table.entries;
    }
  }

  /** Broadcast on a tunnel socket where nobody would miss out: exactly one write, tagged "*". */
  lemma TunnelSocketBulkBroadcast(w: WsRef, C: map<ClientId, Client>, o: Outgoing, filter: Option<string>, t: Transport)
    requires w.clients.Valid() && w.isTunnel
    requires SendsBulk(w.clients.Values(), C, filter)
    ensures var ws := SocketBroadcast(w, C, o, filter, t);
      |ws| == 1 && ws[0].socketId == w.socketId && ws[0].message[FIELD_TUNNEL_ID] == Str(TUNNEL_CLIENTS)
  {
  }

  /** A tunnel socket misses the bulk message only under a filter that some registered non-controller fails. */
  lemma TargetedBroadcastHasMisser(sid: SocketId, w: WsRef, C: map<ClientId, Client>, filter: Option<string>)
    requires SocketWellFormed(sid, w, C) && w.isTunnel
    requires !SendsBulk(w.clients.Values(), C, filter)
    ensures filter.Some?
    ensures exists tid | tid in w.clients.entries && w.clients.entries[tid] in C ::
      !Matches(C[w.clients.entries[tid]], filter) && !IsTunnelController(tid)
  {
    var cids := w.clients.Values();
    var i :| 0 <= i < |cids| && cids[i] in C && !(Matches(C[cids[i]], filter) || IsTunnelController(C[cids[i]].tunnelId));
    var tid := w.clients.keys[i];
    assert tid in w.clients.entries && w.clients.entries[tid] == cids[i];
    assert Linked(C, sid, tid, cids[i]);
  }

  /**
   * Broadcast on a tunnel socket without the bulk message: one write per matching
   * client and per controller, each tagged with that client's own tunnel id
   * (never "_" on a tunnel socket).
   */
  lemma TunnelSocketTargetedBroadcast(sid: SocketId, w: WsRef, C: map<ClientId, Client>, o: Outgoing, filter: Option<string>, t: Transport)
    requires SocketWellFormed(sid, w, C) && w.isTunnel
    requires !SendsBulk(w.clients.Values(), C, filter)
    ensures filter.Some?
    ensures var ws := SocketBroadcast(w, C, o, filter, t);
      var ts := TunnelTargets(w.clients.Values(), C, filter.value);
      && |ws| == |ts|
      && forall i | 0 <= i < |ws| ::
        && ws[i].socketId == sid
        && C[ts[i]].tunnelId != TUNNEL_NONE
        && FIELD_TUNNEL_ID in ws[i].message && ws[i].message[FIELD_TUNNEL_ID] == Str(C[ts[i]].tunnelId)
        && (Matches(C[ts[i]], filter) || IsTunnelController(C[ts[i]].tunnelId))
  {
    var cids := w.clients.Values();
    var ts := TunnelTargets(cids, C, filter.value);
    var ws := EmitEach(w, ts, C, o, true, t);
    assert SocketBroadcast(w, C, o, filter, t) == ws;
    EmitEachAt(w, ts, C, o, true, t);
    forall j | 0 <= j < |ts|
      ensures C[ts[j]].tunnelId != TUNNEL_NONE
      ensures FIELD_TUNNEL_ID in ws[j].message && ws[j].message[FIELD_TUNNEL_ID] == Str(C[ts[j]].tunnelId)
    {
      assert ts[j] in ts;
      var k :| 0 <= k < |cids| && cids[k] == ts[j];
      assert w.clients.keys[k] in w.clients.entries;
      assert Linked(C, sid, w.clients.keys[k], cids[k]);
      assert ws[j] == Emit(w, o, Some(C[ts[j]].tunnelId), t);
      OutboundMessageShape(true, o, Some(C[ts[j]].tunnelId));
    }
  }

  /** `send_message`: to the client when a non-empty id is given, otherwise a broadcast. */
  function SendMessageWrites(C: map<ClientId, Client>, W: Dicts.Dict<SocketId, WsRef>, o: Outgoing, cid: Option<ClientId>,
                             filter: Option<string>, t: Transport): seq<Write>
    requires W.Valid() && TablesValid(W.Values())
  {
    if cid.Some? && |cid.value| > 0 then ClientWrites(C, W.entries, o, cid.value, t)
    else Broadcast(W.Values(), C, o, filter, t)
  }

  /** A reply addressed to a client ignores the intent filter. */
  lemma DirectSendIgnoresFilter(C: map<ClientId, Client>, W: Dicts.Dict<SocketId, WsRef>, o: Outgoing, cid: ClientId,
                                f1: Option<string>, f2: Option<string>, t: Transport)
    requires W.Valid() && TablesValid(W.Values())
    requires cid != ""
    ensures SendMessageWrites(C, W, o, Some(cid), f1, t) == SendMessageWrites(C, W, o, Some(cid), f2, t)
    ensures |SendMessageWrites(C, W, o, Some(cid), f1, t)| <= 1
  {
  }

  // ---------------------------------------------------------------------------
  // Authorization

  /** The mode guard of `_authorize_client`: "_" on a tunnel socket, or a tunnel id on a direct socket that already has clients. */
  predicate AuthorizeRejected(w: WsRef, tid: TunnelId) {
    if w.isTunnel then tid == TUNNEL_NONE
    else tid != TUNNEL_NONE && |w.clients.keys| > 0
  }

  /** `info` of an authorize payload: only a dict payload supplies it. */
  function InfoOf(data: Value): Value {
    if data.Obj? then Get(data.fields, "info") else Null
  }

  /** `intent` of an authorize payload: a list under "intent" of a dict payload, otherwise []. */
  function IntentOf(data: Value): seq<Value> {
    if data.Obj? && Get(data.fields, "intent").Arr? then Get(data.fields, "intent").items else []
  }

  /** The `_auth_` confirmation data `{client_id, intent}`. */
  function Confirmation(cid: ClientId, intent: seq<Value>): Value {
    Obj(map["client_id" := Str(cid), "intent" := Arr(intent)])
  }

  /** The socket after an accepted authorization: mapped tunnel id, and promoted when the id is not "_". */
  function AuthorizedSocket(w: WsRef, tid: TunnelId, cid: ClientId): WsRef
    requires w.clients.Valid()
  {
    w.(clients := w.clients.Put(tid, cid), isTunnel := w.isTunnel || tid != TUNNEL_NONE)
  }

  /** The client record written by an accepted authorization. */
  function AuthorizedClient(sid: SocketId, tid: TunnelId, cid: ClientId, data: Value): Client {
    Client(sid, cid, tid, IntentOf(data), InfoOf(data))
  }

  /** The id an accepted authorization uses: the one already mapped for the tunnel id, else a fresh one. */
  ghost predicate IdChoice(C: map<ClientId, Client>, w: WsRef, tid: TunnelId, cid: ClientId) {
    && (tid in w.clients.entries ==> cid == w.clients.entries[tid])
    && (tid !in w.clients.entries ==> cid !in C && cid != "")
  }

  /** The hooks an accepted authorization awaits: connected, then authorized. */
  function AuthorizeHooks(C: map<ClientId, Client>, w: WsRef, tid: TunnelId, cid: ClientId, data: Value): seq<Hook> {
    ConnectedHooks(w, tid, cid) + AuthorizedHooks(C, tid, cid, data)
  }

  /** The connected hook, by variant, when the tunnel id had no client on the socket yet. */
  function ConnectedHooks(w: WsRef, tid: TunnelId, cid: ClientId): seq<Hook> {
    if tid !in w.clients.entries
    then [if IsTunnelController(tid) then TunnelControllerConnected(cid) else ClientConnected(cid)]
    else []
  }

  /** The authorized hook, when the client is new or its intent or info changed. */
  function AuthorizedHooks(C: map<ClientId, Client>, tid: TunnelId, cid: ClientId, data: Value): seq<Hook> {
    if cid !in C || C[cid].intent != IntentOf(data) || C[cid].info != InfoOf(data)
    then [ClientAuthorized(cid, IntentOf(data), InfoOf(data))]
    else []
  }

  /** The confirmation write of an accepted authorization: none for the controller. */
  function AuthorizeReply(w: WsRef, tid: TunnelId, cid: ClientId, data: Value, t: Transport): seq<Write> {
    if IsTunnelController(tid) then []
    else [Emit(w, Outgoing(TOPIC_AUTHORIZE, Confirmation(cid, IntentOf(data)), None), Some(tid), t)]
  }

  /** The id chosen by an authorization is mapped, if anywhere, only at the tunnel id being authorized. */
  lemma ChosenIdOnlyAt(C: map<ClientId, Client>, W: map<SocketId, WsRef>, sid: SocketId, tid: TunnelId, cid: ClientId,
                       s: SocketId, x: TunnelId)
    requires SocketsWellFormed(C, W) && sid in W && IdChoice(C, W[sid], tid, cid)
    requires s in W && x in W[s].clients.entries && W[s].clients.entries[x] == cid
    ensures s == sid && x == tid
  {
    assert SocketWellFormed(s, W[s], C);
    assert Linked(C, s, x, cid);
    assert SocketWellFormed(sid, W[sid], C);
    if tid in W[sid].clients.entries {
      assert Linked(C, sid, tid, cid);
    }
  }

  /** Socket side of the authorization step. */
  lemma AuthorizeKeepsSockets(C: map<ClientId, Client>, W: map<SocketId, WsRef>, sid: SocketId, tid: TunnelId, cid: ClientId, c: Client)
    requires SocketsWellFormed(C, W) && sid in W
    requires !AuthorizeRejected(W[sid], tid) && IdChoice(C, W[sid], tid, cid)
    requires c.socketId == sid && c.tunnelId == tid
    ensures W[sid].clients.Valid()
    ensures SocketsWellFormed(C[cid := c], W[sid := AuthorizedSocket(W[sid], tid, cid)])
  {
    var w := W[sid];
    assert SocketWellFormed(sid, w, C);
    var w' := AuthorizedSocket(w, tid, cid);
    var C' := C[cid := c];
    var W' := W[sid := w'];
    forall s | s in W'
      ensures SocketWellFormed(s, W'[s], C')
    {
      var ws := W[s];
      assert SocketWellFormed(s, ws, C);
      if s == sid {
        if !w.isTunnel && tid != TUNNEL_NONE {
          assert TUNNEL_NONE !in w.clients.keys;
        }
        forall x | x in w'.clients.entries
          ensures Linked(C', sid, x, w'.clients.entries[x])
        {
          if x != tid {
            var y := w.clients.entries[x];
            assert Linked(C, sid, x, y);
            if y == cid {
              ChosenIdOnlyAt(C, W, sid, tid, cid, sid, x);
            }
          }
        }
      } else {
        forall x | x in ws.clients.entries
          ensures Linked(C', s, x, ws.clients.entries[x])
        {
          var y := ws.clients.entries[x];
          assert Linked(C, s, x, y);
          if y == cid {
            ChosenIdOnlyAt(C, W, sid, tid, cid, s, x);
          }
        }
      }
    }
  }

  /** Client side of the authorization step. */
  lemma AuthorizeKeepsClients(C: map<ClientId, Client>, W: map<SocketId, WsRef>, sid: SocketId, tid: TunnelId, cid: ClientId, c: Client)
    requires ClientsWellFormed(C, W) && sid in W && W[sid].clients.Valid()
    requires IdChoice(C, W[sid], tid, cid)
    requires c.socketId == sid && c.tunnelId == tid && c.clientId == cid && cid != ""
    ensures ClientsWellFormed(C[cid := c], W[sid := AuthorizedSocket(W[sid], tid, cid)])
  {
    var w := W[sid];
    var C' := C[cid := c];
    var W' := W[sid := AuthorizedSocket(w, tid, cid)];
    forall d | d in C'
      ensures ClientWellFormed(d, C'[d], W')
    {
      if d != cid {
        assert ClientWellFormed(d, C[d], W);
      }
    }
  }

  /** An accepted authorization keeps the registry invariant. */
  lemma AuthorizeKeepsRegistry(C: Dicts.Dict<ClientId, Client>, W: Dicts.Dict<SocketId, WsRef>,
                               sid: SocketId, tid: TunnelId, cid: ClientId, data: Value)
    requires Registry(C, W) && sid in W.entries
    requires !AuthorizeRejected(W.entries[sid], tid)
    requires IdChoice(C.entries, W.entries[sid], tid, cid)
    ensures W.entries[sid].clients.Valid()
    ensures Registry(C.Put(cid, AuthorizedClient(sid, tid, cid, data)),
                     W.Put(sid, AuthorizedSocket(W.entries[sid], tid, cid)))
  {
    var c := AuthorizedClient(sid, tid, cid, data);
    AuthorizeKeepsSockets(C.entries, W.entries, sid, tid, cid, c);
    if tid in W.entries[sid].clients.entries {
      assert SocketWellFormed(sid, W.entries[sid], C.entries);
      assert Linked(C.entries, sid, tid, cid);
      assert ClientWellFormed(cid, C.entries[cid], W.entries);
    }
    AuthorizeKeepsClients(C.entries, W.entries, sid, tid, cid, c);
  }

  /**
   * What an authorize request leaves behind: nothing changes when the mode guard
   * rejects it; otherwise the client record is written under the chosen id, the
   * tunnel id is mapped to it, the hooks are awaited and the confirmation sent.
   */
  ghost predicate AuthorizeOutcome(C0: Dicts.Dict<ClientId, Client>, W0: Dicts.Dict<SocketId, WsRef>, O0: seq<Write>, H0: seq<Hook>,
                                   C1: Dicts.Dict<ClientId, Client>, W1: Dicts.Dict<SocketId, WsRef>, O1: seq<Write>, H1: seq<Hook>,
                                   sid: SocketId, tid: TunnelId, data: Value, t: Transport)
  {
    && C0.Valid() && W0.Valid() && sid in W0.entries && W0.entries[sid].clients.Valid()
    && if AuthorizeRejected(W0.entries[sid], tid) then C1 == C0 && W1 == W0 && O1 == O0 && H1 == H0
       else
         && sid in W1.entries && tid in W1.entries[sid].clients.entries
         && var cid := W1.entries[sid].clients.entries[tid];
            && IdChoice(C0.entries, W0.entries[sid], tid, cid)
            && C1 == C0.Put(cid, AuthorizedClient(sid, tid, cid, data))
            && W1 == W0.Put(sid, AuthorizedSocket(W0.entries[sid], tid, cid))
            && H1 == H0 + AuthorizeHooks(C0.entries, W0.entries[sid], tid, cid, data)
            && O1 == O0 + AuthorizeReply(W1.entries[sid], tid, cid, data, t)
  }

  /** A rejected request that changed nothing is an authorize outcome. */
  lemma AuthorizeOutcomeRejected(C0: Dicts.Dict<ClientId, Client>, W0: Dicts.Dict<SocketId, WsRef>, O0: seq<Write>, H0: seq<Hook>,
                                 sid: SocketId, tid: TunnelId, data: Value, t: Transport)
    requires Registry(C0, W0) && sid in W0.entries && AuthorizeRejected(W0.entries[sid], tid)
    ensures AuthorizeOutcome(C0, W0, O0, H0, C0, W0, O0, H0, sid, tid, data, t)
  {
    assert SocketWellFormed(sid, W0.entries[sid], C0.entries);
  }

  /** The accepted update, written out for a chosen id, is an authorize outcome that keeps the registry. */
  lemma AuthorizeOutcomeAccepted(C0: Dicts.Dict<ClientId, Client>, W0: Dicts.Dict<SocketId, WsRef>, O0: seq<Write>, H0: seq<Hook>,
                                 sid: SocketId, tid: TunnelId, cid: ClientId, data: Value, t: Transport)
    requires Registry(C0, W0) && sid in W0.entries && !AuthorizeRejected(W0.entries[sid], tid)
    requires IdChoice(C0.entries, W0.entries[sid], tid, cid)
    ensures W0.entries[sid].clients.Valid()
    ensures
      var W1 := W0.Put(sid, AuthorizedSocket(W0.entries[sid], tid, cid));
      && Registry(C0.Put(cid, AuthorizedClient(sid, tid, cid, data)), W1)
      && AuthorizeOutcome(C0, W0, O0, H0,
                          C0.Put(cid, AuthorizedClient(sid, tid, cid, data)), W1,
                          O0 + AuthorizeReply(W1.entries[sid], tid, cid, data, t),
                          H0 + AuthorizeHooks(C0.entries, W0.entries[sid], tid, cid, data),
                          sid, tid, data, t)
  {
    AuthorizeKeepsRegistry(C0, W0, sid, tid, cid, data);
  }

  /** Sockets other than `sid`, and clients on other sockets, are left as they were. */
  ghost predicate OthersKept(C0: map<ClientId, Client>, W0: map<SocketId, WsRef>, C1: map<ClientId, Client>, W1: map<SocketId, WsRef>, sid: SocketId) {
    && (forall s | s in W0 && s != sid :: s in W1 && W1[s] == W0[s])
    && (forall c | c in C0 && C0[c].socketId != sid :: c in C1 && C1[c] == C0[c])
  }

  /**
   * No socket other than `sid` is registered, and every client not on `sid` was
   * registered before, unchanged; so every newly registered client is on `sid`.
   */
  ghost predicate NothingAdded(C0: map<ClientId, Client>, W0: map<SocketId, WsRef>, C1: map<ClientId, Client>, W1: map<SocketId, WsRef>, sid: SocketId) {
    && W1.Keys <= W0.Keys + {sid}
    && (forall c | c in C1 && C1[c].socketId != sid :: c in C0 && C0[c] == C1[c])
  }

  /** Two steps that each add only on `sid` add only on `sid`. */
  lemma NothingAddedTrans(C0: map<ClientId, Client>, W0: map<SocketId, WsRef>, C1: map<ClientId, Client>, W1: map<SocketId, WsRef>,
                          C2: map<ClientId, Client>, W2: map<SocketId, WsRef>, sid: SocketId)
    requires NothingAdded(C0, W0, C1, W1, sid) && NothingAdded(C1, W1, C2, W2, sid)
    ensures NothingAdded(C0, W0, C2, W2, sid)
    ensures forall c | c in C2 && c !in C0 :: C2[c].socketId == sid
  {
  }

  /** No socket that is a tunnel stops being one. */
  ghost predicate TunnelFlagsKept(W0: map<SocketId, WsRef>, W1: map<SocketId, WsRef>) {
    forall s | s in W0 && s in W1 && W0[s].isTunnel :: W1[s].isTunnel
  }

  /**
   * An authorize request keeps the registry invariant, touches only its own socket
   * and that socket's clients, and never demotes a tunnel; accepted, it leaves
   * the tunnel id mapped to a client registered with that socket and tunnel id.
   */
  lemma AuthorizeOutcomeKeeps(C0: Dicts.Dict<ClientId, Client>, W0: Dicts.Dict<SocketId, WsRef>, O0: seq<Write>, H0: seq<Hook>,
                              C1: Dicts.Dict<ClientId, Client>, W1: Dicts.Dict<SocketId, WsRef>, O1: seq<Write>, H1: seq<Hook>,
                              sid: SocketId, tid: TunnelId, data: Value, t: Transport)
    requires Registry(C0, W0)
    requires AuthorizeOutcome(C0, W0, O0, H0, C1, W1, O1, H1, sid, tid, data, t)
    ensures Registry(C1, W1)
    ensures OthersKept(C0.entries, W0.entries, C1.entries, W1.entries, sid)
    ensures TunnelFlagsKept(W0.entries, W1.entries)
    ensures sid in W1.entries
    ensures !AuthorizeRejected(W0.entries[sid], tid) ==>
      && tid in W1.entries[sid].clients.entries
      && Linked(C1.entries, sid, tid, W1.entries[sid].clients.entries[tid])
      && (tid != TUNNEL_NONE ==> W1.entries[sid].isTunnel)
  {
    if !AuthorizeRejected(W0.entries[sid], tid) {
      var cid := W1.entries[sid].clients.entries[tid];
      AuthorizeKeepsRegistry(C0, W0, sid, tid, cid, data);
      AuthorizeKeepsOthers(C0, W0, sid, tid, cid, data);
    }
  }

  /** The accepted update writes only the socket `sid` and a client of that socket (or a fresh one). */
  lemma AuthorizeKeepsOthers(C: Dicts.Dict<ClientId, Client>, W: Dicts.Dict<SocketId, WsRef>,
                             sid: SocketId, tid: TunnelId, cid: ClientId, data: Value)
    requires Registry(C, W) && sid in W.entries
    requires IdChoice(C.entries, W.entries[sid], tid, cid)
    ensures W.entries[sid].clients.Valid()
    ensures OthersKept(C.entries, W.entries, C.Put(cid, AuthorizedClient(sid, tid, cid, data)).entries,
                       W.Put(sid, AuthorizedSocket(W.entries[sid], tid, cid)).entries, sid)
    ensures TunnelFlagsKept(W.entries, W.Put(sid, AuthorizedSocket(W.entries[sid], tid, cid)).entries)
  {
    assert SocketWellFormed(sid, W.entries[sid], C.entries);
    if cid in C.entries {
      assert Linked(C.entries, sid, tid, cid);
    }
  }

  /**
   * The `_auth_` confirmation reaches the client it confirms: on a socket that is
   * (or has just become) a tunnel it carries that client's tunnel id, on a direct
   * socket it carries none; the controller gets no confirmation.
   */
  lemma AuthorizeConfirmationAddressed(w: WsRef, tid: TunnelId, cid: ClientId, data: Value, t: Transport)
    requires w.clients.Valid()
    ensures var r := AuthorizeReply(AuthorizedSocket(w, tid, cid), tid, cid, data, t);
      && (|r| == 0 <==> IsTunnelController(tid))
      && (|r| == 1 ==>
            && r[0].message["topic"] == Str(TOPIC_AUTHORIZE)
            && r[0].message["data"] == Confirmation(cid, IntentOf(data))
            && (tid == TUNNEL_NONE <==> FIELD_TUNNEL_ID !in r[0].message)
            && (tid != TUNNEL_NONE ==> r[0].message[FIELD_TUNNEL_ID] == Str(tid)))
  {
  }

  // ---------------------------------------------------------------------------
  // De-authorization

  /** The disconnect hook for a client, by variant of its tunnel id. */
  function DisconnectHook(cid: ClientId, tid: TunnelId): Hook {
    if IsTunnelController(tid) then TunnelControllerDisconnected(cid) else ClientDisconnected(cid)
  }

  /** The registries after `_deauthorize_client(sid, tid)`. */
  function DeauthorizeState(C: Dicts.Dict<ClientId, Client>, W: Dicts.Dict<SocketId, WsRef>, sid: SocketId, tid: TunnelId)
    : (Dicts.Dict<ClientId, Client>, Dicts.Dict<SocketId, WsRef>)
    requires C.Valid() && W.Valid() && sid in W.entries && W.entries[sid].clients.Valid()
  {
    var w := W.entries[sid];
    match w.clients.Get(tid)
    case None => (C, W)
    case Some(cid) =>
      (if cid in C.entries then C.Remove(cid) else C, W.Put(sid, w.(clients := w.clients.Remove(tid))))
  }

  /** The hooks `_deauthorize_client(sid, tid)` awaits: one disconnect when the client was registered. */
  function DeauthorizeHooks(C: Dicts.Dict<ClientId, Client>, W: Dicts.Dict<SocketId, WsRef>, sid: SocketId, tid: TunnelId): seq<Hook>
    requires sid in W.entries
  {
    match W.entries[sid].clients.Get(tid)
    case None => []
    case Some(cid) => if cid in C.entries then [DisconnectHook(cid, tid)] else []
  }

  /** What a de-authorize request leaves behind. */
  ghost predicate DeauthorizeOutcome(C0: Dicts.Dict<ClientId, Client>, W0: Dicts.Dict<SocketId, WsRef>, H0: seq<Hook>,
                                     C1: Dicts.Dict<ClientId, Client>, W1: Dicts.Dict<SocketId, WsRef>, H1: seq<Hook>,
                                     sid: SocketId, tid: TunnelId)
  {
    && C0.Valid() && W0.Valid() && sid in W0.entries && W0.entries[sid].clients.Valid()
    && (C1, W1) == DeauthorizeState(C0, W0, sid, tid)
    && H1 == H0 + DeauthorizeHooks(C0, W0, sid, tid)
  }

  /** Socket side of the de-authorization step. */
  lemma DeauthorizeKeepsSockets(C: map<ClientId, Client>, W: map<SocketId, WsRef>, sid: SocketId, tid: TunnelId)
    requires SocketsWellFormed(C, W) && sid in W && tid in W[sid].clients.entries
    ensures W[sid].clients.Valid()
    ensures var w := W[sid];
      SocketsWellFormed(C - {w.clients.entries[tid]}, W[sid := w.(clients := w.clients.Remove(tid))])
  {
    var w := W[sid];
    assert SocketWellFormed(sid, w, C);
    var cid := w.clients.entries[tid];
    assert Linked(C, sid, tid, cid);
    var C' := C - {cid};
    var W' := W[sid := w.(clients := w.clients.Remove(tid))];
    forall s | s in W'
      ensures SocketWellFormed(s, W'[s], C')
    {
      var ws := W[s];
      assert SocketWellFormed(s, ws, C);
      forall x | x in W'[s].clients.entries
        ensures Linked(C', s, x, W'[s].clients.entries[x])
      {
        assert Linked(C, s, x, ws.clients.entries[x]);
      }
    }
  }

  /** Client side of the de-authorization step. */
  lemma DeauthorizeKeepsClients(C: map<ClientId, Client>, W: map<SocketId, WsRef>, sid: SocketId, tid: TunnelId)
    requires ClientsWellFormed(C, W) && sid in W && W[sid].clients.Valid() && tid in W[sid].clients.entries
    ensures var w := W[sid];
      ClientsWellFormed(C - {w.clients.entries[tid]}, W[sid := w.(clients := w.clients.Remove(tid))])
  {
    var w := W[sid];
    var C' := C - {w.clients.entries[tid]};
    var W' := W[sid := w.(clients := w.clients.Remove(tid))];
    forall d | d in C'
      ensures ClientWellFormed(d, C'[d], W')
    {
      assert ClientWellFormed(d, C[d], W);
    }
  }

  /** De-authorization keeps the registry invariant and unmaps the tunnel id. */
  lemma DeauthorizeKeepsRegistry(C: Dicts.Dict<ClientId, Client>, W: Dicts.Dict<SocketId, WsRef>, sid: SocketId, tid: TunnelId)
    requires Registry(C, W) && sid in W.entries
    ensures W.entries[sid].clients.Valid()
    ensures var r := DeauthorizeState(C, W, sid, tid);
      && Registry(r.0, r.1)
      && sid in r.1.entries
      && tid !in r.1.entries[sid].clients.entries
  {
    var w := W.entries[sid];
    assert SocketWellFormed(sid, w, C.entries);
    if tid in w.clients.entries {
      var cid := w.clients.entries[tid];
      assert Linked(C.entries, sid, tid, cid);
      DeauthorizeKeepsSockets(C.entries, W.entries, sid, tid);
      DeauthorizeKeepsClients(C.entries, W.entries, sid, tid);
    }
  }

  /**
   * De-authorization drops the client registered under (sid, tid) and no other,
   * and fires one disconnect hook exactly when the tunnel id was mapped.
   */
  lemma DeauthorizeRemovesOnlyTarget(C: Dicts.Dict<ClientId, Client>, W: Dicts.Dict<SocketId, WsRef>, sid: SocketId, tid: TunnelId)
    requires Registry(C, W) && sid in W.entries
    ensures W.entries[sid].clients.Valid()
    ensures var r := DeauthorizeState(C, W, sid, tid);
      && (forall c | c in C.entries && !(C.entries[c].socketId == sid && C.entries[c].tunnelId == tid) ::
            c in r.0.entries && r.0.entries[c] == C.entries[c])
      && (forall c | c in r.0.entries :: c in C.entries)
    ensures |DeauthorizeHooks(C, W, sid, tid)| == 1 <==> tid in W.entries[sid].clients.entries
    ensures |DeauthorizeHooks(C, W, sid, tid)| == 0 <==> tid !in W.entries[sid].clients.entries
  {
    var w := W.entries[sid];
    assert SocketWellFormed(sid, w, C.entries);
    if tid in w.clients.entries {
      assert Linked(C.entries, sid, tid, w.clients.entries[tid]);
    }
  }

  // ---------------------------------------------------------------------------
  // Teardown when a socket's read loop ends

  /**
   * The cleanup loop of `_handler` over the first ids of the socket's table:
   * each id still registered is removed and its disconnect hook awaited.
   */
  function RemoveClients(C: Dicts.Dict<ClientId, Client>, cids: seq<ClientId>): (r: (Dicts.Dict<ClientId, Client>, seq<Hook>))
    requires C.Valid()
    ensures r.0.Valid()
  {
    if |cids| == 0 then (C, [])
    else
      var r1 := RemoveClients(C, cids[..|cids| - 1]);
      var cid := cids[|cids| - 1];
      if cid in r1.0.entries then (r1.0.Remove(cid), r1.1 + [DisconnectHook(cid, r1.0.entries[cid].tunnelId)])
      else r1
  }

  /** De-authorization touches only its own socket and that socket's clients, and never demotes a tunnel. */
  lemma DeauthorizeOutcomeKeeps(C0: Dicts.Dict<ClientId, Client>, W0: Dicts.Dict<SocketId, WsRef>, H0: seq<Hook>,
                                C1: Dicts.Dict<ClientId, Client>, W1: Dicts.Dict<SocketId, WsRef>, H1: seq<Hook>,
                                sid: SocketId, tid: TunnelId)
    requires Registry(C0, W0)
    requires DeauthorizeOutcome(C0, W0, H0, C1, W1, H1, sid, tid)
    ensures Registry(C1, W1) && sid in W1.entries
    ensures OthersKept(C0.entries, W0.entries, C1.entries, W1.entries, sid)
    ensures TunnelFlagsKept(W0.entries, W1.entries)
  {
    DeauthorizeKeepsRegistry(C0, W0, sid, tid);
    DeauthorizeRemovesOnlyTarget(C0, W0, sid, tid);
  }

  /** Removing clients never adds or changes one. */
  lemma {:induction false} RemoveClientsOnlyRemoves(C: Dicts.Dict<ClientId, Client>, cids: seq<ClientId>)
    requires C.Valid()
    ensures forall x | x in RemoveClients(C, cids).0.entries :: x in C.entries && RemoveClients(C, cids).0.entries[x] == C.entries[x]
  {
    if |cids| > 0 {
      RemoveClientsOnlyRemoves(C, cids[..|cids| - 1]);
    }
  }

  /** Removing distinct registered ids removes exactly them, with one hook each, in order. */
  lemma {:induction false} RemoveClientsSpec(C: Dicts.Dict<ClientId, Client>, cids: seq<ClientId>)
    requires C.Valid()
    requires forall i | 0 <= i < |cids| :: cids[i] in C.entries
    requires forall i, j | 0 <= i < j < |cids| :: cids[i] != cids[j]
    ensures var r := RemoveClients(C, cids);
      && (forall x | x in r.0.entries :: x in C.entries && x !in cids && r.0.entries[x] == C.entries[x])
      && (forall x | x in C.entries && x !in cids :: x in r.0.entries)
      && |r.1| == |cids|
      && forall i | 0 <= i < |cids| :: r.1[i] == DisconnectHook(cids[i], C.entries[cids[i]].tunnelId)
  {
    if |cids| > 0 {
      var init := cids[..|cids| - 1];
      var cid := cids[|cids| - 1];
      assert cids == init + [cid];
      RemoveClientsSpec(C, init);
      var r1 := RemoveClients(C, init);
      assert forall k | 0 <= k < |init| :: init[k] == cids[k] && cids[k] != cid;
      assert cid !in init;
      assert cid in r1.0.entries;
    }
  }

  /** Socket side of teardown: the other sockets only point at clients that stay. */
  lemma TeardownKeepsSockets(C: map<ClientId, Client>, W: map<SocketId, WsRef>, sid: SocketId, C': map<ClientId, Client>)
    requires SocketsWellFormed(C, W)
    requires forall c | c in C && C[c].socketId != sid :: c in C' && C'[c] == C[c]
    ensures SocketsWellFormed(C', W - {sid})
  {
    forall s | s in W - {sid}
      ensures SocketWellFormed(s, W[s], C')
    {
      assert SocketWellFormed(s, W[s], C);
      forall x | x in W[s].clients.entries
        ensures Linked(C', s, x, W[s].clients.entries[x])
      {
        assert Linked(C, s, x, W[s].clients.entries[x]);
      }
    }
  }

  /** Client side of teardown: the clients that stay were on other sockets. */
  lemma TeardownKeepsClients(C: map<ClientId, Client>, W: map<SocketId, WsRef>, sid: SocketId, C': map<ClientId, Client>)
    requires ClientsWellFormed(C, W)
    requires forall c | c in C' :: c in C && C'[c] == C[c] && C[c].socketId != sid
    ensures ClientsWellFormed(C', W - {sid})
  {
    forall c | c in C'
      ensures ClientWellFormed(c, C'[c], W - {sid})
    {
      assert ClientWellFormed(c, C[c], W);
    }
  }

  /**
   * Teardown of a socket keeps the registry invariant: with the socket removed, all
   * of its N clients are gone, N disconnect hooks fire (by variant, in table order),
   * and every other client is untouched.
   */
  lemma TeardownKeepsRegistry(C: Dicts.Dict<ClientId, Client>, W: Dicts.Dict<SocketId, WsRef>, sid: SocketId)
    requires Registry(C, W) && sid in W.entries
    ensures W.entries[sid].clients.Valid()
    ensures var w := W.entries[sid];
      var r := RemoveClients(C, w.clients.Values());
      && Registry(r.0, W.Remove(sid))
      && |r.1| == |w.clients.keys|
      && (forall i | 0 <= i < |w.clients.keys| ::
            r.1[i] == DisconnectHook(w.clients.entries[w.clients.keys[i]], w.clients.keys[i]))
      && (forall c | c in r.0.entries :: r.0.entries[c].socketId != sid)
      && (forall c | c in C.entries && C.entries[c].socketId != sid :: c in r.0.entries && r.0.entries[c] == C.entries[c])
      && (forall c | c in r.0.entries :: c in C.entries)
  {
    var w := W.entries[sid];
    assert SocketWellFormed(sid, w, C.entries);
    var cids := w.clients.Values();
    forall i | 0 <= i < |cids|
      ensures cids[i] in C.entries && C.entries[cids[i]].socketId == sid && C.entries[cids[i]].tunnelId == w.clients.keys[i]
    {
      assert w.clients.keys[i] in w.clients.entries;
      assert Linked(C.entries, sid, w.clients.keys[i], cids[i]);
    }
    Dicts.DistinctIndices(w.clients.keys);
    RemoveClientsSpec(C, cids);
    var r := RemoveClients(C, cids);
    forall c | c in C.entries && C.entries[c].socketId == sid
      ensures c in cids
    {
      assert ClientWellFormed(c, C.entries[c], W.entries);
      var tid := C.entries[c].tunnelId;
      assert tid in w.clients.keys;
      var k :| 0 <= k < |w.clients.keys| && w.clients.keys[k] == tid;
      assert cids[k] == c;
    }
    forall c | c in C.entries && c in cids
      ensures C.entries[c].socketId == sid
    {
      var k :| 0 <= k < |cids| && cids[k] == c;
    }
    TeardownKeepsSockets(C.entries, W.entries, sid, r.0.entries);
    TeardownKeepsClients(C.entries, W.entries, sid, r.0.entries);
  }

  /** The registry invariant gives a registered socket a valid tunnel table. */
  lemma TableValid(C: Dicts.Dict<ClientId, Client>, W: Dicts.Dict<SocketId, WsRef>, sid: SocketId)
    requires Registry(C, W) && sid in W.entries
    ensures W.entries[sid].clients.Valid()
  {
    assert SocketWellFormed(sid, W.entries[sid], C.entries);
  }

  /** The registry invariant gives every socket a valid table. */
  lemma RegistryTablesValid(C: Dicts.Dict<ClientId, Client>, W: Dicts.Dict<SocketId, WsRef>)
    requires Registry(C, W)
    ensures TablesValid(W.Values())
  {
    forall i | 0 <= i < |W.keys|
      ensures W.Values()[i].clients.Valid()
    {
      assert W.keys[i] in W.entries;
      assert SocketWellFormed(W.keys[i], W.entries[W.keys[i]], C.entries);
    }
  }

  /**
   * A registered client always has its socket, so `send_client_message` writes
   * exactly when the client id is registered, and then with the client's tunnel id.
   */
  lemma ClientWritesRegistered(C: Dicts.Dict<ClientId, Client>, W: Dicts.Dict<SocketId, WsRef>, o: Outgoing, cid: ClientId, t: Transport)
    requires Registry(C, W)
    ensures var ws := ClientWrites(C.entries, W.entries, o, cid, t);
      && (|ws| == 1 <==> cid in C.entries)
      && (|ws| == 0 <==> cid !in C.entries)
      && (cid in C.entries ==>
            ws[0] == Emit(W.entries[C.entries[cid].socketId], o, Some(C.entries[cid].tunnelId), t))
  {
    if cid in C.entries {
      assert ClientWellFormed(cid, C.entries[cid], W.entries);
    }
  }

  // ---------------------------------------------------------------------------
  // Inbound frames

  /** How `_handler` reads one decoded frame. */
  datatype Inbound =
    | Ignored                                     // not a dict, or no string topic: `continue`
    | BadTunnelId                                 // `_tid_` present but not a string: `return False`
    | AuthorizeRequest(tid: TunnelId, data: Value)
    | DeauthorizeRequest(tid: TunnelId)
    | DataMessage(topic: string, tid: TunnelId, data: Value, message: Message)

  /** The checks of the handler loop on one decoded frame. */
  function Classify(parsed: Value): Inbound {
    if !parsed.Obj? then Ignored
    else
      var topic := Get(parsed.fields, "topic");
      if !topic.Str? then Ignored
      else
        var data := Get(parsed.fields, "data");
        var tidField := Get(parsed.fields, FIELD_TUNNEL_ID);
        if tidField != Null && !tidField.Str? then BadTunnelId
        else
          var tid := if tidField.Str? then tidField.s else TUNNEL_NONE;
          if topic.s == TOPIC_AUTHORIZE then AuthorizeRequest(tid, data)
          else if topic.s == TOPIC_DEAUTHORIZE then DeauthorizeRequest(tid)
          else DataMessage(topic.s, tid, data, parsed.fields)
  }

  /** A frame whose `_tid_` is a number is read as a bad tunnel id, on which `_handler` returns at once. */
  lemma NumericTunnelIdIsBad()
    ensures Classify(Obj(map["topic" := Str("ping"), FIELD_TUNNEL_ID := Int(7)])).BadTunnelId?
  {
    var fields := map["topic" := Str("ping"), FIELD_TUNNEL_ID := Int(7)];
    assert Get(fields, "topic") == Str("ping");
    assert Get(fields, FIELD_TUNNEL_ID) == Int(7);
  }

  /**
   * The envelope round trip: a message this server writes for a tunnelled client,
   * read back by the same rules, yields that client's tunnel id, the topic and the data.
   */
  lemma ClassifyOutbound(o: Outgoing, tid: TunnelId)
    requires o.extra.None?
    requires o.topic != TOPIC_AUTHORIZE && o.topic != TOPIC_DEAUTHORIZE
    ensures var m := OutboundMessage(true, o, Some(tid));
      Classify(Obj(m)) == DataMessage(o.topic, tid, o.data, m)
  {
  }

  /** One frame read from the socket: a decoded value, or bytes the codec rejects (which raises). */
  datatype Frame = Decoded(parsed: Value) | Undecodable

  /** How the read loop goes on after a frame: next frame, leave through the cleanup, or return without it. */
  datatype Step = Next | Closed | Abandoned

  /** The step after one frame: an undecodable frame closes, a bad `_tid_` abandons, anything else goes on. */
  function FrameStep(f: Frame): Step {
    if f.Undecodable? then Closed
    else if Classify(f.parsed).BadTunnelId? then Abandoned
    else Next
  }

  /**
   * Where the read loop stops: the index of the first frame that closes or
   * abandons it, or `|frames|` when every frame lets it go on.
   */
  function StopAt(frames: seq<Frame>): (k: nat)
    ensures k <= |frames|
    ensures forall j | 0 <= j < k :: FrameStep(frames[j]) == Next
    ensures k < |frames| ==> FrameStep(frames[k]) != Next
  {
    if |frames| == 0 || FrameStep(frames[0]) != Next then 0
    else
      var k := 1 + StopAt(frames[1..]);
      assert forall j | 1 <= j < k :: frames[j] == frames[1..][j - 1];
      k
  }

  /** A frame that asks `_auth_` for some tunnel id. */
  predicate AuthorizeFrame(f: Frame) {
    f.Decoded? && Classify(f.parsed).AuthorizeRequest?
  }

  /** A frame that asks `_deauth_` for some tunnel id. */
  predicate DeauthorizeFrame(f: Frame) {
    f.Decoded? && Classify(f.parsed).DeauthorizeRequest?
  }

  /** No frame before index `k` asks `_deauth_`. */
  predicate NoDeauthorizeBefore(frames: seq<Frame>, k: nat)
    requires k <= |frames|
  {
    forall j | 0 <= j < k :: !DeauthorizeFrame(frames[j])
  }

  /** Some frame before index `k` asks `_auth_`. */
  predicate AuthorizeBefore(frames: seq<Frame>, k: nat)
    requires k <= |frames|
  {
    exists j | 0 <= j < k :: AuthorizeFrame(frames[j])
  }

  /**
   * One frame further into the read loop: a frame that lets the loop go on
   * lies before the stopping frame, and one that does not is the stopping
   * frame, which asks neither `_auth_` nor `_deauth_`.
   */
  lemma ScanStep(frames: seq<Frame>, i: nat)
    requires i < |frames| && i <= StopAt(frames)
    ensures FrameStep(frames[i]) == Next ==> i < StopAt(frames)
    ensures FrameStep(frames[i]) != Next ==> i == StopAt(frames) && !DeauthorizeFrame(frames[i]) && !AuthorizeFrame(frames[i])
  {
  }

  /** The two flags above grow by the kind of the next frame. */
  lemma FlagsStep(frames: seq<Frame>, i: nat)
    requires i < |frames|
    ensures NoDeauthorizeBefore(frames, i + 1) == (NoDeauthorizeBefore(frames, i) && !DeauthorizeFrame(frames[i]))
    ensures AuthorizeBefore(frames, i + 1) == (AuthorizeBefore(frames, i) || AuthorizeFrame(frames[i]))
  {
  }

  /** The socket holds at least one client. */
  predicate Engaged(w: WsRef) {
    w.clients.entries != map[]
  }

  /**
   * `_authorize_client` never unmaps a tunnel id of the socket. Afterwards the
   * socket holds a client, unless it is a tunnel socket that held none before
   * (the one case in which a request can be rejected on an empty socket).
   */
  lemma AuthorizeEngages(C0: Dicts.Dict<ClientId, Client>, W0: Dicts.Dict<SocketId, WsRef>, O0: seq<Write>, H0: seq<Hook>,
                         C1: Dicts.Dict<ClientId, Client>, W1: Dicts.Dict<SocketId, WsRef>, O1: seq<Write>, H1: seq<Hook>,
                         sid: SocketId, tid: TunnelId, data: Value, t: Transport)
    requires AuthorizeOutcome(C0, W0, O0, H0, C1, W1, O1, H1, sid, tid, data, t)
    ensures sid in W1.entries
    ensures forall x | x in W0.entries[sid].clients.entries :: x in W1.entries[sid].clients.entries
    ensures (W0.entries[sid].isTunnel ==> Engaged(W0.entries[sid])) ==> Engaged(W1.entries[sid])
  {
    var w := W0.entries[sid];
    if AuthorizeRejected(w, tid) {
      if !w.isTunnel {
        assert w.clients.keys[0] in w.clients.entries;
      }
    } else {
      assert tid in W1.entries[sid].clients.entries;
    }
  }

  /** An authorize request registers no socket, and its one new client, if any, is on the socket. */
  lemma AuthorizeAddsNothing(C0: Dicts.Dict<ClientId, Client>, W0: Dicts.Dict<SocketId, WsRef>, O0: seq<Write>, H0: seq<Hook>,
                             C1: Dicts.Dict<ClientId, Client>, W1: Dicts.Dict<SocketId, WsRef>, O1: seq<Write>, H1: seq<Hook>,
                             sid: SocketId, tid: TunnelId, data: Value, t: Transport)
    requires AuthorizeOutcome(C0, W0, O0, H0, C1, W1, O1, H1, sid, tid, data, t)
    ensures NothingAdded(C0.entries, W0.entries, C1.entries, W1.entries, sid)
  {
  }

  /** A de-authorize request only removes. */
  lemma DeauthorizeAddsNothing(C0: Dicts.Dict<ClientId, Client>, W0: Dicts.Dict<SocketId, WsRef>, H0: seq<Hook>,
                               C1: Dicts.Dict<ClientId, Client>, W1: Dicts.Dict<SocketId, WsRef>, H1: seq<Hook>,
                               sid: SocketId, tid: TunnelId)
    requires DeauthorizeOutcome(C0, W0, H0, C1, W1, H1, sid, tid)
    ensures NothingAdded(C0.entries, W0.entries, C1.entries, W1.entries, sid)
    ensures C1.entries.Keys <= C0.entries.Keys
  {
  }

  /**
   * What a stretch of the read loop without `_deauth_` keeps of the socket it
   * started from (`w0`): every tunnel id stays mapped, a tunnel socket holds a
   * client if it did at the start, and once an `_auth_` frame has been read
   * (`authSeen`) the socket holds a client.
   */
  ghost predicate Grown(w0: WsRef, w: WsRef, authSeen: bool) {
    && (forall x | x in w0.clients.entries :: x in w.clients.entries)
    && ((w0.isTunnel ==> Engaged(w0)) ==> (w.isTunnel ==> Engaged(w)))
    && ((w0.isTunnel ==> Engaged(w0)) && authSeen ==> Engaged(w))
  }

  /** One frame that is not `_deauth_` keeps `Grown`, and counts when it is `_auth_`. */
  lemma FrameKeepsGrown(Cp: Dicts.Dict<ClientId, Client>, Wp: Dicts.Dict<SocketId, WsRef>, Op: seq<Write>, Hp: seq<Hook>,
                        C: Dicts.Dict<ClientId, Client>, W: Dicts.Dict<SocketId, WsRef>, O: seq<Write>, H: seq<Hook>,
                        sid: SocketId, f: Frame, t: Transport, w0: WsRef, authSeen: bool)
    requires sid in Wp.entries && !DeauthorizeFrame(f)
    requires !AuthorizeFrame(f) ==> W == Wp
    requires AuthorizeFrame(f) ==>
      AuthorizeOutcome(Cp, Wp, Op, Hp, C, W, O, H, sid, Classify(f.parsed).tid, Classify(f.parsed).data, t)
    requires Grown(w0, Wp.entries[sid], authSeen)
    ensures sid in W.entries && Grown(w0, W.entries[sid], authSeen || AuthorizeFrame(f))
  {
    if AuthorizeFrame(f) {
      var k := Classify(f.parsed);
      AuthorizeEngages(Cp, Wp, Op, Hp, C, W, O, H, sid, k.tid, k.data, t);
    }
  }

  /** A socket that holds a client has a registered client on that socket. */
  lemma EngagedHoldsClient(C: Dicts.Dict<ClientId, Client>, W: Dicts.Dict<SocketId, WsRef>, sid: SocketId)
    requires Registry(C, W) && sid in W.entries && Engaged(W.entries[sid])
    ensures exists c | c in C.entries :: C.entries[c].socketId == sid
  {
    var w := W.entries[sid];
    var tid :| tid in w.clients.entries;
    assert SocketWellFormed(sid, w, C.entries);
    assert Linked(C.entries, sid, tid, w.clients.entries[tid]);
  }

  /**
   * The frames of the reported case: an `_auth_` request, then a frame with a
   * numeric `_tid_`. The read loop stops at the second frame and abandons the
   * connection, after one authorization and no de-authorization.
   */
  lemma AuthThenNumericTunnelId()
    ensures var frames := [Decoded(Obj(map["topic" := Str(TOPIC_AUTHORIZE)])),
                           Decoded(Obj(map["topic" := Str("ping"), FIELD_TUNNEL_ID := Int(7)]))];
      && StopAt(frames) == 1 && FrameStep(frames[1]) == Abandoned
      && AuthorizeFrame(frames[0]) && !DeauthorizeFrame(frames[0])
  {
    var auth := map["topic" := Str(TOPIC_AUTHORIZE)];
    assert Get(auth, "topic") == Str(TOPIC_AUTHORIZE);
    assert Get(auth, FIELD_TUNNEL_ID) == Null;
    NumericTunnelIdIsBad();
    var frames := [Decoded(Obj(auth)), Decoded(Obj(map["topic" := Str("ping"), FIELD_TUNNEL_ID := Int(7)]))];
    assert frames[1..] == [frames[1]];
  }

  /** The hooks a data message awaits: dispatch to `_on_message_received` for a registered sender only. */
  function DataHooks(C: map<ClientId, Client>, w: WsRef, topic: string, tid: TunnelId, data: Value, message: Message): seq<Hook> {
    match w.clients.Get(tid)
    case None => []
    case Some(cid) =>
      if cid in C then [MessageReceived(cid, topic, data, message, IsTunnelController(tid))] else []
  }
}
