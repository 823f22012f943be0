/**
 * `WSTDApiServer`: the method layer over the broker. Handlers are registered
 * under topic prefixes; every handler whose prefix starts an inbound topic is
 * awaited in table order, and what it returns may be sent back automatically.
 * The lifecycle hooks of the broker go to listener slots that may be empty.
 *
 * Python callables are known by identity (`FnId`); what a handler returns when
 * awaited is given by a `Behaviour`. Every listener or handler call is appended
 * to `calls`.
 */
module WsApiServer {
  import opened Wrappers
  import opened Values
  import opened WsModel
  import opened WsServerBase
  import Dicts
  import Strs

  /** A Python callable handed to the server, by identity. */
  type FnId = nat

  /** What a handler returns: a `WebsocketMessageResponse`, or anything else. */
  datatype Response =
    | Other
    | MessageResponse(data: Value, topic: Option<string>, broadcast: bool, intentFilter: Option<string>)

  /** What the handler `fn` returns when awaited with `(client_id, topic, data)`. */
  type Behaviour = (FnId, ClientId, string, Value) -> Response

  /** One awaited listener or handler. */
  datatype Call =
    | ListenerCall(fn: FnId, event: Hook)
    | HandlerCall(fn: FnId, clientId: ClientId, topic: string, data: Value)

  /** The arguments of one `send_message` call. */
  datatype SendRequest = SendRequest(o: Outgoing, clientId: Option<ClientId>, filter: Option<string>)

  /** `WebsocketMessageResponse(data, topic=None, broadcast=False, intent_filter=None)` */
  function NewResponse(data: Value, topic: Option<string> := None, broadcast: bool := false,
                       intentFilter: Option<string> := None): Response
  {
    MessageResponse(data, topic, broadcast, intentFilter)
  }

  /** A response built from its data alone has no topic, is not a broadcast and has no filter. */
  lemma ResponseDefaults(data: Value)
    ensures NewResponse(data).topic.None? && !NewResponse(data).broadcast && NewResponse(data).intentFilter.None?
    ensures NewResponse(data).data == data
  {
  }

  // ---------------------------------------------------------------------------
  // Auto-response

  /**
   * `_check_auto_response`: only a `WebsocketMessageResponse` is sent; its topic
   * defaults to the inbound one; a broadcast goes to no client id (so under the
   * filter), anything else to the sender.
   */
  function AutoResponse(sender: ClientId, topic: string, r: Response): Option<SendRequest> {
    if r.Other? then None
    else
      var responseTopic := if r.topic.None? then topic else r.topic.value;
      Some(SendRequest(Outgoing(responseTopic, r.data, None), if r.broadcast then None else Some(sender), r.intentFilter))
  }

  /** The writes one auto-response makes. */
  function ResponseWrites(C: map<ClientId, Client>, W: Dicts.Dict<SocketId, WsRef>, s: Option<SendRequest>, t: Transport): seq<Write>
    requires W.Valid() && TablesValid(W.Values())
  {
    if s.None? then [] else SendMessageWrites(C, W, s.value.o, s.value.clientId, s.value.filter, t)
  }

  /**
   * A reply that is not a broadcast reaches the registered sender with exactly one
   * write, on the sender's socket, under the reply topic (the inbound one by
   * default), whatever its intent filter says.
   */
  lemma ReplyReachesSender(C: Dicts.Dict<ClientId, Client>, W: Dicts.Dict<SocketId, WsRef>, sender: ClientId, topic: string,
                           r: Response, f: Option<string>, t: Transport)
    requires Registry(C, W) && sender in C.entries
    requires r.MessageResponse? && !r.broadcast
    ensures TablesValid(W.Values())
    ensures var ws := ResponseWrites(C.entries, W, AutoResponse(sender, topic, r), t);
      && ws == ResponseWrites(C.entries, W, AutoResponse(sender, topic, r.(intentFilter := f)), t)
      && |ws| == 1 && ws[0].socketId == C.entries[sender].socketId
      && "topic" in ws[0].message && ws[0].message["topic"] == Str(if r.topic.None? then topic else r.topic.value)
      && "data" in ws[0].message && ws[0].message["data"] == r.data
  {
    RegistryTablesValid(C, W);
    assert ClientWellFormed(sender, C.entries[sender], W.entries);
    assert sender != "";
    var o := Outgoing(if r.topic.None? then topic else r.topic.value, r.data, None);
    DirectSendIgnoresFilter(C.entries, W, o, sender, r.intentFilter, f, t);
    var c := C.entries[sender];
    assert SocketWellFormed(c.socketId, W.entries[c.socketId], C.entries);
    OutboundMessageShape(W.entries[c.socketId].isTunnel, o, Some(c.tunnelId));
  }

  /** A broadcast response is the broadcast of `send_broadcast_message` under the response's filter; anything else sends nothing. */
  lemma BroadcastResponse(C: Dicts.Dict<ClientId, Client>, W: Dicts.Dict<SocketId, WsRef>, sender: ClientId, topic: string,
                          r: Response, t: Transport)
    requires Registry(C, W)
    ensures TablesValid(W.Values())
    ensures r.Other? ==> ResponseWrites(C.entries, W, AutoResponse(sender, topic, r), t) == []
    ensures r.MessageResponse? && r.broadcast ==>
      ResponseWrites(C.entries, W, AutoResponse(sender, topic, r), t)
        == Broadcast(W.Values(), C.entries, Outgoing(if r.topic.None? then topic else r.topic.value, r.data, None), r.intentFilter, t)
  {
    RegistryTablesValid(C, W);
  }

  // ---------------------------------------------------------------------------
  // Dispatch of inbound messages

  /** The prefixes, in table order, that start `topic`. */
  function MatchedPrefixes(prefixes: seq<string>, topic: string): (r: seq<string>)
    ensures forall p | p in r :: p in prefixes && Strs.StartsWith(topic, p)
  {
    if |prefixes| == 0 then []
    else
      var p := prefixes[|prefixes| - 1];
      MatchedPrefixes(prefixes[..|prefixes| - 1], topic) + (if Strs.StartsWith(topic, p) then [p] else [])
  }

  /** Every prefix of the table that starts the topic is matched, and nothing else is. */
  lemma {:induction false} MatchedPrefixesMembers(prefixes: seq<string>, topic: string)
    ensures forall p :: p in MatchedPrefixes(prefixes, topic) <==> p in prefixes && Strs.StartsWith(topic, p)
  {
    if |prefixes| > 0 {
      var init := prefixes[..|prefixes| - 1];
      MatchedPrefixesMembers(init, topic);
      assert prefixes == init + [prefixes[|prefixes| - 1]];
    }
  }

  /**
   * `xs` is a subsequence of `ys`: it is `ys` with some elements left out,
   * the rest in the same order. Read from the back: the last element of `xs`
   * is the last of `ys`, or `ys`'s last element is one of those left out.
   */
  ghost predicate Subsequence<T>(xs: seq<T>, ys: seq<T>)
    decreases |ys|
  {
    if |ys| == 0 then |xs| == 0
    else
      || (|xs| > 0 && xs[|xs| - 1] == ys[|ys| - 1] && Subsequence(xs[..|xs| - 1], ys[..|ys| - 1]))
      || Subsequence(xs, ys[..|ys| - 1])
  }

  /** The matched prefixes keep the table's order: they are a subsequence of it, each prefix at most once. */
  lemma {:induction false} MatchedPrefixesOrdered(prefixes: seq<string>, topic: string)
    requires Dicts.Distinct(prefixes)
    ensures Subsequence(MatchedPrefixes(prefixes, topic), prefixes)
    ensures Dicts.Distinct(MatchedPrefixes(prefixes, topic))
  {
    if |prefixes| > 0 {
      var init := prefixes[..|prefixes| - 1];
      var p := prefixes[|prefixes| - 1];
      DistinctInit(prefixes);
      MatchedPrefixesOrdered(init, topic);
      var r := MatchedPrefixes(init, topic);
      if Strs.StartsWith(topic, p) {
        DistinctLastFresh(prefixes);
        Dicts.DistinctSnoc(r, p);
        assert MatchedPrefixes(prefixes, topic) == r + [p];
        assert (r + [p])[..|r|] == r;
      } else {
        assert MatchedPrefixes(prefixes, topic) == r + [];
        assert r + [] == r;
      }
    }
  }

  lemma {:induction false} DistinctInit<T>(s: seq<T>)
    requires |s| > 0 && Dicts.Distinct(s)
    ensures Dicts.Distinct(s[..|s| - 1])
  {
    if |s| > 1 {
      assert s[1..][..|s| - 2] == s[..|s| - 1][1..];
      DistinctInit(s[1..]);
    }
  }

  lemma {:induction false} DistinctLastFresh<T>(s: seq<T>)
    requires |s| > 0 && Dicts.Distinct(s)
    ensures s[|s| - 1] !in s[..|s| - 1]
  {
    if |s| > 1 {
      assert s[1..][..|s| - 2] == s[..|s| - 1][1..];
      DistinctLastFresh(s[1..]);
      assert s[..|s| - 1] == [s[0]] + s[1..][..|s| - 2];
    }
  }

  /** One more table entry adds its prefix when it starts the topic. */
  lemma MatchedPrefixesSnoc(prefixes: seq<string>, topic: string, i: nat)
    requires i < |prefixes|
    ensures MatchedPrefixes(prefixes[..i + 1], topic)
      == MatchedPrefixes(prefixes[..i], topic) + (if Strs.StartsWith(topic, prefixes[i]) then [prefixes[i]] else [])
  {
    assert prefixes[..i + 1][..i] == prefixes[..i];
  }

  /** The handler calls for the matched prefixes, in order. */
  function HandlerCalls(table: map<string, FnId>, ps: seq<string>, cid: ClientId, topic: string, data: Value): seq<Call>
    requires forall p | p in ps :: p in table
  {
    if |ps| == 0 then []
    else HandlerCalls(table, ps[..|ps| - 1], cid, topic, data) + [HandlerCall(table[ps[|ps| - 1]], cid, topic, data)]
  }

  /** The auto-response writes of the matched handlers, in order. */
  function HandlerWrites(C: map<ClientId, Client>, W: Dicts.Dict<SocketId, WsRef>, table: map<string, FnId>, ps: seq<string>,
                         b: Behaviour, cid: ClientId, topic: string, data: Value, t: Transport): seq<Write>
    requires W.Valid() && TablesValid(W.Values())
    requires forall p | p in ps :: p in table
  {
    if |ps| == 0 then []
    else
      var f := table[ps[|ps| - 1]];
      HandlerWrites(C, W, table, ps[..|ps| - 1], b, cid, topic, data, t)
        + ResponseWrites(C, W, AutoResponse(cid, topic, b(f, cid, topic, data)), t)
  }

  /** Whether `_on_message_received` falls back to the unhandled listener. */
  predicate Unhandled(methods: Dicts.Dict<string, FnId>, unhandled: Option<FnId>, topic: string) {
    |MatchedPrefixes(methods.keys, topic)| == 0 && unhandled.Some?
  }

  /** The calls of `_on_message_received`: the matched handlers, else the unhandled listener if set. */
  function ReceivedCalls(methods: Dicts.Dict<string, FnId>, unhandled: Option<FnId>, cid: ClientId, topic: string, data: Value): seq<Call>
    requires methods.Valid()
  {
    HandlerCalls(methods.entries, MatchedPrefixes(methods.keys, topic), cid, topic, data)
      + (if Unhandled(methods, unhandled, topic) then [HandlerCall(unhandled.value, cid, topic, data)] else [])
  }

  /** The writes of `_on_message_received`: the auto-responses of the calls, in order. */
  function ReceivedWrites(C: map<ClientId, Client>, W: Dicts.Dict<SocketId, WsRef>, methods: Dicts.Dict<string, FnId>,
                          unhandled: Option<FnId>, b: Behaviour, cid: ClientId, topic: string, data: Value, t: Transport): seq<Write>
    requires W.Valid() && TablesValid(W.Values()) && methods.Valid()
  {
    HandlerWrites(C, W, methods.entries, MatchedPrefixes(methods.keys, topic), b, cid, topic, data, t)
      + (if Unhandled(methods, unhandled, topic)
         then ResponseWrites(C, W, AutoResponse(cid, topic, b(unhandled.value, cid, topic, data)), t)
         else [])
  }

  /** One more matched prefix adds its handler's call and its auto-response writes. */
  lemma HandlerSnoc(C: map<ClientId, Client>, W: Dicts.Dict<SocketId, WsRef>, table: map<string, FnId>, ps: seq<string>, p: string,
                    b: Behaviour, cid: ClientId, topic: string, data: Value, t: Transport)
    requires W.Valid() && TablesValid(W.Values())
    requires forall q | q in ps :: q in table
    requires p in table
    ensures forall q | q in ps + [p] :: q in table
    ensures HandlerCalls(table, ps + [p], cid, topic, data) == HandlerCalls(table, ps, cid, topic, data) + [HandlerCall(table[p], cid, topic, data)]
    ensures HandlerWrites(C, W, table, ps + [p], b, cid, topic, data, t)
      == HandlerWrites(C, W, table, ps, b, cid, topic, data, t) + ResponseWrites(C, W, AutoResponse(cid, topic, b(table[p], cid, topic, data)), t)
  {
    assert (ps + [p])[..|ps|] == ps;
  }

  /** There is one handler call per matched prefix, each to the handler stored under it. */
  lemma {:induction false} HandlerCallsAt(table: map<string, FnId>, ps: seq<string>, cid: ClientId, topic: string, data: Value)
    requires forall p | p in ps :: p in table
    ensures |HandlerCalls(table, ps, cid, topic, data)| == |ps|
    ensures forall i | 0 <= i < |ps| :: HandlerCalls(table, ps, cid, topic, data)[i] == HandlerCall(table[ps[i]], cid, topic, data)
  {
    if |ps| > 0 {
      HandlerCallsAt(table, ps[..|ps| - 1], cid, topic, data);
    }
  }

  /**
   * The unhandled listener is awaited exactly when no registered prefix starts the
   * topic and a listener is set; otherwise every call goes to a matched handler.
   */
  lemma UnhandledIffNothingMatched(methods: Dicts.Dict<string, FnId>, unhandled: Option<FnId>, cid: ClientId, topic: string, data: Value)
    requires methods.Valid()
    ensures Unhandled(methods, unhandled, topic) <==>
      unhandled.Some? && forall p | p in methods.entries :: !Strs.StartsWith(topic, p)
    ensures Unhandled(methods, unhandled, topic) ==> ReceivedCalls(methods, unhandled, cid, topic, data) == [HandlerCall(unhandled.value, cid, topic, data)]
  {
    var ps := MatchedPrefixes(methods.keys, topic);
    MatchedPrefixesMembers(methods.keys, topic);
    if |ps| > 0 {
      assert ps[0] in ps;
    }
  }

  /** A handler registered under a prefix of the topic is awaited; an empty prefix matches every topic. */
  lemma RegisteredHandlerRuns(methods: Dicts.Dict<string, FnId>, unhandled: Option<FnId>, prefix: string, f: FnId,
                              cid: ClientId, topic: string, data: Value)
    requires methods.Valid() && Strs.StartsWith(topic, prefix)
    ensures HandlerCall(f, cid, topic, data) in ReceivedCalls(methods.Put(prefix, f), unhandled, cid, topic, data)
    ensures !Unhandled(methods.Put(prefix, f), unhandled, topic)
  {
    var m := methods.Put(prefix, f);
    var ps := MatchedPrefixes(m.keys, topic);
    assert prefix in m.keys;
    MatchedPrefixesMembers(m.keys, topic);
    var i :| 0 <= i < |ps| && ps[i] == prefix;
    HandlerCallsAt(m.entries, ps, cid, topic, data);
    assert HandlerCalls(m.entries, ps, cid, topic, data)[i] == HandlerCall(f, cid, topic, data);
  }

  /** The empty prefix matches every topic. */
  lemma EmptyPrefixMatchesAll(prefixes: seq<string>, topic: string)
    requires "" in prefixes
    ensures "" in MatchedPrefixes(prefixes, topic)
  {
    MatchedPrefixesMembers(prefixes, topic);
    assert Strs.StartsWith(topic, "");
  }

  // ---------------------------------------------------------------------------
  // Construction

  /** The base-class parameters `(debug_mode, port, allow_remote_connect, transport)`. */
  datatype BaseArgs = BaseArgs(debugMode: bool, port: int, allowRemoteConnect: bool, codec: Codec)

  /**
   * `super().__init__(debug_mode, port, transport)` as written: the transport lands
   * in `allow_remote_connect` (an enum member is truthy), and the base transport
   * keeps its default, msgpack.
   */
  function BaseArgsAsWritten(debugMode: bool, port: int, codec: Codec): BaseArgs {
    BaseArgs(debugMode, port, true, Msgpack)
  }

  /** A JSON API server, as written, still packs its frames with msgpack. */
  lemma JsonTransportIgnored()
    ensures BaseArgsAsWritten(false, 8080, Json).codec != Json
  {
  }

  /** The evident intent: the transport passed by keyword, remote connections at their default. */
  function BaseArgsIntended(debugMode: bool, port: int, codec: Codec): (a: BaseArgs)
    ensures a.codec == codec && a.debugMode == debugMode && a.port == port && a.allowRemoteConnect
  {
    BaseArgs(debugMode, port, true, codec)
  }

  // ---------------------------------------------------------------------------
  // The server

  class ApiServer {
    const broker: Broker
    /** `_methods`: topic prefix -> handler, in registration order. */
    var methods: Dicts.Dict<string, FnId>
    var onClientConnected: Option<FnId>
    var onClientAuthorized: Option<FnId>
    var onClientDisconnected: Option<FnId>
    var onTunnelControllerConnected: Option<FnId>
    var onTunnelControllerDisconnected: Option<FnId>
    var onReceiveUnhandled: Option<FnId>
    /** Every listener or handler awaited, in order. */
    ghost var calls: seq<Call>

    /** The handler table is a dict and the broker's registries keep their invariant. */
    ghost predicate Valid()
      reads this`methods, broker`clients, broker`wsrefs
    {
      methods.Valid() && Registry(broker.clients, broker.wsrefs)
    }

    constructor(debugMode: bool, port: int, codec: Codec,
                onClientConnected: Option<FnId>, onClientAuthorized: Option<FnId>, onClientDisconnected: Option<FnId>,
                onTunnelControllerConnected: Option<FnId>, onTunnelControllerDisconnected: Option<FnId>,
                onReceiveUnhandled: Option<FnId>)
      ensures Valid() && fresh(broker)
      ensures broker.debugMode == debugMode && broker.port == port && broker.codec == codec && broker.host == ""
      ensures broker.clients == Dicts.Empty() && broker.wsrefs == Dicts.Empty()
      ensures this.onClientConnected == onClientConnected && this.onClientAuthorized == onClientAuthorized
      ensures this.onClientDisconnected == onClientDisconnected
      ensures this.onTunnelControllerConnected == onTunnelControllerConnected
      ensures this.onTunnelControllerDisconnected == onTunnelControllerDisconnected
      ensures this.onReceiveUnhandled == onReceiveUnhandled
      ensures methods == Dicts.Empty() && calls == []
    {
      var args := BaseArgsIntended(debugMode, port, codec);
      broker := new Broker(args.debugMode, args.port, args.allowRemoteConnect, args.codec);
      this.onClientConnected := onClientConnected;
      this.onClientAuthorized := onClientAuthorized;
      this.onClientDisconnected := onClientDisconnected;
      this.onTunnelControllerConnected := onTunnelControllerConnected;
      this.onTunnelControllerDisconnected := onTunnelControllerDisconnected;
      this.onReceiveUnhandled := onReceiveUnhandled;
      methods := Dicts.Empty();
      calls := [];
    }

    /** `method(topic_prefix)(func)`: stores the handler under the prefix and hands it back unchanged. */
    method Method(prefix: string, f: FnId) returns (g: FnId)
      requires Valid()
      modifies this`methods
      ensures Valid()
      ensures g == f
      ensures methods == old(methods).Put(prefix, f)
    {
      methods := methods.Put(prefix, f);
      g := f;
    }

    method SetOnClientConnectedListener(f: FnId)
      modifies this`onClientConnected
      ensures onClientConnected == Some(f)
    {
      onClientConnected := Some(f);
    }

    method SetOnClientAuthorizedListener(f: FnId)
      modifies this`onClientAuthorized
      ensures onClientAuthorized == Some(f)
    {
      onClientAuthorized := Some(f);
    }

    method SetOnClientDisconnectedListener(f: FnId)
      modifies this`onClientDisconnected
      ensures onClientDisconnected == Some(f)
    {
      onClientDisconnected := Some(f);
    }

    method SetOnTunnelControllerConnectedListener(f: FnId)
      modifies this`onTunnelControllerConnected
      ensures onTunnelControllerConnected == Some(f)
    {
      onTunnelControllerConnected := Some(f);
    }

    method SetOnTunnelControllerDisconnectedListener(f: FnId)
      modifies this`onTunnelControllerDisconnected
      ensures onTunnelControllerDisconnected == Some(f)
    {
      onTunnelControllerDisconnected := Some(f);
    }

    method SetOnReceiveUnhandledListener(f: FnId)
      modifies this`onReceiveUnhandled
      ensures onReceiveUnhandled == Some(f)
    {
      onReceiveUnhandled := Some(f);
    }

    /** The listener slot a lifecycle hook is delivered to. */
    function ListenerOf(h: Hook): Option<FnId>
      reads this
    {
      match h
      case ClientConnected(_) => onClientConnected
      case TunnelControllerConnected(_) => onTunnelControllerConnected
      case ClientAuthorized(_, _, _) => onClientAuthorized
      case ClientDisconnected(_) => onClientDisconnected
      case TunnelControllerDisconnected(_) => onTunnelControllerDisconnected
      case MessageReceived(_, _, _, _, _) => None
      case Destroyed => None
    }

    /**
     * `_on_client_connected`, `_on_client_authorized`, `_on_client_disconnected`,
     * `_on_tunnel_controller_connected`, `_on_tunnel_controller_disconnected`: the
     * listener in the hook's slot is awaited with the hook's arguments, and nothing
     * happens when the slot is empty. `_on_destroy` is the base class's no-op.
     */
    method OnLifecycle(h: Hook)
      requires !h.MessageReceived?
      modifies this`calls
      ensures ListenerOf(h).None? ==> calls == old(calls)
      ensures ListenerOf(h).Some? ==> calls == old(calls) + [ListenerCall(ListenerOf(h).value, h)]
    {
      var listener := ListenerOf(h);
      if listener.Some? {
        calls := calls + [ListenerCall(listener.value, h)];
      }
    }

    /** `_check_auto_response` */
    method CheckAutoResponse(sender: ClientId, topic: string, response: Response, t: Transport)
      requires Valid()
      modifies broker`outbox
      ensures TablesValid(broker.wsrefs.Values())
      ensures broker.outbox == old(broker.outbox) + ResponseWrites(broker.clients.entries, broker.wsrefs, AutoResponse(sender, topic, response), t)
    {
      RegistryTablesValid(broker.clients, broker.wsrefs);
      if response.MessageResponse? {
        var responseTopic := if response.topic.None? then topic else response.topic.value;
        var responseCid := if response.broadcast then None else Some(sender);
        broker.SendMessage(Outgoing(responseTopic, response.data, None), responseCid, response.intentFilter, t);
      } else {
        AppendEmpty(broker.outbox);
      }
    }

    /** One handler awaited, then its response auto-checked. */
    method InvokeHandler(f: FnId, cid: ClientId, topic: string, data: Value, b: Behaviour, t: Transport)
      requires Valid()
      modifies this`calls, broker`outbox
      ensures TablesValid(broker.wsrefs.Values())
      ensures calls == old(calls) + [HandlerCall(f, cid, topic, data)]
      ensures broker.outbox == old(broker.outbox)
        + ResponseWrites(broker.clients.entries, broker.wsrefs, AutoResponse(cid, topic, b(f, cid, topic, data)), t)
    {
      var response := b(f, cid, topic, data);
      calls := calls + [HandlerCall(f, cid, topic, data)];
      CheckAutoResponse(cid, topic, response, t);
    }

    /** The loop of `_on_message_received`: the matched handlers in table order; true iff there was one. */
    method RunMatchedHandlers(cid: ClientId, topic: string, data: Value, b: Behaviour, t: Transport) returns (handled: bool)
      requires Valid()
      modifies this`calls, broker`outbox
      ensures TablesValid(broker.wsrefs.Values())
      ensures handled <==> |MatchedPrefixes(methods.keys, topic)| > 0
      ensures calls == old(calls) + HandlerCalls(methods.entries, MatchedPrefixes(methods.keys, topic), cid, topic, data)
      ensures broker.outbox == old(broker.outbox)
        + HandlerWrites(broker.clients.entries, broker.wsrefs, methods.entries, MatchedPrefixes(methods.keys, topic), b, cid, topic, data, t)
    {
      RegistryTablesValid(broker.clients, broker.wsrefs);
      handled := false;
      ghost var ps: seq<string> := [];
      ghost var hc: seq<Call> := [];
      ghost var hw: seq<Write> := [];
      AppendEmpty(calls);
      AppendEmpty(broker.outbox);
      for i := 0 to |methods.keys|
        invariant ps == MatchedPrefixes(methods.keys[..i], topic)
        invariant handled <==> |ps| > 0
        invariant forall p | p in ps :: p in methods.entries
        invariant hc == HandlerCalls(methods.entries, ps, cid, topic, data)
        invariant hw == HandlerWrites(broker.clients.entries, broker.wsrefs, methods.entries, ps, b, cid, topic, data, t)
        invariant calls == old(calls) + hc
        invariant broker.outbox == old(broker.outbox) + hw
      {
        var prefix := methods.keys[i];
        var f := methods.entries[prefix];
        MatchedPrefixesSnoc(methods.keys, topic, i);
        if Strs.StartsWith(topic, prefix) {
          InvokeHandler(f, cid, topic, data, b, t);
          ghost var rw := ResponseWrites(broker.clients.entries, broker.wsrefs, AutoResponse(cid, topic, b(f, cid, topic, data)), t);
          AppendAssoc(old(calls), hc, [HandlerCall(f, cid, topic, data)]);
          AppendAssoc(old(broker.outbox), hw, rw);
          HandlerSnoc(broker.clients.entries, broker.wsrefs, methods.entries, ps, prefix, b, cid, topic, data, t);
          ps, hc, hw := ps + [prefix], hc + [HandlerCall(f, cid, topic, data)], hw + rw;
          handled := true;
        }
      }
      assert methods.keys[..|methods.keys|] == methods.keys;
    }

    /** `_on_message_received`: every matched handler in table order, each response auto-checked, else the unhandled listener. */
    method OnMessageReceived(cid: ClientId, topic: string, data: Value, b: Behaviour, t: Transport)
      requires Valid()
      modifies this`calls, broker`outbox
      ensures TablesValid(broker.wsrefs.Values())
      ensures calls == old(calls) + ReceivedCalls(methods, onReceiveUnhandled, cid, topic, data)
      ensures broker.outbox == old(broker.outbox)
        + ReceivedWrites(broker.clients.entries, broker.wsrefs, methods, onReceiveUnhandled, b, cid, topic, data, t)
    {
      var handled := RunMatchedHandlers(cid, topic, data, b, t);
      ghost var C1, O1 := calls, broker.outbox;
      if !handled && onReceiveUnhandled.Some? {
        InvokeHandler(onReceiveUnhandled.value, cid, topic, data, b, t);
        AppendAssoc(old(calls), C1[|old(calls)|..], calls[|C1|..]);
        AppendAssoc(old(broker.outbox), O1[|old(broker.outbox)|..], broker.outbox[|O1|..]);
      } else {
        AppendEmpty(C1);
        AppendEmpty(O1);
      }
    }

    /** One hook of the broker delivered to this layer: a message to the dispatcher, any other to its listener. */
    method Dispatch(h: Hook, b: Behaviour, t: Transport)
      requires Valid()
      modifies this`calls, broker`outbox
      ensures h.MessageReceived? ==>
        && calls == old(calls) + ReceivedCalls(methods, onReceiveUnhandled, h.clientId, h.topic, h.data)
        && TablesValid(broker.wsrefs.Values())
        && broker.outbox == old(broker.outbox)
          + ReceivedWrites(broker.clients.entries, broker.wsrefs, methods, onReceiveUnhandled, b, h.clientId, h.topic, h.data, t)
      ensures !h.MessageReceived? ==> broker.outbox == old(broker.outbox)
      ensures !h.MessageReceived? && ListenerOf(h).None? ==> calls == old(calls)
      ensures !h.MessageReceived? && ListenerOf(h).Some? ==> calls == old(calls) + [ListenerCall(ListenerOf(h).value, h)]
    {
      if h.MessageReceived? {
        OnMessageReceived(h.clientId, h.topic, h.data, b, t);
      } else {
        OnLifecycle(h);
      }
    }
  }
}
