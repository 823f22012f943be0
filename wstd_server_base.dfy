/**
 * `WSTDServerBase`: the broker object. Its two registries are fields updated in
 * place; every socket write is appended to `outbox` and every hook awaited is
 * appended to `hooks`. Each method is proved against the specification
 * functions and outcome predicates of `WsModel`, and keeps `Valid()`.
 */
module WsServerBase {
  import opened Wrappers
  import opened Values
  import opened WsModel
  import Dicts
  import Strs

  class Broker {
    const debugMode: bool
    /** "" (all interfaces) when remote connections are allowed, else "127.0.0.1". */
    const host: string
    const port: int
    const codec: Codec
    var clients: Dicts.Dict<ClientId, Client>
    var wsrefs: Dicts.Dict<SocketId, WsRef>
    /** Every socket write, in order. */
    ghost var outbox: seq<Write>
    /** Every hook awaited, in order. */
    ghost var hooks: seq<Hook>

    ghost predicate Valid()
      reads this
    {
      Registry(clients, wsrefs)
    }

    constructor(debugMode: bool, port: int, allowRemoteConnect: bool, codec: Codec)
      ensures Valid()
      ensures this.debugMode == debugMode && this.port == port && this.codec == codec
      ensures host == if allowRemoteConnect then "" else "127.0.0.1"
      ensures clients == Dicts.Empty() && wsrefs == Dicts.Empty()
      ensures outbox == [] && hooks == []
    {
      this.debugMode := debugMode;
      this.host := if allowRemoteConnect then "" else "127.0.0.1";
      this.port := port;
      this.codec := codec;
      clients := Dicts.Empty();
      wsrefs := Dicts.Empty();
      outbox := [];
      hooks := [];
    }

    // -------------------------------------------------------------------------
    // Queries

    /** `get_connected_clients` */
    method GetConnectedClients(includeTunnelControllers: bool) returns (result: seq<ClientEntry>)
      requires clients.Valid()
      ensures result == Listed(clients.keys, clients.entries, includeTunnelControllers)
    {
      result := [];
      for i := 0 to |clients.keys|
        invariant result == Listed(clients.keys[..i], clients.entries, includeTunnelControllers)
      {
        var cid := clients.keys[i];
        var c := clients.entries[cid];
        if c.tunnelId != TUNNEL_CONTROLLER || includeTunnelControllers {
          result := result + [ClientEntry(cid, c.intent, c.info)];
        }
        assert clients.keys[..i + 1][..i] == clients.keys[..i];
      }
      assert clients.keys[..|clients.keys|] == clients.keys;
    }

    /** `get_connected_tunnel_controllers` */
    method GetConnectedTunnelControllers() returns (result: seq<ClientEntry>)
      requires clients.Valid()
      ensures result == ControllersListed(clients.keys, clients.entries)
    {
      result := [];
      for i := 0 to |clients.keys|
        invariant result == ControllersListed(clients.keys[..i], clients.entries)
      {
        var cid := clients.keys[i];
        var c := clients.entries[cid];
        if c.tunnelId == TUNNEL_CONTROLLER {
          result := result + [ClientEntry(cid, c.intent, c.info)];
        }
        assert clients.keys[..i + 1][..i] == clients.keys[..i];
      }
      assert clients.keys[..|clients.keys|] == clients.keys;
    }

    /** `get_client`: the intent and info of a registered client, None for an unknown id. */
    method GetClient(cid: ClientId) returns (r: Option<(seq<Value>, Value)>)
      ensures r.None? <==> cid !in clients.entries
      ensures r.Some? ==> r.value == (clients.entries[cid].intent, clients.entries[cid].info)
    {
      var c := clients.Get(cid);
      if c.None? {
        return None;
      }
      r := Some((c.value.intent, c.value.info));
    }

    /** `client_count`: the length of the matching `get_connected_clients` listing. */
    method ClientCount(includeTunnelControllers: bool) returns (n: nat)
      requires clients.Valid()
      ensures n == |Listed(clients.keys, clients.entries, includeTunnelControllers)|
    {
      if includeTunnelControllers {
        ListedCounts(clients.keys, clients.entries);
        n := |clients.keys|;
      } else {
        n := 0;
        for i := 0 to |clients.keys|
          invariant n == |Listed(clients.keys[..i], clients.entries, includeTunnelControllers)|
        {
          var c := clients.entries[clients.keys[i]];
          if c.tunnelId != TUNNEL_CONTROLLER || includeTunnelControllers {
            n := n + 1;
          }
          assert clients.keys[..i + 1][..i] == clients.keys[..i];
        }
        assert clients.keys[..|clients.keys|] == clients.keys;
      }
    }

    // -------------------------------------------------------------------------
    // Sending

    /** `_send_socket_message`: one write of the packed message; the result is whether it went through. */
    method SendSocketMessage(w: WsRef, o: Outgoing, tid: Option<TunnelId>, t: Transport) returns (ok: bool)
      modifies this`outbox
      ensures outbox == old(outbox) + [Emit(w, o, tid, t)]
      ensures ok == Emit(w, o, tid, t).delivered
    {
      var tunnelId := if w.isTunnel && tid != Some(TUNNEL_NONE) then tid else None;
      var msg: Message := if o.extra.Some? then o.extra.value else map[];
      msg := msg["topic" := Str(o.topic)];
      msg := msg["data" := o.data];
      if tunnelId.Some? {
        msg := msg[FIELD_TUNNEL_ID := Str(tunnelId.value)];
      }
      assert msg == OutboundMessage(w.isTunnel, o, tid);
      ok := t(w.socketId, msg);
      outbox := outbox + [Write(w.socketId, msg, ok)];
    }

    /** `send_tunnel_message`: true iff some tunnel socket exists and every write to one went through. */
    method SendTunnelMessage(o: Outgoing, target: TunnelTarget, t: Transport) returns (ok: bool)
      requires wsrefs.Valid()
      modifies this`outbox
      ensures outbox == old(outbox) + TunnelWrites(wsrefs.Values(), o, TargetTunnelId(target), t)
      ensures var ws := TunnelWrites(wsrefs.Values(), o, TargetTunnelId(target), t);
        ok <==> |ws| > 0 && AllDelivered(ws)
    {
      var socks := wsrefs.Values();
      var results: seq<bool> := [];
      ghost var ws: seq<Write> := [];
      AppendEmpty(outbox);
      for i := 0 to |wsrefs.keys|
        invariant ws == TunnelWrites(socks[..i], o, TargetTunnelId(target), t)
        invariant outbox == old(outbox) + ws
        invariant |results| == |ws| && forall j | 0 <= j < |ws| :: results[j] == ws[j].delivered
      {
        var w := wsrefs.entries[wsrefs.keys[i]];
        TunnelWritesSnoc(socks, o, TargetTunnelId(target), t, i);
        var written, r := SendToTunnelSocket(w, o, target, t);
        if written {
          ghost var e := Emit(w, o, Some(TargetTunnelId(target)), t);
          AppendAssoc(old(outbox), ws, [e]);
          ws := ws + [e];
          results := results + [r];
        }
      }
      assert socks[..|socks|] == socks;
      ok := |results| > 0 && forall j | 0 <= j < |results| :: results[j];
    }

    /** One socket of `send_tunnel_message`: a tunnel socket gets one write, tagged with the target's tunnel id. */
    method SendToTunnelSocket(w: WsRef, o: Outgoing, target: TunnelTarget, t: Transport) returns (written: bool, ok: bool)
      modifies this`outbox
      ensures written == w.isTunnel
      ensures written ==> outbox == old(outbox) + [Emit(w, o, Some(TargetTunnelId(target)), t)]
      ensures written ==> ok == Emit(w, o, Some(TargetTunnelId(target)), t).delivered
      ensures !written ==> outbox == old(outbox)
    {
      written, ok := false, false;
      if w.isTunnel {
        var tid := TUNNEL_NONE;
        if target == All {
          tid := TUNNEL_NONE;
        } else if target == Controller {
          tid := TUNNEL_CONTROLLER;
        } else if target == Clients {
          tid := TUNNEL_CLIENTS;
        }
        written := true;
        ok := SendSocketMessage(w, o, Some(tid), t);
      }
    }

    /** `send_client_message`: false for an unknown client or socket, else the outcome of its one write. */
    method SendClientMessage(o: Outgoing, cid: ClientId, t: Transport) returns (ok: bool)
      modifies this`outbox
      ensures var ws := ClientWrites(clients.entries, wsrefs.entries, o, cid, t);
        outbox == old(outbox) + ws && (ok <==> |ws| == 1 && ws[0].delivered)
    {
      var c := clients.Get(cid);
      if c.None? {
        return false;
      }
      var w := wsrefs.Get(c.value.socketId);
      if w.None? {
        return false;
      }
      ok := SendSocketMessage(w.value, o, Some(c.value.tunnelId), t);
    }

    /** `send_broadcast_message`: the writes of each socket in turn, in registration order. */
    method SendBroadcastMessage(o: Outgoing, filter: Option<string>, t: Transport)
      requires Valid()
      modifies this`outbox
      ensures TablesValid(wsrefs.Values())
      ensures outbox == old(outbox) + Broadcast(wsrefs.Values(), clients.entries, o, filter, t)
    {
      RegistryTablesValid(clients, wsrefs);
      var socks := wsrefs.Values();
      for i := 0 to |wsrefs.keys|
        invariant outbox == old(outbox) + Broadcast(socks[..i], clients.entries, o, filter, t)
      {
        assert socks[..i + 1][..i] == socks[..i];
        BroadcastToSocket(socks[i], o, filter, t);
        AppendAssoc(old(outbox), Broadcast(socks[..i], clients.entries, o, filter, t), SocketBroadcast(socks[i], clients.entries, o, filter, t));
      }
      assert socks[..|socks|] == socks;
    }

    /**
     * The body of the per-socket loop of `send_broadcast_message`: on a direct socket
     * one untagged write per matching client; on a tunnel socket the single "*"
     * write when nobody would miss out, else one write per target under its own id.
     */
    method BroadcastToSocket(w: WsRef, o: Outgoing, filter: Option<string>, t: Transport)
      requires w.clients.Valid()
      modifies this`outbox
      ensures outbox == old(outbox) + SocketBroadcast(w, clients.entries, o, filter, t)
    {
      var cids := w.clients.Values();
      if !w.isTunnel {
        BroadcastDirect(w, cids, o, filter, t);
      } else {
        var bulk := true;
        var targets: seq<ClientId> := [];
        if filter.Some? {
          bulk, targets := CollectTunnelTargets(cids, filter.value);
        }
        if bulk {
          var _ := SendSocketMessage(w, o, Some(TUNNEL_CLIENTS), t);
        } else {
          SendToTargets(w, targets, o, t);
        }
      }
    }

    /** The direct-socket branch: one untagged write per registered client that matches the filter. */
    method BroadcastDirect(w: WsRef, cids: seq<ClientId>, o: Outgoing, filter: Option<string>, t: Transport)
      modifies this`outbox
      ensures outbox == old(outbox) + EmitEach(w, DirectTargets(cids, clients.entries, filter), clients.entries, o, false, t)
    {
      ghost var sent: seq<ClientId> := [];
      assert outbox + [] == outbox;
      for j := 0 to |cids|
        invariant sent == DirectTargets(cids[..j], clients.entries, filter)
        invariant outbox == old(outbox) + EmitEach(w, sent, clients.entries, o, false, t)
      {
        var hit := SendIfMatches(w, cids[j], o, filter, t);
        DirectTargetsSnoc(cids, clients.entries, filter, j);
        if hit {
          EmitEachSnoc(w, sent, cids[j], clients.entries, o, false, t);
          AppendAssoc(old(outbox), EmitEach(w, sent, clients.entries, o, false, t), [Emit(w, o, None, t)]);
          sent := sent + [cids[j]];
        }
      }
      assert cids[..|cids|] == cids;
    }

    /** One client of the direct-socket branch: an untagged write exactly when it is registered and matches the filter. */
    method SendIfMatches(w: WsRef, cid: ClientId, o: Outgoing, filter: Option<string>, t: Transport) returns (hit: bool)
      modifies this`outbox
      ensures hit <==> cid in clients.entries && Matches(clients.entries[cid], filter)
      ensures outbox == old(outbox) + if hit then [Emit(w, o, None, t)] else []
    {
      var c := clients.Get(cid);
      hit := c.Some? && (filter.None? || Str(filter.value) in c.value.intent);
      if hit {
        var _ := SendSocketMessage(w, o, None, t);
      } else {
        assert outbox + [] == outbox;
      }
    }

    /** The targeted tunnel branch: one write per target, tagged with that client's own tunnel id. */
    method SendToTargets(w: WsRef, targets: seq<ClientId>, o: Outgoing, t: Transport)
      requires forall x | x in targets :: x in clients.entries
      modifies this`outbox
      ensures outbox == old(outbox) + EmitEach(w, targets, clients.entries, o, true, t)
    {
      assert outbox + [] == outbox;
      for k := 0 to |targets|
        invariant outbox == old(outbox) + EmitEach(w, targets[..k], clients.entries, o, true, t)
      {
        assert targets[..k + 1][..k] == targets[..k];
        var tid := Some(clients.entries[targets[k]].tunnelId);
        var _ := SendSocketMessage(w, o, tid, t);
        AppendAssoc(old(outbox), EmitEach(w, targets[..k], clients.entries, o, true, t), [Emit(w, o, tid, t)]);
      }
      assert targets[..|targets|] == targets;
    }

    /** The scan of a tunnel socket's table under a filter: who gets a tagged write, and whether nobody misses out. */
    method CollectTunnelTargets(cids: seq<ClientId>, filter: string) returns (bulk: bool, targets: seq<ClientId>)
      ensures targets == TunnelTargets(cids, clients.entries, filter)
      ensures bulk == AllTargeted(cids, clients.entries, filter)
    {
      bulk := true;
      targets := [];
      for j := 0 to |cids|
        invariant targets == TunnelTargets(cids[..j], clients.entries, filter)
        invariant bulk == AllTargeted(cids[..j], clients.entries, filter)
      {
        var c := clients.Get(cids[j]);
        var known := c.Some?;
        var hit := known && (Str(filter) in c.value.intent || c.value.tunnelId == TUNNEL_CONTROLLER);
        ghost var C := clients.entries;
        assert hit == (cids[j] in C && (Matches(C[cids[j]], Some(filter)) || IsTunnelController(C[cids[j]].tunnelId)));
        TunnelTargetsSnoc(cids, C, filter, j);
        AllTargetedSnoc(cids, C, filter, j);
        if hit {
          targets := targets + [cids[j]];
        } else if known {
          bulk := false;
        }
      }
      assert cids[..|cids|] == cids;
    }

    /** `send_message`: to the client when a non-empty id is given, otherwise a broadcast under the filter. */
    method SendMessage(o: Outgoing, cid: Option<ClientId>, filter: Option<string>, t: Transport)
      requires Valid()
      modifies this`outbox
      ensures TablesValid(wsrefs.Values())
      ensures outbox == old(outbox) + SendMessageWrites(clients.entries, wsrefs, o, cid, filter, t)
    {
      RegistryTablesValid(clients, wsrefs);
      if cid.Some? && |cid.value| > 0 {
        var _ := SendClientMessage(o, cid.value, t);
      } else {
        SendBroadcastMessage(o, filter, t);
      }
    }

    // -------------------------------------------------------------------------
    // Authorization

    /** A fresh client id (`secrets.token_hex(6)`): any non-empty id not yet registered. */
    method FreshClientId() returns (cid: ClientId)
      ensures cid !in clients.entries && cid != ""
    {
      Strs.FreshStringExists(clients.entries.Keys);
      cid :| cid !in clients.entries && cid != "";
    }

    /** `_authorize_client` */
    method Authorize(sid: SocketId, tid: TunnelId, data: Value, t: Transport) returns (ok: bool)
      requires Valid() && sid in wsrefs.entries
      modifies this`clients, this`wsrefs, this`outbox, this`hooks
      ensures Valid()
      ensures ok == !AuthorizeRejected(old(wsrefs.entries[sid]), tid)
      ensures AuthorizeOutcome(old(clients), old(wsrefs), old(outbox), old(hooks), clients, wsrefs, outbox, hooks, sid, tid, data, t)
    {
      var w := wsrefs.entries[sid];
      TableValid(clients, wsrefs, sid);
      if AuthorizeRejected(w, tid) {
        AuthorizeOutcomeRejected(clients, wsrefs, outbox, hooks, sid, tid, data, t);
        return false;
      }
      var existingId := w.clients.Get(tid);
      var cid: ClientId;
      if existingId.Some? {
        cid := existingId.value;
      } else {
        cid := FreshClientId();
      }
      AuthorizeOutcomeAccepted(clients, wsrefs, outbox, hooks, sid, tid, cid, data, t);
      Accept(sid, tid, cid, data, t);
      ok := true;
    }

    /** The accepted branch of `_authorize_client`, once the client id is chosen. */
    method Accept(sid: SocketId, tid: TunnelId, cid: ClientId, data: Value, t: Transport)
      requires clients.Valid() && wsrefs.Valid() && sid in wsrefs.entries && wsrefs.entries[sid].clients.Valid()
      modifies this`clients, this`wsrefs, this`outbox, this`hooks
      ensures clients == old(clients).Put(cid, AuthorizedClient(sid, tid, cid, data))
      ensures wsrefs == old(wsrefs).Put(sid, AuthorizedSocket(old(wsrefs).entries[sid], tid, cid))
      ensures hooks == old(hooks) + AuthorizeHooks(old(clients).entries, old(wsrefs).entries[sid], tid, cid, data)
      ensures outbox == old(outbox) + AuthorizeReply(wsrefs.entries[sid], tid, cid, data, t)
    {
      var isController := IsTunnelController(tid);
      var w := wsrefs.entries[sid];
      var info := InfoOf(data);
      var intent := IntentOf(data);
      ghost var C0 := clients.entries;
      hooks := hooks + ConnectedHooks(w, tid, cid);
      w := AuthorizedSocket(w, tid, cid);
      clients := clients.Put(cid, Client(sid, cid, tid, intent, info));
      wsrefs := wsrefs.Put(sid, w);
      if !isController {
        var _ := SendSocketMessage(w, Outgoing(TOPIC_AUTHORIZE, Confirmation(cid, intent), None), Some(tid), t);
      } else {
        AppendEmpty(outbox);
      }
      AppendAssoc(old(hooks), ConnectedHooks(old(wsrefs).entries[sid], tid, cid), AuthorizedHooks(C0, tid, cid, data));
      hooks := hooks + AuthorizedHooks(C0, tid, cid, data);
    }

    /** `_deauthorize_client`: true iff a registered client was removed. */
    method Deauthorize(sid: SocketId, tid: TunnelId) returns (ok: bool)
      requires Valid() && sid in wsrefs.entries
      modifies this`clients, this`wsrefs, this`hooks
      ensures Valid()
      ensures ok <==> tid in old(wsrefs.entries[sid].clients.entries)
      ensures DeauthorizeOutcome(old(clients), old(wsrefs), old(hooks), clients, wsrefs, hooks, sid, tid)
    {
      ghost var C0, W0 := clients, wsrefs;
      DeauthorizeKeepsRegistry(C0, W0, sid, tid);
      DeauthorizeRemovesOnlyTarget(C0, W0, sid, tid);
      var isController := IsTunnelController(tid);
      var w := wsrefs.entries[sid];
      var cid := w.clients.Get(tid);
      if cid.Some? {
        wsrefs := wsrefs.Put(sid, w.(clients := w.clients.Remove(tid)));
      }
      if cid.Some? && cid.value in clients.entries {
        clients := clients.Remove(cid.value);
        hooks := hooks + [if isController then TunnelControllerDisconnected(cid.value) else ClientDisconnected(cid.value)];
        ok := true;
      } else {
        ok := false;
      }
    }

    // -------------------------------------------------------------------------
    // The per-socket handler

    /** The socket registration at the top of `_handler`, under a fresh socket id. */
    method Connect(path: string) returns (sid: SocketId)
      requires Valid()
      modifies this`wsrefs
      ensures Valid()
      ensures sid !in old(wsrefs.entries) && sid != ""
      ensures wsrefs == old(wsrefs).Put(sid, WsRef(sid, path, Dicts.Empty(), false))
    {
      Strs.FreshStringExists(wsrefs.entries.Keys);
      sid :| sid !in wsrefs.entries && sid != "";
      ConnectKeepsRegistry(clients, wsrefs, sid, path);
      wsrefs := wsrefs.Put(sid, WsRef(sid, path, Dicts.Empty(), false));
    }

    /** One pass of the read loop of `_handler`. */
    method Receive(sid: SocketId, frame: Frame, t: Transport) returns (step: Step)
      requires Valid() && sid in wsrefs.entries
      modifies this`clients, this`wsrefs, this`outbox, this`hooks
      ensures Valid() && sid in wsrefs.entries
      ensures OthersKept(old(clients.entries), old(wsrefs.entries), clients.entries, wsrefs.entries, sid)
      ensures TunnelFlagsKept(old(wsrefs.entries), wsrefs.entries)
      ensures step == if frame.Undecodable? then Closed
                      else if Classify(frame.parsed).BadTunnelId? then Abandoned
                      else Next
      ensures frame.Undecodable? || Classify(frame.parsed).Ignored? || Classify(frame.parsed).BadTunnelId? ==>
        clients == old(clients) && wsrefs == old(wsrefs) && outbox == old(outbox) && hooks == old(hooks)
      ensures frame.Decoded? && Classify(frame.parsed).AuthorizeRequest? ==>
        var k := Classify(frame.parsed);
        AuthorizeOutcome(old(clients), old(wsrefs), old(outbox), old(hooks), clients, wsrefs, outbox, hooks, sid, k.tid, k.data, t)
      ensures frame.Decoded? && Classify(frame.parsed).DeauthorizeRequest? ==>
        outbox == old(outbox) &&
        DeauthorizeOutcome(old(clients), old(wsrefs), old(hooks), clients, wsrefs, hooks, sid, Classify(frame.parsed).tid)
      ensures frame.Decoded? && Classify(frame.parsed).DataMessage? ==>
        var k := Classify(frame.parsed);
        && clients == old(clients) && wsrefs == old(wsrefs) && outbox == old(outbox)
        && hooks == old(hooks) + DataHooks(clients.entries, wsrefs.entries[sid], k.topic, k.tid, k.data, k.message)
    {
      if frame.Undecodable? {
        return Closed;
      }
      var parsed := frame.parsed;
      step := Next;
      if parsed.Obj? {
        var topic := Get(parsed.fields, "topic");
        if !topic.Str? {
          return;
        }
        var data := Get(parsed.fields, "data");
        var tidField := Get(parsed.fields, FIELD_TUNNEL_ID);
        if tidField != Null && !tidField.Str? {
          return Abandoned;
        }
        var tid := if tidField.Str? then tidField.s else TUNNEL_NONE;
        ghost var C0, W0, O0, H0 := clients, wsrefs, outbox, hooks;
        if topic.s == TOPIC_AUTHORIZE {
          var _ := Authorize(sid, tid, data, t);
          AuthorizeOutcomeKeeps(C0, W0, O0, H0, clients, wsrefs, outbox, hooks, sid, tid, data, t);
        } else if topic.s == TOPIC_DEAUTHORIZE {
          var _ := Deauthorize(sid, tid);
          DeauthorizeOutcomeKeeps(C0, W0, H0, clients, wsrefs, hooks, sid, tid);
        } else {
          var client: Option<Client> := None;
          var cid := wsrefs.entries[sid].clients.Get(tid);
          if cid.Some? {
            client := clients.Get(cid.value);
          }
          if cid.None? || client.None? {
            return;
          }
          hooks := hooks + [MessageReceived(cid.value, topic.s, data, parsed.fields, IsTunnelController(tid))];
        }
      }
    }

    /** The cleanup after the read loop of `_handler`: drop the socket, then each of its clients. */
    method Teardown(sid: SocketId)
      requires Valid() && sid in wsrefs.entries
      modifies this`clients, this`wsrefs, this`hooks
      ensures Valid()
      ensures old(wsrefs.entries[sid]).clients.Valid()
      ensures wsrefs == old(wsrefs).Remove(sid)
      ensures var r := RemoveClients(old(clients), old(wsrefs.entries[sid]).clients.Values());
        clients == r.0 && hooks == old(hooks) + r.1
      ensures OthersKept(old(clients.entries), old(wsrefs.entries), clients.entries, wsrefs.entries, sid)
      ensures forall c | c in clients.entries :: clients.entries[c].socketId != sid
      ensures forall c | c in clients.entries :: c in old(clients.entries) && clients.entries[c] == old(clients.entries[c])
    {
      ghost var C0, W0 := clients, wsrefs;
      TableValid(C0, W0, sid);
      var disconnect := wsrefs.entries[sid].clients.Values();
      wsrefs := wsrefs.Remove(sid);
      for i := 0 to |disconnect|
        invariant wsrefs == W0.Remove(sid)
        invariant clients == RemoveClients(C0, disconnect[..i]).0
        invariant hooks == old(hooks) + RemoveClients(C0, disconnect[..i]).1
      {
        assert disconnect[..i + 1][..i] == disconnect[..i];
        ghost var r := RemoveClients(C0, disconnect[..i]);
        var cid := disconnect[i];
        var c := clients.Get(cid);
        if c.Some? {
          var isController := IsTunnelController(c.value.tunnelId);
          clients := clients.Remove(cid);
          hooks := hooks + [if isController then TunnelControllerDisconnected(cid) else ClientDisconnected(cid)];
          AppendAssoc(old(hooks), r.1, [DisconnectHook(cid, c.value.tunnelId)]);
        }
      }
      assert disconnect[..|disconnect|] == disconnect;
      TeardownKeepsRegistry(C0, W0, sid);
      RemoveClientsOnlyRemoves(C0, disconnect);
    }

    /**
     * One pass of the read loop, as the loop needs it: the frame's step, and,
     * while no `_deauth_` frame has come (`clean`), `Grown` kept from the loop's start.
     */
    method ReceiveGrowing(sid: SocketId, frame: Frame, t: Transport, ghost w0: WsRef, ghost seen: bool, ghost clean: bool)
      returns (step: Step)
      requires Valid() && sid in wsrefs.entries
      requires clean ==> Grown(w0, wsrefs.entries[sid], seen)
      modifies this`clients, this`wsrefs, this`outbox, this`hooks
      ensures Valid() && sid in wsrefs.entries
      ensures OthersKept(old(clients.entries), old(wsrefs.entries), clients.entries, wsrefs.entries, sid)
      ensures step == FrameStep(frame)
      ensures clean && !DeauthorizeFrame(frame) ==> Grown(w0, wsrefs.entries[sid], seen || AuthorizeFrame(frame))
      ensures NothingAdded(old(clients.entries), old(wsrefs.entries), clients.entries, wsrefs.entries, sid)
    {
      ghost var Cp, Wp, Op, Hp := clients, wsrefs, outbox, hooks;
      step := Receive(sid, frame, t);
      if clean && !DeauthorizeFrame(frame) {
        FrameKeepsGrown(Cp, Wp, Op, Hp, clients, wsrefs, outbox, hooks, sid, frame, t, w0, seen);
      }
      if AuthorizeFrame(frame) {
        var k := Classify(frame.parsed);
        AuthorizeAddsNothing(Cp, Wp, Op, Hp, clients, wsrefs, outbox, hooks, sid, k.tid, k.data, t);
      } else if DeauthorizeFrame(frame) {
        DeauthorizeAddsNothing(Cp, Wp, Hp, clients, wsrefs, hooks, sid, Classify(frame.parsed).tid);
      }
    }

    /**
     * The read loop of `_handler`: frames are received one at a time until they
     * run out or one closes or abandons the connection. The loop ends with the
     * step of the first such frame, and goes on through every frame when there
     * is none. Only this socket and its clients change. Until the stop, without
     * a `_deauth_` frame, no tunnel id of the socket is unmapped, and an `_auth_`
     * frame leaves the socket holding a client unless it started as a tunnel
     * socket with none.
     */
    method ReceiveFrames(sid: SocketId, frames: seq<Frame>, t: Transport) returns (step: Step)
      requires Valid() && sid in wsrefs.entries
      modifies this`clients, this`wsrefs, this`outbox, this`hooks
      ensures Valid() && sid in wsrefs.entries
      ensures OthersKept(old(clients.entries), old(wsrefs.entries), clients.entries, wsrefs.entries, sid)
      ensures step == Next <==> StopAt(frames) == |frames|
      ensures step != Next ==> step == FrameStep(frames[StopAt(frames)])
      ensures NoDeauthorizeBefore(frames, StopAt(frames)) ==>
        Grown(old(wsrefs.entries[sid]), wsrefs.entries[sid], AuthorizeBefore(frames, StopAt(frames)))
      ensures NothingAdded(old(clients.entries), old(wsrefs.entries), clients.entries, wsrefs.entries, sid)
    {
      ghost var C0, W0 := clients.entries, wsrefs.entries;
      ghost var w0 := wsrefs.entries[sid];
      ghost var clean, seen := true, false;
      step := Next;
      var i := 0;
      while i < |frames| && step == Next
        invariant 0 <= i <= |frames|
        invariant Valid() && sid in wsrefs.entries
        invariant OthersKept(C0, W0, clients.entries, wsrefs.entries, sid)
        invariant step == Next ==> i <= StopAt(frames)
        invariant step != Next ==> 0 < i && i - 1 == StopAt(frames) && step == FrameStep(frames[i - 1])
        invariant clean == NoDeauthorizeBefore(frames, i)
        invariant seen == AuthorizeBefore(frames, i)
        invariant clean ==> Grown(w0, wsrefs.entries[sid], seen)
        invariant NothingAdded(C0, W0, clients.entries, wsrefs.entries, sid)
        decreases |frames| - i
      {
        ghost var Cp, Wp := clients.entries, wsrefs.entries;
        ScanStep(frames, i);
        FlagsStep(frames, i);
        step := ReceiveGrowing(sid, frames[i], t, w0, seen, clean);
        NothingAddedTrans(C0, W0, Cp, Wp, clients.entries, wsrefs.entries, sid);
        clean, seen := clean && !DeauthorizeFrame(frames[i]), seen || AuthorizeFrame(frames[i]);
        i := i + 1;
      }
      if step != Next {
        ScanStep(frames, i - 1);
        FlagsStep(frames, i - 1);
      }
    }

    /**
     * `_handler` for one connection that delivers `frames` and then closes. The
     * loop's step is that of the first frame that ends it. A frame with a
     * non-string `_tid_` returns before the cleanup, leaving the socket
     * registered, and with it the client an earlier `_auth_` frame registered;
     * every other ending tears the socket down.
     */
    method Handler(path: string, frames: seq<Frame>, t: Transport) returns (sid: SocketId, step: Step)
      requires Valid()
      modifies this`clients, this`wsrefs, this`outbox, this`hooks
      ensures Valid()
      ensures sid !in old(wsrefs.entries)
      ensures step == Next <==> StopAt(frames) == |frames|
      ensures step != Next ==> step == FrameStep(frames[StopAt(frames)])
      ensures step == Abandoned <==> sid in wsrefs.entries
      ensures step != Abandoned ==> forall c | c in clients.entries :: clients.entries[c].socketId != sid
      ensures step == Abandoned && NoDeauthorizeBefore(frames, StopAt(frames)) && AuthorizeBefore(frames, StopAt(frames)) ==>
        exists c | c in clients.entries :: clients.entries[c].socketId == sid
      ensures forall s | s in old(wsrefs.entries) :: s in wsrefs.entries && wsrefs.entries[s] == old(wsrefs.entries[s])
      ensures forall c | c in old(clients.entries) :: c in clients.entries && clients.entries[c] == old(clients.entries[c])
      ensures wsrefs.entries.Keys <= old(wsrefs.entries).Keys + {sid}
      ensures forall c | c in clients.entries && c !in old(clients.entries) :: clients.entries[c].socketId == sid
    {
      ghost var C0, W0 := clients.entries, wsrefs.entries;
      sid := Connect(path);
      ghost var C1, W1 := clients.entries, wsrefs.entries;
      step := ReceiveFrames(sid, frames, t);
      NothingAddedTrans(C0, W0, C1, W1, clients.entries, wsrefs.entries, sid);
      HandlerKeepsOldClients(C0, W0, sid);
      if step != Abandoned {
        Teardown(sid);
      } else if NoDeauthorizeBefore(frames, StopAt(frames)) && AuthorizeBefore(frames, StopAt(frames)) {
        assert Engaged(wsrefs.entries[sid]);
        EngagedHoldsClient(clients, wsrefs, sid);
      }
    }

    /**
     * `_handler` with the cleanup the warning at a bad `_tid_` evidently intends:
     * the loop ends at such a frame and the socket is still torn down, so no
     * socket or client of the connection outlives it.
     */
    method HandlerWithCleanup(path: string, frames: seq<Frame>, t: Transport) returns (sid: SocketId)
      requires Valid()
      modifies this`clients, this`wsrefs, this`outbox, this`hooks
      ensures Valid()
      ensures sid !in old(wsrefs.entries) && sid !in wsrefs.entries
      ensures forall c | c in clients.entries :: clients.entries[c].socketId != sid
      ensures forall s | s in old(wsrefs.entries) :: s in wsrefs.entries && wsrefs.entries[s] == old(wsrefs.entries[s])
      ensures forall c | c in old(clients.entries) :: c in clients.entries && clients.entries[c] == old(clients.entries[c])
    {
      ghost var C0, W0 := clients.entries, wsrefs.entries;
      sid := Connect(path);
      var _ := ReceiveFrames(sid, frames, t);
      HandlerKeepsOldClients(C0, W0, sid);
      Teardown(sid);
    }

    /** `destroy`: the destroy hook, then both registries emptied (socket closing is the transport's). */
    method Destroy()
      modifies this`clients, this`wsrefs, this`hooks
      ensures Valid()
      ensures clients == Dicts.Empty() && wsrefs == Dicts.Empty()
      ensures hooks == old(hooks) + [Destroyed]
    {
      hooks := hooks + [Destroyed];
      wsrefs := Dicts.Empty();
      clients := Dicts.Empty();
    }
  }

  /** A log extended by nothing is unchanged. */
  lemma AppendEmpty<T>(log: seq<T>)
    ensures log + [] == log
  {
  }

  /** A log extended by `a` and then by `b` is the log extended by `a + b`. */
  lemma AppendAssoc<T>(log: seq<T>, a: seq<T>, b: seq<T>)
    ensures log + a + b == log + (a + b)
  {
  }

  /** Registering a new, empty socket keeps the registry invariant. */
  lemma ConnectKeepsRegistry(C: Dicts.Dict<ClientId, Client>, W: Dicts.Dict<SocketId, WsRef>, sid: SocketId, path: string)
    requires Registry(C, W) && sid !in W.entries
    ensures Registry(C, W.Put(sid, WsRef(sid, path, Dicts.Empty(), false)))
  {
    var W' := W.Put(sid, WsRef(sid, path, Dicts.Empty(), false));
    forall s | s in W'.entries
      ensures SocketWellFormed(s, W'.entries[s], C.entries)
    {
      if s != sid {
        assert SocketWellFormed(s, W.entries[s], C.entries);
      }
    }
    forall c | c in C.entries
      ensures ClientWellFormed(c, C.entries[c], W'.entries)
    {
      assert ClientWellFormed(c, C.entries[c], W.entries);
    }
  }

  /** Clients registered before a socket existed are on other sockets. */
  lemma HandlerKeepsOldClients(C0: map<ClientId, Client>, W0: map<SocketId, WsRef>, sid: SocketId)
    requires ClientsWellFormed(C0, W0) && sid !in W0
    ensures forall c | c in C0 :: C0[c].socketId != sid
  {
    forall c | c in C0
      ensures C0[c].socketId != sid
    {
      assert ClientWellFormed(c, C0[c], W0);
    }
  }
}
