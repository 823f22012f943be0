/**
 * The simulated device-manager API client: reading its JSON definition, matching
 * inbound app messages against the defined methods, and the replies it sends.
 * JSON values are `Values.Value`; the sockets are left out, so a handler returns
 * the `{topic, data}` messages it would send, in order.
 */
module DmapiClient {
  import opened Wrappers
  import opened Values
  import Strs

  /** `ApiConn` */
  datatype ApiConn = ApiConn(host: string, port: int, useSsl: Value, apiKey: string, appKey: string)

  /** `ApiMethod` */
  datatype ApiMethod = ApiMethod(topic: string, reply: string, pattern: Value, data: Value, matchBreak: bool)

  /** `ApiSpec` */
  datatype ApiSpec = ApiSpec(api: ApiConn, monitor: seq<Value>, methods: seq<ApiMethod>)

  /** One `_send`: the message `{"topic": topic, "data": data}`. */
  datatype Sent = Sent(topic: string, data: Value)

  /** The four parts of an app topic `device/app/<app>/<dev>/<svc>/<topic>`. */
  datatype AppAddress = AppAddress(app: string, dev: string, svc: string, topic: string)

  const APP_PREFIX: string := "device/app/"

  // ---------------------------------------------------------------------------
  // Matching

  /** The loop of `_match` over a list pattern: stops at the first item missing from the data. */
  function AllIn(items: seq<Value>, data: seq<Value>): bool {
    if |items| == 0 then true
    else if items[0] !in data then false
    else AllIn(items[1..], data)
  }

  /** `_match(data, match)` */
  function Match(data: Value, pattern: Value): bool {
    if pattern.Null? then true
    else if data.Arr? && pattern.Arr? then AllIn(pattern.items, data.items)
    else if data.Obj? && pattern.Obj? then
      forall k | k in pattern.fields :: k in data.fields && data.fields[k] == pattern.fields[k]
    else data == pattern
  }

  lemma {:induction false} AllInSpec(items: seq<Value>, data: seq<Value>)
    ensures AllIn(items, data) <==> forall i | 0 <= i < |items| :: items[i] in data
  {
    if |items| > 0 {
      AllInSpec(items[1..], data);
      assert forall i | 1 <= i < |items| :: items[i] == items[1..][i - 1];
    }
  }

  /**
   * No pattern matches everything; a list pattern matches a list holding each of
   * its items; a dict pattern matches a dict holding each of its keys with an
   * equal value; any other pair matches only when equal.
   */
  lemma MatchSpec(data: Value, pattern: Value)
    ensures pattern.Null? ==> Match(data, pattern)
    ensures !pattern.Null? && data.Arr? && pattern.Arr? ==>
      (Match(data, pattern) <==> forall i | 0 <= i < |pattern.items| :: pattern.items[i] in data.items)
    ensures !pattern.Null? && data.Obj? && pattern.Obj? ==>
      (Match(data, pattern) <==> forall k | k in pattern.fields :: k in data.fields && data.fields[k] == pattern.fields[k])
    ensures !pattern.Null? && !(data.Arr? && pattern.Arr?) && !(data.Obj? && pattern.Obj?) ==>
      (Match(data, pattern) <==> data == pattern)
  {
    if pattern.Arr? && data.Arr? {
      AllInSpec(pattern.items, data.items);
    }
  }

  /** Every value matches itself as a pattern. */
  lemma MatchReflexive(v: Value)
    ensures Match(v, v)
  {
    if v.Arr? {
      AllInSpec(v.items, v.items);
    }
  }

  // ---------------------------------------------------------------------------
  // App topics

  /** The topic `_send_app_message` sends on. */
  function AppTopic(a: AppAddress): string {
    APP_PREFIX + a.app + "/" + a.dev + "/" + a.svc + "/" + a.topic
  }

  /** The topic parsing of `_handle_message`: the prefix, then at least four `/`-parts. */
  function ParseAppTopic(topic: string): Option<AppAddress> {
    if !Strs.StartsWith(topic, APP_PREFIX) then None
    else
      var parts := Strs.Split(Strs.RemovePrefix(topic, APP_PREFIX), '/');
      if |parts| >= 4 then Some(AppAddress(parts[0], parts[1], parts[2], Strs.Join(parts[3..], '/'))) else None
  }

  /** A key without `/` in it. */
  predicate Key(s: string) {
    '/' !in s
  }

  /** The part of an app topic after the prefix. */
  function AppPath(a: AppAddress): string {
    a.app + ['/'] + (a.dev + ['/'] + (a.svc + ['/'] + a.topic))
  }

  lemma AppTopicPath(a: AppAddress)
    ensures AppTopic(a) == APP_PREFIX + AppPath(a)
  {
  }

  /** The path of an address with `/`-free keys splits into the keys, then the parts of the topic. */
  lemma AppPathSplit(a: AppAddress)
    requires Key(a.app) && Key(a.dev) && Key(a.svc)
    ensures Strs.Split(AppPath(a), '/') == [a.app, a.dev, a.svc] + Strs.Split(a.topic, '/')
  {
    var r3 := a.svc + ['/'] + a.topic;
    var r2 := a.dev + ['/'] + r3;
    var t := Strs.Split(a.topic, '/');
    calc {
      Strs.Split(AppPath(a), '/');
      { Strs.SplitCons(a.app, '/', r2); }
      [a.app] + Strs.Split(r2, '/');
      { Strs.SplitCons(a.dev, '/', r3); }
      [a.app] + ([a.dev] + Strs.Split(r3, '/'));
      { Strs.SplitCons(a.svc, '/', a.topic); }
      [a.app] + ([a.dev] + ([a.svc] + t));
      { ThreeInFront(a.app, a.dev, a.svc, t); }
      [a.app, a.dev, a.svc] + t;
    }
  }

  lemma ThreeInFront<T>(x: T, y: T, z: T, rest: seq<T>)
    ensures [x] + ([y] + ([z] + rest)) == [x, y, z] + rest
  {
  }

  /** An app topic sent with `/`-free keys parses back to its keys and topic, whatever the topic holds. */
  lemma AppTopicRoundTrip(a: AppAddress)
    requires Key(a.app) && Key(a.dev) && Key(a.svc)
    ensures ParseAppTopic(AppTopic(a)) == Some(a)
  {
    var t := AppTopic(a);
    AppTopicPath(a);
    Strs.StartsWithConcat(APP_PREFIX, AppPath(a));
    assert Strs.RemovePrefix(t, APP_PREFIX) == AppPath(a);
    AppPathSplit(a);
    var parts := [a.app, a.dev, a.svc] + Strs.Split(a.topic, '/');
    assert parts[3..] == Strs.Split(a.topic, '/');
    Strs.JoinSplit(a.topic, '/');
  }

  /** A topic that parses is exactly the app topic of what it parses to, and its keys hold no `/`. */
  lemma ParsedAppTopicRebuilds(topic: string)
    requires ParseAppTopic(topic).Some?
    ensures var a := ParseAppTopic(topic).value; Key(a.app) && Key(a.dev) && Key(a.svc) && AppTopic(a) == topic
  {
    var rest := Strs.RemovePrefix(topic, APP_PREFIX);
    var parts := Strs.Split(rest, '/');
    var a := ParseAppTopic(topic).value;
    Strs.JoinSplit(rest, '/');
    JoinThree(parts, '/');
    assert AppPath(a) == rest;
    AppTopicPath(a);
    assert topic == APP_PREFIX + rest;
  }

  /** Joining at least four parts puts the first three in front, each followed by the separator. */
  lemma JoinThree(parts: seq<string>, sep: char)
    requires |parts| >= 4
    ensures Strs.Join(parts, sep) == parts[0] + [sep] + (parts[1] + [sep] + (parts[2] + [sep] + Strs.Join(parts[3..], sep)))
  {
    assert parts[1..][1..] == parts[2..];
    assert parts[2..][1..] == parts[3..];
    var j2 := Strs.Join(parts[2..], sep);
    var j1 := Strs.Join(parts[1..], sep);
    assert j2 == parts[2] + [sep] + Strs.Join(parts[3..], sep);
    assert j1 == parts[1] + [sep] + j2;
  }

  // ---------------------------------------------------------------------------
  // Handling app messages

  /** Whether a method answers a message: same topic and a successful match. */
  predicate Answers(m: ApiMethod, topic: string, data: Value) {
    m.topic == topic && Match(data, m.pattern)
  }

  /** The reply of a method: its reply topic, and its data unless that is null, else the incoming data. */
  function Reply(m: ApiMethod, a: AppAddress, data: Value): Sent {
    Sent(AppTopic(a.(topic := m.reply)), if m.data != Null then m.data else data)
  }

  /** The methods that reply to a message, in order: the answering ones, up to the first that breaks. */
  function Responders(ms: seq<ApiMethod>, topic: string, data: Value): seq<ApiMethod> {
    if |ms| == 0 then []
    else if Answers(ms[0], topic, data) then
      [ms[0]] + (if ms[0].matchBreak then [] else Responders(ms[1..], topic, data))
    else Responders(ms[1..], topic, data)
  }

  /** The messages `_handle_app_message` sends. */
  function Replies(ms: seq<ApiMethod>, a: AppAddress, data: Value): (r: seq<Sent>) {
    var rs := Responders(ms, a.topic, data);
    seq(|rs|, i requires 0 <= i < |rs| => Reply(rs[i], a, data))
  }

  /** The methods that answer a message, in order. */
  function Answering(ms: seq<ApiMethod>, topic: string, data: Value): seq<ApiMethod> {
    if |ms| == 0 then []
    else (if Answers(ms[0], topic, data) then [ms[0]] else []) + Answering(ms[1..], topic, data)
  }

  /**
   * Every responder answers the message and is one of the methods; only the last
   * responder can be one that breaks.
   */
  lemma {:induction false} RespondersAnswer(ms: seq<ApiMethod>, topic: string, data: Value)
    ensures var rs := Responders(ms, topic, data);
      && (forall m | m in rs :: Answers(m, topic, data) && m in ms)
      && (forall i | 0 <= i < |rs| - 1 :: !rs[i].matchBreak)
  {
    if |ms| > 0 {
      var tail := Responders(ms[1..], topic, data);
      RespondersAnswer(ms[1..], topic, data);
      var rs := Responders(ms, topic, data);
      if !Answers(ms[0], topic, data) {
        assert rs == tail;
        assert forall m | m in ms[1..] :: m in ms;
      } else if ms[0].matchBreak {
        assert rs == [ms[0]];
      } else {
        assert rs == [ms[0]] + tail;
        assert forall m | m in ms[1..] :: m in ms;
        forall i | 0 <= i < |rs| - 1
          ensures !rs[i].matchBreak
        {
          if i > 0 {
            assert rs[i] == tail[i - 1];
          }
        }
      }
    }
  }

  /** Without any breaking method, every answering method replies, in order. */
  lemma {:induction false} RespondersWithoutBreak(ms: seq<ApiMethod>, topic: string, data: Value)
    requires forall i | 0 <= i < |ms| :: !ms[i].matchBreak
    ensures Responders(ms, topic, data) == Answering(ms, topic, data)
  {
    if |ms| > 0 {
      RespondersWithoutBreak(ms[1..], topic, data);
    }
  }

  /** When the first answering method breaks, it is the only one that replies. */
  lemma {:induction false} FirstBreakingAnswerIsAlone(ms: seq<ApiMethod>, topic: string, data: Value, j: nat)
    requires j < |ms| && Answers(ms[j], topic, data) && ms[j].matchBreak
    requires forall i | 0 <= i < j :: !Answers(ms[i], topic, data)
    ensures Responders(ms, topic, data) == [ms[j]]
  {
    if j > 0 {
      FirstBreakingAnswerIsAlone(ms[1..], topic, data, j - 1);
    }
  }

  /** The replies to a message, one method at a time. */
  lemma RepliesCons(ms: seq<ApiMethod>, a: AppAddress, data: Value)
    requires |ms| > 0
    ensures Replies(ms, a, data) ==
      if !Answers(ms[0], a.topic, data) then Replies(ms[1..], a, data)
      else [Reply(ms[0], a, data)] + (if ms[0].matchBreak then [] else Replies(ms[1..], a, data))
  {
    var tail := Replies(ms[1..], a, data);
    if Answers(ms[0], a.topic, data) && !ms[0].matchBreak {
      assert Replies(ms, a, data) == [Reply(ms[0], a, data)] + tail;
    }
  }

  /** The replies sent so far, followed by those to the remaining methods, once method `i` is handled. */
  lemma RepliesStep(ms: seq<ApiMethod>, i: nat, a: AppAddress, data: Value, sent: seq<Sent>)
    requires i < |ms| && sent + Replies(ms[i..], a, data) == Replies(ms, a, data)
    ensures !Answers(ms[i], a.topic, data) ==> sent + Replies(ms[i + 1..], a, data) == Replies(ms, a, data)
    ensures Answers(ms[i], a.topic, data) && ms[i].matchBreak ==> sent + [Reply(ms[i], a, data)] == Replies(ms, a, data)
    ensures Answers(ms[i], a.topic, data) && !ms[i].matchBreak ==>
      (sent + [Reply(ms[i], a, data)]) + Replies(ms[i + 1..], a, data) == Replies(ms, a, data)
  {
    assert ms[i..][1..] == ms[i + 1..];
    RepliesCons(ms[i..], a, data);
    var r := [Reply(ms[i], a, data)];
    assert (sent + r) + Replies(ms[i + 1..], a, data) == sent + (r + Replies(ms[i + 1..], a, data));
  }

  /** `_handle_app_message`: one reply per answering method, in order, stopping after one that breaks. */
  method HandleAppMessage(spec: ApiSpec, a: AppAddress, data: Value) returns (sent: seq<Sent>)
    ensures sent == Replies(spec.methods, a, data)
  {
    var ms := spec.methods;
    sent := [];
    var i := 0;
    while i < |ms|
      invariant 0 <= i <= |ms|
      invariant sent + Replies(ms[i..], a, data) == Replies(ms, a, data)
    {
      var m := ms[i];
      RepliesStep(ms, i, a, data, sent);
      if m.topic == a.topic && Match(data, m.pattern) {
        var responseTopic := m.reply;
        var responseData := if m.data != Null then m.data else data;
        sent := sent + [Sent(AppTopic(a.(topic := responseTopic)), responseData)];
        if m.matchBreak {
          return;
        }
      }
      i := i + 1;
    }
  }

  /** `_handle_message`: app messages are answered, everything else is ignored. */
  method HandleMessage(spec: ApiSpec, topic: string, data: Value) returns (sent: seq<Sent>)
    ensures ParseAppTopic(topic).None? ==> sent == []
    ensures ParseAppTopic(topic).Some? ==> sent == Replies(spec.methods, ParseAppTopic(topic).value, data)
  {
    if Strs.StartsWith(topic, APP_PREFIX) {
      var parts := Strs.Split(Strs.RemovePrefix(topic, APP_PREFIX), '/');
      if |parts| >= 4 {
        var a := AppAddress(parts[0], parts[1], parts[2], Strs.Join(parts[3..], '/'));
        sent := HandleAppMessage(spec, a, data);
        return;
      }
    }
    sent := [];
  }

  // ---------------------------------------------------------------------------
  // The definition file

  /** `_get_url` */
  function GetUrl(host: string, port: int, useSsl: Value): string {
    (if Truthy(useSsl) then "wss" else "ws") + "://" + host + ":" + Strs.IntToString(port) + "/api/websocket"
  }

  /**
   * The URL carries the scheme chosen by `use_ssl`, then the host, a colon, the
   * port written in decimal (only digits for a port that is not negative), and
   * the websocket path.
   */
  lemma GetUrlShape(host: string, port: int, useSsl: Value)
    ensures var scheme := if Truthy(useSsl) then "wss://" else "ws://";
      var url := GetUrl(host, port, useSsl);
      var head := scheme + host + ":";
      && Strs.StartsWith(url, head)
      && Strs.EndsWith(url, "/api/websocket")
      && |head| <= |url| - |"/api/websocket"|
      && url[|head|..|url| - |"/api/websocket"|] == Strs.IntToString(port)
      && (port >= 0 ==> forall i | |head| <= i < |url| - |"/api/websocket"| :: '0' <= url[i] <= '9')
  {
    var scheme := if Truthy(useSsl) then "wss://" else "ws://";
    var head := scheme + host + ":";
    var num := Strs.IntToString(port);
    var url := GetUrl(host, port, useSsl);
    assert url == head + (num + "/api/websocket");
    assert url == (head + num) + "/api/websocket";
    Strs.StartsWithConcat(head, num + "/api/websocket");
    Strs.EndsWithConcat(head + num, "/api/websocket");
    assert url[|head|..|url| - |"/api/websocket"|] == num;
    if port >= 0 {
      forall i | |head| <= i < |url| - |"/api/websocket"|
        ensures '0' <= url[i] <= '9'
      {
        assert url[i] == num[i - |head|];
      }
    }
  }

  /** `x.strip()` on a value that must be a string: raises otherwise. */
  function StripField(v: Value): Outcome<string> {
    if v.Str? then Returns(Strs.Strip(v.s)) else Raises
  }

  /**
   * The `ApiConn` of `_parse_spec` and its checks: every string field is stripped
   * before any check (a non-string raises), an empty host rejects before the port
   * is compared, a non-integer port raises, a port <= 0 or an empty api key rejects.
   */
  function ParseConn(api: map<string, Value>): Outcome<Option<ApiConn>> {
    var host := StripField(GetOr(api, "host", Str("")));
    var port := GetOr(api, "port", Int(0));
    var useSsl := GetOr(api, "use_ssl", True);
    var apiKey := StripField(GetOr(api, "api_key", Str("")));
    var appKey := StripField(GetOr(api, "app_key", Str("")));
    if host.Raises? || apiKey.Raises? || appKey.Raises? then Raises
    else if |host.value| == 0 then Returns(None)
    else if !port.Int? then Raises
    else if port.i <= 0 then Returns(None)
    else if |apiKey.value| == 0 then Returns(None)
    else Returns(Some(ApiConn(host.value, port.i, useSsl, apiKey.value, appKey.value)))
  }

  /**
   * One entry of `methods`: a non-dict raises (it has no `get`), one without a
   * string topic is skipped, otherwise the reply is stripped and defaults to the
   * topic, and `break` holds unless the field equals False (so 0 too).
   */
  function ParseMethod(v: Value): Outcome<Option<ApiMethod>> {
    if !v.Obj? then Raises
    else
      var f := v.fields;
      var topic := Get(f, "topic");
      if !topic.Str? then Returns(None)
      else
        var reply := Get(f, "reply");
        var stripped := Strs.Strip(if reply.Str? then reply.s else "");
        var methodReply := if |stripped| == 0 then topic.s else stripped;
        Returns(Some(ApiMethod(topic.s, methodReply, Get(f, "match"), Get(f, "data"), !(Get(f, "break") == False))))
  }

  /** The method list built from the first entries. */
  function ParsedMethods(specs: seq<Value>): Outcome<seq<ApiMethod>> {
    if |specs| == 0 then Returns([])
    else
      match ParsedMethods(specs[..|specs| - 1])
      case Raises => Raises
      case Returns(ms) =>
        match ParseMethod(specs[|specs| - 1])
        case Raises => Raises
        case Returns(None) => Returns(ms)
        case Returns(Some(m)) => Returns(ms + [m])
  }

  /** What `_parse_spec` returns for the decoded definition dict. */
  function SpecOf(data: map<string, Value>): Outcome<Option<ApiSpec>> {
    var api := Get(data, "api");
    if !api.Obj? then Returns(None)
    else
      match ParseConn(api.fields)
      case Raises => Raises
      case Returns(None) => Returns(None)
      case Returns(Some(conn)) =>
        var monitor := Get(data, "monitor");
        var methods := Get(data, "methods");
        match ParsedMethods(if methods.Arr? then methods.items else [])
        case Raises => Raises
        case Returns(ms) => Returns(Some(ApiSpec(conn, if monitor.Arr? then monitor.items else [], ms)))
  }

  lemma ParsedMethodsSnoc(specs: seq<Value>, i: nat)
    requires i < |specs|
    ensures ParsedMethods(specs[..i + 1]) ==
      match ParsedMethods(specs[..i])
      case Raises => Raises
      case Returns(ms) =>
        match ParseMethod(specs[i])
        case Raises => Raises
        case Returns(None) => Returns(ms)
        case Returns(Some(m)) => Returns(ms + [m])
  {
    assert specs[..i + 1][..i] == specs[..i];
  }

  /** Once an entry raises, the whole list raises. */
  lemma {:induction false} ParsedMethodsRaises(specs: seq<Value>, i: nat)
    requires i <= |specs| && ParsedMethods(specs[..i]).Raises?
    ensures ParsedMethods(specs).Raises?
    decreases |specs| - i
  {
    if i < |specs| {
      ParsedMethodsSnoc(specs, i);
      ParsedMethodsRaises(specs, i + 1);
    } else {
      assert specs[..i] == specs;
    }
  }

  /** `_parse_spec` */
  method ParseSpec(data: map<string, Value>) returns (r: Outcome<Option<ApiSpec>>)
    ensures r == SpecOf(data)
  {
    var apiData := Get(data, "api");
    if !apiData.Obj? {
      return Returns(None);
    }
    var conn := ParseConn(apiData.fields);
    if conn.Raises? {
      return Raises;
    }
    if conn.value.None? {
      return Returns(None);
    }
    var monitor := Get(data, "monitor");
    var monitorItems := if monitor.Arr? then monitor.items else [];
    var methodsSpec := Get(data, "methods");
    var specs := if methodsSpec.Arr? then methodsSpec.items else [];
    var methods: seq<ApiMethod> := [];
    for i := 0 to |specs|
      invariant ParsedMethods(specs[..i]) == Returns(methods)
    {
      ParsedMethodsSnoc(specs, i);
      var m := ParseMethod(specs[i]);
      if m.Raises? {
        ParsedMethodsRaises(specs, i + 1);
        return Raises;
      }
      if m.value.Some? {
        methods := methods + [m.value.value];
      }
    }
    assert specs[..|specs|] == specs;
    r := Returns(Some(ApiSpec(conn.value.value, monitorItems, methods)));
  }

  /** An accepted connection has a non-empty host and api key, each stripped at both ends, and a positive port. */
  lemma ParseConnAccepted(api: map<string, Value>)
    requires ParseConn(api).Returns? && ParseConn(api).value.Some?
    ensures var c := ParseConn(api).value.value;
      && c.host != "" && c.port > 0 && c.apiKey != ""
      && !Strs.IsSpace(c.host[0]) && !Strs.IsSpace(c.host[|c.host| - 1])
      && !Strs.IsSpace(c.apiKey[0]) && !Strs.IsSpace(c.apiKey[|c.apiKey| - 1])
  {
    var host := GetOr(api, "host", Str(""));
    var apiKey := GetOr(api, "api_key", Str(""));
    assert host.Str? && apiKey.Str?;
    var c := ParseConn(api).value.value;
    assert c.host == Strs.Strip(host.s) && c.apiKey == Strs.Strip(apiKey.s);
    Strs.StripEnds(host.s);
    Strs.StripEnds(apiKey.s);
  }

  /**
   * An accepted definition has a non-empty host and api key, both stripped of
   * white space at the ends, and a positive port; its monitor list is the
   * `monitor` list given (empty when that is missing or not a list), and its
   * methods are those parsed from the `methods` list (none when that is missing
   * or not a list). A definition without an `api` dict is rejected.
   */
  lemma AcceptedSpecIsValid(data: map<string, Value>)
    ensures !Get(data, "api").Obj? ==> SpecOf(data) == Returns(None)
    ensures SpecOf(data).Returns? && SpecOf(data).value.Some? ==>
      var c := SpecOf(data).value.value.api;
      && c.host != "" && c.port > 0 && c.apiKey != ""
      && !Strs.IsSpace(c.host[0]) && !Strs.IsSpace(c.host[|c.host| - 1])
      && !Strs.IsSpace(c.apiKey[0]) && !Strs.IsSpace(c.apiKey[|c.apiKey| - 1])
    ensures SpecOf(data).Returns? && SpecOf(data).value.Some? ==>
      var spec := SpecOf(data).value.value;
      var monitor := Get(data, "monitor");
      var methods := Get(data, "methods");
      && spec.monitor == (if monitor.Arr? then monitor.items else [])
      && (methods.Arr? ==> ParsedMethods(methods.items) == Returns(spec.methods))
      && (!methods.Arr? ==> spec.methods == [])
  {
    var api := Get(data, "api");
    if api.Obj? && SpecOf(data).Returns? && SpecOf(data).value.Some? {
      assert ParseConn(api.fields) == Returns(Some(SpecOf(data).value.value.api));
      ParseConnAccepted(api.fields);
    }
  }

  /**
   * Each parsed method comes from a dict entry with a string topic; its reply is
   * the topic, or a non-blank reply stripped at both ends (the given one, when it
   * is a non-blank string); `break` is off exactly when the field equals False (or 0).
   */
  lemma ParsedMethodFields(v: Value)
    requires ParseMethod(v).Returns? && ParseMethod(v).value.Some?
    ensures var m := ParseMethod(v).value.value;
      && v.Obj? && Get(v.fields, "topic") == Str(m.topic)
      && (m.reply == m.topic || (m.reply != "" && !Strs.IsSpace(m.reply[0]) && !Strs.IsSpace(m.reply[|m.reply| - 1])))
      && (Get(v.fields, "reply").Str? && Strs.Strip(Get(v.fields, "reply").s) != "" ==> m.reply == Strs.Strip(Get(v.fields, "reply").s))
      && (!m.matchBreak <==> Get(v.fields, "break") == Int(0))
  {
    var reply := Get(v.fields, "reply");
    Strs.StripEnds(if reply.Str? then reply.s else "");
  }

  /** A method entry without `break` breaks; one with `"break": 0` or `false` does not. */
  lemma BreakDefaults(f: map<string, Value>, topic: string)
    requires "topic" in f && f["topic"] == Str(topic)
    ensures "break" !in f ==> ParseMethod(Obj(f)).value.value.matchBreak
    ensures "break" in f && f["break"] == Int(0) ==> !ParseMethod(Obj(f)).value.value.matchBreak
  {
  }
}
