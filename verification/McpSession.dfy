/** One MCP connection: dispatch over the session phase, and whole runs of the serving loop. */
module McpSession {
  import opened Struct
  import opened Utf8
  import opened McpFraming
  import opened McpJson

  datatype Phase = New | Initializing | Ready

  /** ASCII literals as Python text. */
  function Ascii(s: string): (t: Text)
    requires forall i :: 0 <= i < |s| ==> s[i] as int < 0x80
    ensures |t| == |s|
    ensures forall i :: 0 <= i < |s| ==> t[i] == s[i] as int
  {
    seq(|s|, i requires 0 <= i < |s| => s[i] as int)
  }

  /** What a tool handler does with its arguments: it returns a payload or raises. */
  datatype Outcome = Returned | Raised

  /** The tool table, the handlers, the JSON codec and the regular expressions, all left open. */
  datatype Server = Server(
    tools: map<Text, Schema>,
    handler: (Text, Json) -> Outcome,
    matches: Matcher,
    initializeSchema: Schema,
    parse: Text -> Option<Json>,
    encodes: Reply -> bool)

  datatype Body =
    | Error(code: int)
    | InitializeResult
    | PingResult
    | ToolList
    | EmptyList
    | ToolOutput(isError: bool)

  datatype Reply = Reply(id: Option<Json>, body: Body)

  /** A handler invocation. */
  datatype Call = Call(tool: Text, arguments: Json)

  datatype Turn = Turn(phase: Phase, reply: Option<Reply>, call: Option<Call>)

  function Get(members: seq<Member>, key: Text): (value: Option<Json>)
    ensures value.Some? <==> HasKey(members, key)
  {
    if members == [] then None
    else if members[0].key == key then Some(members[0].value)
    else Get(members[1..], key)
  }

  predicate IsValidId(id: Json) {
    id.Str? || TypeMatches(id, IntegerType)
  }

  predicate IsNonEmptyString(value: Option<Json>) {
    value.Some? && value.value.Str? && value.value.s != []
  }

  const ID: Text := Ascii("id")
  const JSONRPC: Text := Ascii("jsonrpc")
  const METHOD: Text := Ascii("method")
  const PARAMS: Text := Ascii("params")
  const META: Text := Ascii("_meta")
  const PROGRESS_TOKEN: Text := Ascii("progressToken")
  const CURSOR: Text := Ascii("cursor")
  const NAME: Text := Ascii("name")
  const ARGUMENTS: Text := Ascii("arguments")
  const INITIALIZED: Text := Ascii("notifications/initialized")

  function Failure(phase: Phase, id: Option<Json>, code: int): Turn {
    Turn(phase, Some(Reply(id, Error(code))), None)
  }

  function Success(phase: Phase, id: Json, body: Body): Turn {
    Turn(phase, Some(Reply(Some(id), body)), None)
  }

  /** `params`, or an empty object when absent. */
  function Params(request: seq<Member>): Json {
    match Get(request, PARAMS)
    case Some(p) => p
    case None => Obj([])
  }

  predicate RequestMetadataOk(params: seq<Member>) {
    match Get(params, META)
    case None => true
    case Some(meta) =>
      meta.Obj? &&
      match Get(meta.members, PROGRESS_TOKEN)
      case None => true
      case Some(token) => TypeMatches(token, StringType) || TypeMatches(token, IntegerType)
  }

  predicate NotificationMetadataOk(params: seq<Member>) {
    match Get(params, META)
    case None => true
    case Some(meta) => meta.Obj?
  }

  predicate HasVersion(request: seq<Member>) {
    Get(request, JSONRPC) == Some(Str(Ascii("2.0")))
  }

  /** A request that carries no `id`: never answered once it is a well-formed notification. */
  function DispatchNotification(phase: Phase, request: seq<Member>, methodName: Text): Turn {
    var params := Params(request);
    if params.Obj? && methodName == INITIALIZED && phase == Initializing && NotificationMetadataOk(params.members)
    then Turn(Ready, None, None)
    else Turn(phase, None, None)
  }

  function DispatchTool(server: Server, phase: Phase, id: Json, params: seq<Member>): Turn {
    var arguments := match Get(params, ARGUMENTS) case Some(a) => a case None => Obj([]);
    var name := Get(params, NAME);
    if !arguments.Obj? then Failure(phase, Some(id), -32602)
    else if name.None? || !name.value.Str? then Failure(phase, Some(id), -32602)
    else if name.value.s !in server.tools then Failure(phase, Some(id), -32602)
    else
      var tool := name.value.s;
      if JsonSchemaError(server.matches, arguments, server.tools[tool], []).Some?
      then Success(phase, id, ToolOutput(true))
      else
        Turn(phase,
          Some(Reply(Some(id), ToolOutput(server.handler(tool, arguments).Raised?))),
          Some(Call(tool, arguments)))
  }

  function DispatchRequest(server: Server, phase: Phase, id: Json, request: seq<Member>, methodName: Text): Turn {
    var params := Params(request);
    if !params.Obj? then Failure(phase, Some(id), -32602)
    else if !RequestMetadataOk(params.members) then Failure(phase, Some(id), -32602)
    else if Ascii("notifications/") <= methodName then Failure(phase, Some(id), -32600)
    else if methodName == Ascii("initialize") then
      if phase != New then Failure(phase, Some(id), -32600)
      else if Get(request, PARAMS).None? then Failure(phase, Some(id), -32602)
      else if JsonSchemaError(server.matches, params, server.initializeSchema, []).Some?
      then Failure(phase, Some(id), -32602)
      else Success(Initializing, id, InitializeResult)
    else if methodName == Ascii("ping") then Success(phase, id, PingResult)
    else if phase != Ready then Failure(phase, Some(id), -32600)
    else if methodName in {Ascii("tools/list"), Ascii("resources/list"), Ascii("prompts/list")} then
      if Get(params.members, CURSOR).Some? then Failure(phase, Some(id), -32602)
      else Success(phase, id, if methodName == Ascii("tools/list") then ToolList else EmptyList)
    else if methodName == Ascii("tools/call") then
      if Get(request, PARAMS).None? then Failure(phase, Some(id), -32602)
      else DispatchTool(server, phase, id, params.members)
    else Failure(phase, Some(id), -32601)
  }

  function Dispatched(server: Server, phase: Phase, request: seq<Member>): Turn {
    var id := Get(request, ID);
    if id.Some? && !IsValidId(id.value) then Failure(phase, None, -32600)
    else if !HasVersion(request) then Failure(phase, id, -32600)
    else if !IsNonEmptyString(Get(request, METHOD)) then Failure(phase, id, -32600)
    else
      var methodName := Get(request, METHOD).value.s;
      match id
      case None => DispatchNotification(phase, request, methodName)
      case Some(i) => DispatchRequest(server, phase, i, request, methodName)
  }

  /** Whitespace that `str.strip` removes from a frame. */
  predicate IsSpace(c: CodePoint) {
    9 <= c <= 13 || 0x1C <= c <= 0x20 || c == 0x85 || c == 0xA0 || c == 0x1680 || 0x2000 <= c <= 0x200A ||
    c == 0x2028 || c == 0x2029 || c == 0x202F || c == 0x205F || c == 0x3000
  }

  predicate IsBlank(text: Text) {
    forall i :: 0 <= i < |text| ==> IsSpace(text[i])
  }

  function Strip(text: Text): Text {
    if text == [] then []
    else if IsSpace(text[0]) then Strip(text[1..])
    else if IsSpace(text[|text| - 1]) then Strip(text[..|text| - 1])
    else text
  }

  predicate IsNotification(j: Json) {
    j.Obj? && Get(j.members, ID).None? && HasVersion(j.members) && IsNonEmptyString(Get(j.members, METHOD))
  }

  function ErrorId(j: Json): Option<Json> {
    if j.Obj? && Get(j.members, ID).Some? && IsValidId(Get(j.members, ID).value) then Get(j.members, ID) else None
  }

  /** The body of the serving loop, before the reply is encoded. */
  function ServeTurn(server: Server, phase: Phase, frame: Frame): Turn {
    match frame
    case Oversized => Failure(phase, None, -32700)
    case NotUtf8 => Failure(phase, None, -32700)
    case Line(text) =>
      if Strip(text) == [] then Turn(phase, None, None)
      else
        match server.parse(Strip(text))
        case None => Failure(phase, None, -32700)
        case Some(j) =>
          if Depth(j) > MAX_JSON_DEPTH then
            if IsNotification(j) then Turn(phase, None, None) else Failure(phase, ErrorId(j), -32600)
          else if !j.Obj? then Failure(phase, None, -32600)
          else Dispatched(server, phase, j.members)
  }

  /** What `_write_response` puts on the wire: a reply that cannot be encoded becomes an internal error. */
  function Written(server: Server, reply: Reply): Reply {
    if server.encodes(reply) then reply
    else Reply(if reply.id.Some? && IsValidId(reply.id.value) then reply.id else None, Error(-32603))
  }

  class Session {
    var phase: Phase

    constructor ()
      ensures phase == New
    {
      phase := New;
    }

    method Dispatch(server: Server, request: seq<Member>) returns (reply: Option<Reply>, call: Option<Call>)
      modifies this
      ensures Turn(phase, reply, call) == Dispatched(server, old(phase), request)
    {
      hide DispatchRequest, Get, HasVersion, NotificationMetadataOk;
      var id := Get(request, ID);
      if id.Some? && !IsValidId(id.value) {
        return Some(Reply(None, Error(-32600))), None;
      }
      if !HasVersion(request) {
        return Some(Reply(id, Error(-32600))), None;
      }
      if !IsNonEmptyString(Get(request, METHOD)) {
        return Some(Reply(id, Error(-32600))), None;
      }
      var methodName := Get(request, METHOD).value.s;
      if id.None? {
        var params := Params(request);
        if !params.Obj? {
          return None, None;
        }
        if methodName == INITIALIZED && phase == Initializing && NotificationMetadataOk(params.members) {
          phase := Ready;
        }
        return None, None;
      }
      var turn := DispatchRequest(server, phase, id.value, request, methodName);
      phase := turn.phase;
      return turn.reply, turn.call;
    }
  }

  // ----- whole runs -----

  /** One frame of a run with the phase before it and what became of it. */
  datatype Event = Event(frame: Frame, before: Phase, turn: Turn)

  function Run(server: Server, phase: Phase, frames: seq<Frame>): (events: seq<Event>)
    ensures |events| == |frames|
    decreases |frames|
  {
    if frames == [] then []
    else
      var turn := ServeTurn(server, phase, frames[0]);
      [Event(frames[0], phase, turn)] + Run(server, turn.phase, frames[1..])
  }

  function Output(server: Server, events: seq<Event>): seq<Reply> {
    if events == [] then []
    else
      var reply := events[0].turn.reply;
      (if reply.Some? then [Written(server, reply.value)] else []) + Output(server, events[1..])
  }

  /** The handler invocations of a run. */
  function Calls(events: seq<Event>): seq<Call> {
    if events == [] then []
    else
      var call := events[0].turn.call;
      (if call.Some? then [call.value] else []) + Calls(events[1..])
  }

  /** A run is its first turn and the run that follows it. */
  lemma RunStep(server: Server, phase: Phase, frames: seq<Frame>)
    requires frames != []
    ensures var turn := ServeTurn(server, phase, frames[0]);
      var rest := Run(server, turn.phase, frames[1..]);
      && Output(server, Run(server, phase, frames)) ==
           (if turn.reply.Some? then [Written(server, turn.reply.value)] else []) + Output(server, rest)
      && Calls(Run(server, phase, frames)) == (if turn.call.Some? then [turn.call.value] else []) + Calls(rest)
  {
    hide ServeTurn, Written;
    var turn := ServeTurn(server, phase, frames[0]);
    var event, rest := Event(frames[0], phase, turn), Run(server, turn.phase, frames[1..]);
    assert ([event] + rest)[1..] == rest;
  }

  /** The serving loop over a whole connection: what it writes, and which handlers it runs, in order. */
  method Serve(server: Server, data: bytes) returns (output: seq<Reply>, calls: seq<Call>)
    ensures output == Output(server, Run(server, New, FramesOf(SplitLines(data))))
    ensures calls == Calls(Run(server, New, FramesOf(SplitLines(data))))
  {
    hide Written, FramesOf, SplitLines, ServeTurn, Output, Calls, Run;
    var session := new Session();
    var stream := new Stream(data);
    var frames := BoundedRequestLines(stream);
    output, calls := [], [];
    assert frames[0..] == frames;
    for i := 0 to |frames|
      invariant Output(server, Run(server, New, frames)) ==
        output + Output(server, Run(server, session.phase, frames[i..]))
      invariant Calls(Run(server, New, frames)) == calls + Calls(Run(server, session.phase, frames[i..]))
    {
      RunStep(server, session.phase, frames[i..]);
      var reply, call := ServeFrame(server, session, frames[i]);
      assert frames[i..][0] == frames[i] && frames[i..][1..] == frames[i + 1..];
      if reply.Some? {
        output := output + [Written(server, reply.value)];
      }
      if call.Some? {
        calls := calls + [call.value];
      }
    }
    NothingRuns(server, session.phase);
    assert frames[|frames|..] == [];
  }

  lemma NothingRuns(server: Server, phase: Phase)
    ensures Output(server, Run(server, phase, [])) == [] && Calls(Run(server, phase, [])) == []
  {
  }

  method ServeFrame(server: Server, session: Session, frame: Frame)
    returns (reply: Option<Reply>, call: Option<Call>)
    modifies session
    ensures Turn(session.phase, reply, call) == ServeTurn(server, old(session.phase), frame)
  {
    hide Dispatched, IsNotification, ErrorId, Strip, Depth;
    if !frame.Line? {
      return Some(Reply(None, Error(-32700))), None;
    }
    var line := Strip(frame.text);
    if line == [] {
      return None, None;
    }
    var request := server.parse(line);
    if request.None? {
      return Some(Reply(None, Error(-32700))), None;
    }
    var tooDeep := RequestJsonDepthError(request.value);
    if tooDeep {
      if IsNotification(request.value) {
        return None, None;
      }
      return Some(Reply(ErrorId(request.value), Error(-32600))), None;
    }
    if !request.value.Obj? {
      return Some(Reply(None, Error(-32600))), None;
    }
    reply, call := session.Dispatch(server, request.value.members);
  }
}
