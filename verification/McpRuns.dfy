/** What holds of every run of a connection, whatever the frames. */
module McpRuns {
  import opened Utf8
  import opened McpFraming
  import opened McpJson
  import opened McpSession

  /** The request a frame carries, if it carries one that parses. */
  function RequestOf(server: Server, frame: Frame): Option<Json> {
    if frame.Line? && Strip(frame.text) != [] then server.parse(Strip(frame.text)) else None
  }

  /** Frames nobody answers: blank lines and well-formed notifications. */
  predicate IsSilent(server: Server, frame: Frame) {
    frame.Line? &&
    (IsBlank(frame.text) || (RequestOf(server, frame).Some? && IsNotification(RequestOf(server, frame).value)))
  }

  /** The id an answer must carry: the request's own when that is valid. */
  function IdOf(server: Server, frame: Frame): Option<Json> {
    match RequestOf(server, frame)
    case Some(j) => ErrorId(j)
    case None => None
  }

  lemma {:induction false} StripBlank(text: Text)
    ensures Strip(text) == [] <==> IsBlank(text)
    decreases |text|
  {
    hide IsSpace;
    if text != [] {
      if IsSpace(text[0]) {
        StripBlank(text[1..]);
        assert IsBlank(text) <==> IsBlank(text[1..]) by {
          assert forall i :: 1 <= i < |text| ==> text[i] == text[1..][i - 1];
        }
      } else if IsSpace(text[|text| - 1]) {
        StripBlank(text[..|text| - 1]);
        assert text[..|text| - 1] != [] ==> text[..|text| - 1][0] == text[0];
      }
    }
  }

  lemma DispatchedReply(server: Server, phase: Phase, request: seq<Member>)
    ensures var turn, j := Dispatched(server, phase, request), Obj(request);
      && (turn.reply.None? <==> IsNotification(j))
      && (turn.reply.Some? ==> turn.reply.value.id == ErrorId(j))
  {
    hide JsonSchemaError, Get, IsValidId, HasVersion, RequestMetadataOk, NotificationMetadataOk;
  }

  /** One frame: silence exactly where it is due, and otherwise the right id. */
  lemma TurnReply(server: Server, phase: Phase, frame: Frame)
    ensures var turn := ServeTurn(server, phase, frame);
      && (turn.reply.None? <==> IsSilent(server, frame))
      && (turn.reply.Some? ==> turn.reply.value.id == IdOf(server, frame))
  {
    hide Dispatched, Depth, IsNotification, ErrorId, IsBlank, Strip;
    if frame.Line? {
      StripBlank(frame.text);
      var request := RequestOf(server, frame);
      if request.Some? && request.value.Obj? {
        DispatchedReply(server, phase, request.value.members);
      } else if request.Some? {
        NotAnObject(request.value);
      }
    }
  }

  lemma NotAnObject(j: Json)
    requires !j.Obj?
    ensures !IsNotification(j) && ErrorId(j).None?
  {
  }

  lemma WrittenKeepsId(server: Server, reply: Reply, frame: Frame)
    requires reply.id == IdOf(server, frame)
    ensures Written(server, reply).id == IdOf(server, frame)
  {
    hide IsValidId, Get, Strip;
  }

  /** The ids on the wire, and the ids the frames call for. */
  function Ids(output: seq<Reply>): seq<Option<Json>> {
    if output == [] then [] else [output[0].id] + Ids(output[1..])
  }

  function DueIds(server: Server, frames: seq<Frame>): seq<Option<Json>> {
    if frames == [] then []
    else (if IsSilent(server, frames[0]) then [] else [IdOf(server, frames[0])]) + DueIds(server, frames[1..])
  }

  lemma IdsCons(reply: Reply, rest: seq<Reply>)
    ensures Ids([reply] + rest) == [reply.id] + Ids(rest)
  {
    assert ([reply] + rest)[1..] == rest;
  }

  /**
   Over every frame sequence and from every phase: one reply for each frame that is not
   silent, in order, each under the request's id when that is valid, and no other reply.
   */
  lemma {:induction false} RepliesAreExact(server: Server, phase: Phase, frames: seq<Frame>)
    ensures Ids(Output(server, Run(server, phase, frames))) == DueIds(server, frames)
    decreases |frames|
  {
    hide ServeTurn, Written, IdOf, IsSilent;
    if frames != [] {
      var turn := ServeTurn(server, phase, frames[0]);
      var events := Run(server, phase, frames);
      TurnReply(server, phase, frames[0]);
      RepliesAreExact(server, turn.phase, frames[1..]);
      assert events[1..] == Run(server, turn.phase, frames[1..]);
      var rest := Output(server, events[1..]);
      if turn.reply.Some? {
        WrittenKeepsId(server, turn.reply.value, frames[0]);
        IdsCons(Written(server, turn.reply.value), rest);
      } else {
        assert Output(server, events) == rest;
      }
    }
  }

  // ----- phases, handshake and handlers -----

  function Rank(phase: Phase): nat {
    match phase
    case New => 0
    case Initializing => 1
    case Ready => 2
  }

  /** A frame with the initialize request in it, with parameters that satisfy the protocol's schema. */
  ghost predicate IsInitialize(server: Server, frame: Frame) {
    var j := RequestOf(server, frame);
    && j.Some? && j.value.Obj? && ErrorId(j.value).Some?
    && Get(j.value.members, METHOD) == Some(Str(Ascii("initialize")))
    && Satisfies(server.matches, Params(j.value.members), server.initializeSchema)
  }

  ghost predicate IsInitialized(server: Server, frame: Frame) {
    var j := RequestOf(server, frame);
    && j.Some? && IsNotification(j.value)
    && Get(j.value.members, METHOD) == Some(Str(INITIALIZED))
  }

  /** A handler may run: the tool exists and the arguments satisfy its schema. */
  ghost predicate MayRun(server: Server, call: Call) {
    call.tool in server.tools && Satisfies(server.matches, call.arguments, server.tools[call.tool])
  }

  lemma ToolStep(server: Server, phase: Phase, id: Json, params: seq<Member>)
    ensures var turn := DispatchTool(server, phase, id, params);
      && turn.phase == phase && turn.reply.Some? && turn.reply.value.body != InitializeResult
      && (turn.call.Some? ==> MayRun(server, turn.call.value))
  {
    hide JsonSchemaError, Satisfies, Get;
    var arguments := match Get(params, ARGUMENTS) case Some(a) => a case None => Obj([]);
    var name := Get(params, NAME);
    if name.Some? && name.value.Str? && name.value.s in server.tools {
      SchemaErrorIsExact(server.matches, arguments, server.tools[name.value.s], []);
    }
  }

  /** What one answered request may do to the session. */
  lemma RequestStep(server: Server, phase: Phase, id: Json, request: seq<Member>, methodName: Text)
    ensures var turn := DispatchRequest(server, phase, id, request, methodName);
      && turn.reply.Some?
      && (turn.reply.value.body == InitializeResult <==> phase == New && turn.phase == Initializing)
      && (turn.phase != phase ==>
        && phase == New && turn.phase == Initializing && methodName == Ascii("initialize")
        && Satisfies(server.matches, Params(request), server.initializeSchema))
      && (turn.call.Some? ==> phase == Ready && turn.phase == Ready && MayRun(server, turn.call.value))
  {
    hide JsonSchemaError, Satisfies, Get, DispatchTool, MayRun, RequestMetadataOk, Ascii;
    SchemaErrorIsExact(server.matches, Params(request), server.initializeSchema, []);
    if Params(request).Obj? {
      ToolStep(server, phase, id, Params(request).members);
    }
  }

  lemma DispatchStep(server: Server, phase: Phase, request: seq<Member>)
    ensures var turn, j := Dispatched(server, phase, request), Obj(request);
      && (turn.reply.Some? && turn.reply.value.body == InitializeResult <==>
        phase == New && turn.phase == Initializing)
      && (phase == New && turn.phase == Initializing ==>
        && ErrorId(j).Some? && Get(request, METHOD) == Some(Str(Ascii("initialize")))
        && Satisfies(server.matches, Params(request), server.initializeSchema))
      && (phase == Initializing && turn.phase == Ready ==>
        IsNotification(j) && Get(request, METHOD) == Some(Str(INITIALIZED)))
      && (turn.phase == phase || Rank(turn.phase) == Rank(phase) + 1)
      && (turn.call.Some? ==> phase == Ready && turn.phase == Ready && MayRun(server, turn.call.value))
  {
    hide JsonSchemaError, Satisfies, Get, DispatchRequest, MayRun, NotificationMetadataOk, Ascii, IsValidId;
    var id := Get(request, ID);
    var methodName := Get(request, METHOD);
    if id.Some? && methodName.Some? && methodName.value.Str? {
      RequestStep(server, phase, id.value, request, methodName.value.s);
    }
  }

  /** What one frame may do to the session: the two handshake steps, a permitted handler call, or nothing. */
  lemma TurnStep(server: Server, phase: Phase, frame: Frame)
    ensures var turn := ServeTurn(server, phase, frame);
      && (turn.reply.Some? && turn.reply.value.body == InitializeResult <==>
        phase == New && turn.phase == Initializing)
      && (phase == New && turn.phase == Initializing ==> IsInitialize(server, frame))
      && (phase == Initializing && turn.phase == Ready ==> IsInitialized(server, frame))
      && (turn.phase == phase || Rank(turn.phase) == Rank(phase) + 1)
      && (turn.call.Some? ==> phase == Ready && turn.phase == Ready && MayRun(server, turn.call.value))
  {
    hide Dispatched, Depth, IsNotification, ErrorId, Strip, Satisfies, MayRun, Get, Ascii;
    if frame.Line? {
      var request := RequestOf(server, frame);
      if request.Some? && request.value.Obj? {
        DispatchStep(server, phase, request.value.members);
      }
    }
  }

  lemma RunAt(server: Server, phase: Phase, frames: seq<Frame>, k: nat)
    requires k < |frames|
    ensures var events := Run(server, phase, frames);
      events[k].frame == frames[k] && events[k].turn == ServeTurn(server, events[k].before, frames[k])
    ensures var events := Run(server, phase, frames);
      events[0].before == phase &&
      (k + 1 < |frames| ==> events[k + 1].before == events[k].turn.phase)
    decreases |frames|
  {
    hide ServeTurn;
    if k > 0 {
      RunAt(server, ServeTurn(server, phase, frames[0]).phase, frames[1..], k - 1);
    }
  }

  /** The phase never goes back: new, initializing, ready, in single steps. */
  lemma {:induction false} PhaseOnlyAdvances(server: Server, phase: Phase, frames: seq<Frame>, i: nat, j: nat)
    requires i <= j < |frames|
    ensures var events := Run(server, phase, frames);
      && Rank(events[i].before) <= Rank(events[j].before) <= Rank(events[j].turn.phase)
      && (i < j ==> Rank(events[i].turn.phase) <= Rank(events[j].before))
      && Rank(events[j].turn.phase) <= Rank(events[j].before) + 1
    decreases j
  {
    hide ServeTurn, Run;
    var events := Run(server, phase, frames);
    RunAt(server, phase, frames, j);
    TurnStep(server, events[j].before, frames[j]);
    if i < j {
      PhaseOnlyAdvances(server, phase, frames, i, j - 1);
      RunAt(server, phase, frames, j - 1);
    }
  }

  /** At most one initialize request of a connection succeeds. */
  lemma OneInitialize(server: Server, frames: seq<Frame>, i: nat, j: nat)
    requires i < j < |frames|
    ensures var events := Run(server, New, frames);
      !(events[i].turn.reply.Some? && events[i].turn.reply.value.body == InitializeResult
        && events[j].turn.reply.Some? && events[j].turn.reply.value.body == InitializeResult)
  {
    hide ServeTurn, Run;
    var events := Run(server, New, frames);
    RunAt(server, New, frames, i);
    RunAt(server, New, frames, j);
    TurnStep(server, events[i].before, frames[i]);
    TurnStep(server, events[j].before, frames[j]);
    PhaseOnlyAdvances(server, New, frames, i, j);
  }

  /** Where a phase past the starting one was entered. */
  lemma {:induction false} Entered(server: Server, frames: seq<Frame>, k: nat, phase: Phase) returns (i: nat)
    requires k < |frames| && phase != New
    requires Rank(Run(server, New, frames)[k].before) >= Rank(phase)
    ensures i < k && Run(server, New, frames)[i].turn.phase == phase
    ensures Rank(Run(server, New, frames)[i].before) + 1 == Rank(phase)
    decreases k
  {
    hide ServeTurn, Run;
    var events := Run(server, New, frames);
    RunAt(server, New, frames, k);
    assert k > 0;
    RunAt(server, New, frames, k - 1);
    TurnStep(server, events[k - 1].before, frames[k - 1]);
    if Rank(events[k - 1].before) < Rank(phase) {
      i := k - 1;
    } else {
      i := Entered(server, frames, k - 1, phase);
    }
  }

  /** An initialize request succeeded at `i` and the client confirmed at `j`, in that order, before `k`. */
  ghost predicate IsHandshake(server: Server, frames: seq<Frame>, i: nat, j: nat, k: nat)
    requires k <= |frames|
  {
    && i < j < k
    && var events := Run(server, New, frames);
    && IsInitialize(server, frames[i])
    && events[i].turn.reply == Some(Reply(IdOf(server, frames[i]), InitializeResult))
    && IsInitialized(server, frames[j]) && events[j].before == Initializing && events[j].turn.phase == Ready
  }

  /**
   Every handler call of a connection comes after a successful initialize request and a later
   initialized notification, names a known tool, and has arguments that satisfy its schema.
   */
  lemma HandlersRunAfterHandshake(server: Server, frames: seq<Frame>, k: nat)
    requires k < |frames| && Run(server, New, frames)[k].turn.call.Some?
    ensures var events := Run(server, New, frames);
      && MayRun(server, events[k].turn.call.value)
      && exists i: nat, j: nat :: IsHandshake(server, frames, i, j, k)
  {
    hide ServeTurn, Run, IsInitialize, IsInitialized, MayRun, IdOf;
    var events := Run(server, New, frames);
    RunAt(server, New, frames, k);
    TurnStep(server, events[k].before, frames[k]);
    var j := Entered(server, frames, k, Ready);
    RunAt(server, New, frames, j);
    TurnStep(server, events[j].before, frames[j]);
    var i := Entered(server, frames, j, Initializing);
    RunAt(server, New, frames, i);
    TurnStep(server, events[i].before, frames[i]);
    TurnReply(server, events[i].before, frames[i]);
    assert IsHandshake(server, frames, i, j, k);
  }

  ghost predicate IsCallAt(events: seq<Event>, k: nat, call: Call) {
    k < |events| && events[k].turn.call == Some(call)
  }

  lemma {:induction false} CallsAreOfTurns(events: seq<Event>, call: Call)
    requires call in Calls(events)
    ensures exists k: nat :: IsCallAt(events, k, call)
  {
    if events[0].turn.call == Some(call) {
      assert IsCallAt(events, 0, call);
    } else {
      CallsAreOfTurns(events[1..], call);
      var k: nat :| IsCallAt(events[1..], k, call);
      assert IsCallAt(events, k + 1, call);
    }
  }

  /** So every handler the serving loop runs is one that may run, at a frame behind a handshake. */
  lemma ServedCallsAreEarned(server: Server, frames: seq<Frame>, call: Call)
    requires call in Calls(Run(server, New, frames))
    ensures MayRun(server, call)
    ensures exists i: nat, j: nat, k: nat ::
      IsCallAt(Run(server, New, frames), k, call) && IsHandshake(server, frames, i, j, k)
  {
    hide Run, MayRun, IsHandshake;
    CallsAreOfTurns(Run(server, New, frames), call);
    var k: nat :| IsCallAt(Run(server, New, frames), k, call);
    HandlersRunAfterHandshake(server, frames, k);
  }
}
