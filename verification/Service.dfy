/** The server's end of a connection (lib/service.c). */
module Services {
  import opened Errors
  import opened Text
  import opened Json
  import opened JsonRoundTrip
  import opened Containers
  import opened Message
  import opened Descriptors
  import opened Streams
  import opened Framing
  import opened Filling
  import opened Directories
  import Protocol
  import Utf8

  // ---------------------------------------------------------------- the user of the library

  /** How a method handler answers a call. */
  datatype Answer =
    | DoReply(parameters: Option<Parameters>, flags: nat)
    | DoError(error: CString, parameters: Option<Parameters>)

  /** What a method handler does with a call, and what it returns when it knows how its answers went. */
  datatype Plan = Plan(answers: seq<Answer>, result: seq<Outcome> -> Outcome)

  function Intended(answer: Answer): Response {
    match answer
    case DoReply(parameters, flags) => Output(parameters, flags)
    case DoError(error, parameters) => Failure(error, parameters)
  }

  /** The checks of an error's name; replies have none. */
  function Checked(d: Directory, name: string, answer: Answer): Outcome {
    if answer.DoError? then ErrorCheck(d, answer.error, name) else Success
  }

  // ---------------------------------------------------------------- what a server has done

  /** A request became the current call; or the current call was to be answered, with that outcome of the checks and
      when so many bytes were unsent. */
  datatype Note = TookUp(request: Message.Call) | Tried(answer: Answer, checked: Outcome, unsent: nat)

  /** A response that was written, and the request it answers. */
  datatype Answering = Answering(to: nat, response: Response)

  /** Requests are known by the order in which they were taken up; the last one is the current call. */
  datatype Ledger = Ledger(requests: seq<Message.Call>, busy: bool, answers: seq<Answering>)

  ghost predicate Sound(l: Ledger) {
    && (l.busy ==> l.requests != [])
    && (forall i :: 0 <= i < |l.answers| ==> l.answers[i].to < |l.requests|)
  }

  type Server = l: Ledger | Sound(l) ghost witness Ledger([], false, [])

  ghost const NEW_SERVER: Server := Ledger([], false, [])

  /** Whether more responses to the same call follow. */
  predicate Continued(a: Response) {
    Continues(FlagsOf(a))
  }

  /** What an attempt to answer the current call comes to. */
  ghost function OutcomeOf(s: Server, n: Note): Outcome
    requires n.Tried?
  {
    var a := Intended(n.answer);
    if !s.busy then InvalidCall
    else
      var oneway := OneWay(s.requests[|s.requests|-1].flags);
      if a.Output? && oneway then (if Continued(a) then InvalidCall else Success)
      else if !n.checked.Success? then n.checked
      else Room(n.unsent, |ResponseText(a)|)
  }

  ghost function AfterNote(s: Server, n: Note): Server {
    match n
    case TookUp(q) => if s.busy then s else s.(requests := s.requests + [q], busy := true)
    case Tried(answer, _, _) =>
      if !OutcomeOf(s, n).Success? then s
      else
        var last, a := |s.requests| - 1, Intended(answer);
        if a.Output? && OneWay(s.requests[last].flags) then s.(busy := false)
        else s.(answers := s.answers + [Answering(last, a)], busy := Continued(a))
  }

  /** When the current call is answered: a reply to a one-way call if it is to be the last, and everything else if its
      checks succeed and it fits behind what is unsent. It stays current only if more replies are to follow. */
  lemma AnswerSucceeds(s: Server, n: Note)
    requires s.busy && n.Tried?
    ensures var oneway, text := OneWay(s.requests[|s.requests|-1].flags), ResponseText(Intended(n.answer));
      OutcomeOf(s, n).Success? <==>
        if n.answer.DoReply? && oneway then n.answer.flags % 2 == 0
        else n.checked.Success? && n.unsent + |text| + 1 < 16 * 1024 * 1024
    ensures AfterNote(s, n).busy <==>
      !OutcomeOf(s, n).Success? || (n.answer.DoReply? && n.answer.flags % 2 == 1)
    ensures OutcomeOf(s, n).Success? && (n.answer.DoReply? ==> !OneWay(s.requests[|s.requests|-1].flags)) ==>
      AfterNote(s, n).answers == s.answers + [Answering(|s.requests| - 1, Intended(n.answer))]
  {
    hide OneWay, ResponseText;
  }

  ghost function Replay(history: seq<Note>): Server {
    if history == [] then NEW_SERVER
    else AfterNote(Replay(history[..|history|-1]), history[|history|-1])
  }

  lemma ReplayMore(history: seq<Note>, n: Note)
    ensures Replay(history + [n]) == AfterNote(Replay(history), n)
  {
    hide AfterNote;
    assert (history + [n])[..|history|] == history;
  }

  /** The texts of the responses that were written. */
  ghost function ReplyTexts(answers: seq<Answering>): seq<string> {
    seq(|answers|, i requires 0 <= i < |answers| => ResponseText(answers[i].response))
  }

  lemma ReplyTextsMore(answers: seq<Answering>, a: Answering)
    ensures ReplyTexts(answers + [a]) == ReplyTexts(answers) + [ResponseText(a.response)]
  {
    hide ResponseText;
  }

  /** The requests in messages; what is none is skipped. */
  ghost function Understood(frames: seq<string>): seq<Message.Call> {
    if frames == [] then []
    else
      var q := RequestIn(frames[|frames|-1]);
      Understood(frames[..|frames|-1]) + if q.Some? then [q.value] else []
  }

  // ---------------------------------------------------------------- the protocol

  function ProtocolCall(id: nat, flags: nat): Protocol.Call {
    Protocol.Call(id, More(flags), OneWay(flags))
  }

  /** The server's part of the protocol's state; calls are numbered by the server. */
  ghost function View(s: Server): Protocol.State {
    var calls := seq(|s.requests|, i requires 0 <= i < |s.requests| => ProtocolCall(i, s.requests[i].flags));
    var replies := seq(|s.answers|, i requires 0 <= i < |s.answers| =>
                     Protocol.Reply(calls[s.answers[i].to], Continued(s.answers[i].response)));
    Protocol.State(0, [], [], if s.busy then Some(calls[|calls|-1]) else None, replies, calls, replies, [], false)
  }

  /** The step that answers a call. */
  function Answers(call: Protocol.Call, a: Response, accepted: bool): Protocol.Step {
    if a.Output? then Protocol.ServerReply(call, Continued(a), accepted) else Protocol.ServerError(call, accepted)
  }

  /** Taking up a request is the protocol's dispatch of it, and an attempt to answer its reply or error. */
  lemma NotesAreSteps(s: Server, n: Note)
    ensures n.TookUp? && !s.busy ==>
      View(AfterNote(s, n)) ==
        Protocol.After(View(s).(requests := [ProtocolCall(|s.requests|, n.request.flags)]), Protocol.Dispatch)
    ensures n.Tried? && s.busy ==>
      View(AfterNote(s, n)) ==
        Protocol.After(View(s), Answers(View(s).current.value, Intended(n.answer), OutcomeOf(s, n).Success?))
  {
    hide More, OneWay, ResponseText, Room;
    var t := AfterNote(s, n);
    if n.TookUp? && !s.busy {
      var call := ProtocolCall(|s.requests|, n.request.flags);
      assert View(t).started == View(s).started + [call] && [call][1..] == [];
      assert View(t).answered == View(s).answered;
    } else if n.Tried? && !OutcomeOf(s, n).Success? {
      assert t == s;
    } else if n.Tried? {
      var call, a := View(s).current.value, Intended(n.answer);
      assert call == ProtocolCall(|s.requests| - 1, s.requests[|s.requests|-1].flags);
      assert View(t).started == View(s).started;
      assert View(t).answered ==
        View(s).answered + if |t.answers| == |s.answers| then [] else [Protocol.Reply(call, Continued(a))];
    }
  }

  lemma NothingTakenUp()
    ensures View(NEW_SERVER) == Protocol.INITIAL
  {
  }

  lemma NoteKeeps(s: Server, n: Note)
    requires Protocol.ServerInv(View(s))
    ensures Protocol.ServerInv(View(AfterNote(s, n)))
  {
    hide Protocol.Conversation, Protocol.After, Answers, ResponseText, Room;
    NotesAreSteps(s, n);
    if n.TookUp? && !s.busy {
      Protocol.ServerStep(View(s).(requests := [ProtocolCall(|s.requests|, n.request.flags)]), Protocol.Dispatch);
    } else if n.Tried? && s.busy {
      Protocol.ServerStep(View(s), Answers(View(s).current.value, Intended(n.answer), OutcomeOf(s, n).Success?));
    }
  }

  /** Whatever a server does, it is done with a call before it takes up the next one, and gives to each call
      its answers. */
  lemma {:induction false} ServerConverses(history: seq<Note>)
    ensures Protocol.ServerInv(View(Replay(history)))
  {
    hide View, AfterNote, Protocol.ServerInv;
    if history == [] {
      NothingTakenUp();
      Protocol.InitialInv();
    } else {
      ServerConverses(history[..|history|-1]);
      NoteKeeps(Replay(history[..|history|-1]), history[|history|-1]);
    }
  }

  // ---------------------------------------------------------------- what handlers do

  /** All answers of a handler to the last request were tried, in their order, until the call was finished; `outcomes`
      is what the handler saw. */
  ghost predicate Serves(d: Directory, s: Server, answers: seq<Answer>, notes: seq<Note>, outcomes: seq<Outcome>)
    decreases answers
  {
    if answers == [] then notes == [] && outcomes == []
    else if !s.busy then
      outcomes != [] && outcomes[0].InvalidCall? && Serves(d, s, answers[1..], notes, outcomes[1..])
    else
      && notes != [] && notes[0].Tried? && notes[0].answer == answers[0]
      && notes[0].checked == Checked(d, s.requests[|s.requests|-1].name, answers[0])
      && outcomes != [] && outcomes[0] == OutcomeOf(s, notes[0])
      && Serves(d, AfterNote(s, notes[0]), answers[1..], notes[1..], outcomes[1..])
  }

  /** A request was taken up and its handler has acted; `ok` tells whether the handler was content. */
  ghost predicate Handles(d: Directory, s: Server, handler: Message.Call -> Plan, notes: seq<Note>, ok: bool) {
    && !s.busy && notes != [] && notes[0].TookUp?
    && exists outcomes ::
         && Serves(d, AfterNote(s, notes[0]), handler(notes[0].request).answers, notes[1..], outcomes)
         && ok == handler(notes[0].request).result(outcomes).Success?
  }

  /** Requests were taken up and handled, one after the other, and only the last one's handler may have failed. */
  ghost predicate Handled(d: Directory, history: seq<Note>, handler: Message.Call -> Plan, notes: seq<Note>, ok: bool)
    decreases |notes|
  {
    if notes == [] then ok
    else exists k | 0 <= k < |notes| ::
      && Handled(d, history, handler, notes[..k], true)
      && Handles(d, Replay(history + notes[..k]), handler, notes[k..], ok)
  }

  lemma HandledNone(d: Directory, history: seq<Note>, handler: Message.Call -> Plan)
    ensures Handled(d, history, handler, [], true)
  {
  }

  lemma HandledMore(d: Directory, history: seq<Note>, handler: Message.Call -> Plan, notes: seq<Note>, more: seq<Note>,
      ok: bool)
    requires Handled(d, history, handler, notes, true) && Handles(d, Replay(history + notes), handler, more, ok)
    ensures Handled(d, history, handler, notes + more, ok)
  {
    hide Replay, Serves;
    assert more != [];
    assert (notes + more)[..|notes|] == notes && (notes + more)[|notes|..] == more;
  }

  // ---------------------------------------------------------------- calls and connections

  /** A call being worked on. */
  class ServiceCall {
    const connection: ServiceConnection
    const request: Message.Call

    constructor (connection: ServiceConnection, request: Message.Call)
      ensures this.connection == connection && this.request == request
    {
      this.connection, this.request := connection, request;
    }
  }

  class ServiceConnection {
    const stream: Stream
    const directory: Directory
    var eventsMask: set<Event>
    var currentEventsMask: set<Event>
    var call: ServiceCall?
    var closed: bool
    ghost var history: seq<Note>

    ghost function Repr(): set<object> {
      {this, stream, stream.fd, stream.input, stream.output}
    }

    ghost function Now(): Server
      reads this
    {
      Replay(history)
    }

    /** The call that is worked on is the last request; what was accepted are the texts of the responses and those
        not noted yet; the requests are those in the first `n` messages. */
    ghost predicate Agrees(n: nat, unnoted: seq<string>)
      reads this, stream, stream.fd, stream.input, stream.output
    {
      var s := Now();
      && stream.Valid()
      && s.busy == (call != null)
      && (call != null ==> call.connection == this && call.request == s.requests[|s.requests|-1])
      && stream.accepted == ReplyTexts(s.answers) + unnoted
      && n <= |stream.frames| && s.requests == Understood(stream.frames[..n])
    }

    ghost predicate Valid()
      reads this, stream, stream.fd, stream.input, stream.output
    {
      Agrees(|stream.frames|, [])
    }

    constructor (fd: Descriptor, directory: Directory)
      requires fd.delivered == "" && fd.taken == "" && Utf8.AllBytes(Arriving(fd.incoming))
      ensures Valid() && fresh(Repr() - {fd}) && stream.fd == fd && this.directory == directory
      ensures history == [] && call == null
      ensures currentEventsMask == {EPOLLIN} && !closed
    {
      hide Stream.Valid, Utf8.AllBytes, Arriving, ReplyTexts, Understood;
      stream := new Stream(fd);
      this.directory := directory;
      eventsMask, currentEventsMask, call, closed, history := {}, {EPOLLIN}, null, false, [];
      new;
      NothingNoted();
    }

    method SetEventsMask(mask: set<Event>)
      modifies this`currentEventsMask
      ensures currentEventsMask == mask
    {
      if mask != currentEventsMask {
        currentEventsMask := mask;
      }
    }

    method Close()
      requires Valid()
      modifies this`closed
      ensures Valid() && closed
    {
      hide Stream.Valid, ReplyTexts, Understood, Replay;
      closed := true;
    }
  }

  lemma NothingNoted()
    ensures ReplyTexts([]) == [] && Understood([]) == [] && Replay([]) == NEW_SERVER
  {
  }

  ghost predicate InRange(s: Stream)
    reads s
  {
    s.outStart <= s.outEnd <= s.output.Length
  }

  /** Whether to wait for input is as before. When nothing was written, so is all else; when something was, unsent
      output is waited for. */
  twostate predicate KeepsMask(c: ServiceConnection)
    reads c, c.stream, c.stream.output
  {
    && InRange(c.stream) && old(InRange(c.stream))
    && (EPOLLIN in c.eventsMask <==> EPOLLIN in old(c.eventsMask))
    && old(c.eventsMask) <= c.eventsMask && old(c.stream.accepted) <= c.stream.accepted
    && (if c.stream.accepted == old(c.stream.accepted)
        then c.eventsMask == old(c.eventsMask) && c.stream.Unsent() == old(c.stream.Unsent())
        else c.stream.Unsent() != "" ==> EPOLLOUT in c.eventsMask)
  }

  /** Writes a packed reply. */
  method WriteReply(c: ServiceConnection, a: Response) returns (r: Outcome, whole: bool)
    requires c.stream.Valid()
    modifies c.stream, c.stream.fd, c.stream.output
    ensures c.stream.Valid() && SameInput(c.stream)
    ensures r == Room(|old(c.stream.Unsent())|, |ResponseText(a)|)
    ensures c.stream.accepted == if r.Success? then old(c.stream.accepted) + [ResponseText(a)]
      else old(c.stream.accepted)
    ensures if r.Success? then whole == (c.stream.Unsent() == "") else c.stream.Unsent() == old(c.stream.Unsent())
  {
    hide PackedReply, PrintObject, VarlinkObject.Valid, Stream.Valid, WellFormedField, ErrorOf, FlagsOf, Empty,
      Room;
    Buffers(c.stream);
    var reply := PackReply(ErrorOf(a), a.parameters, FlagsOf(a));
    ReplyWellFormed(ErrorOf(a), a.parameters, FlagsOf(a));
    r, whole := c.stream.Write(reply);
  }

  /** An attempt to answer the current call that came to nothing. */
  method NoteRefused(c: ServiceConnection, ghost n: Note)
    requires c.Valid() && n.Tried? && !OutcomeOf(c.Now(), n).Success?
    modifies c`history
    ensures c.Valid() && c.history == old(c.history) + [n]
  {
    hide Stream.Valid, ResponseText, Understood, ReplyTexts, Replay, OutcomeOf;
    ReplayMore(c.history, n);
    c.history := c.history + [n];
  }

  /** The current call has been answered by what was written last. */
  method Finish(c: ServiceConnection, a: Response, ghost n: Note)
    requires c.call != null && c.Agrees(|c.stream.frames|, [ResponseText(a)])
    requires n.Tried? && Intended(n.answer) == a && OutcomeOf(c.Now(), n).Success?
    requires OneWay(c.call.request.flags) ==> a.Failure?
    modifies c`history, c`call
    ensures c.Valid() && c.history == old(c.history) + [n] && (c.call == old(c.call) || c.call == null)
  {
    hide Stream.Valid, ResponseText, Understood, ReplyTexts, Replay, OutcomeOf;
    ReplayMore(c.history, n);
    ghost var s := c.Now();
    ReplyTextsMore(s.answers, Answering(|s.requests|-1, a));
    c.history := c.history + [n];
    if !Continued(a) {
      c.call := null;
    }
  }

  /** A call that takes no reply is done without one. */
  method Drop(c: ServiceConnection, ghost n: Note)
    requires c.Valid() && c.call != null && OneWay(c.call.request.flags)
    requires n.Tried? && Intended(n.answer).Output? && OutcomeOf(c.Now(), n).Success?
    modifies c`history, c`call
    ensures c.Valid() && c.history == old(c.history) + [n] && c.call == null
  {
    hide Stream.Valid, ResponseText, Understood, ReplyTexts, Replay, OutcomeOf;
    ReplayMore(c.history, n);
    c.history := c.history + [n];
    c.call := null;
  }

  /** What becomes of an attempt to answer a call that is current. */
  lemma CurrentOutcome(s: Server, flags: nat, n: Note)
    requires s.busy && n.Tried? && flags == s.requests[|s.requests|-1].flags
    ensures var a := Intended(n.answer);
      OutcomeOf(s, n) == if a.Output? && OneWay(flags) then (if Continued(a) then InvalidCall else Success)
        else if !n.checked.Success? then n.checked else Room(n.unsent, |ResponseText(a)|)
  {
    hide ResponseText, Room;
  }

  /** Replies to a call. Only the current call of the connection may be replied to; for a call that takes no
      reply nothing is written. Output that is left is waited for at once. */
  method Reply(call: ServiceCall, parameters: Option<Parameters>, flags: nat) returns (r: Outcome)
    requires call.connection.Valid() && !call.connection.closed
    modifies call.connection.Repr()
    ensures var c := call.connection;
      && c.Valid() && SameInput(c.stream) && c.closed == old(c.closed) && KeepsMask(c)
      && (old(c.call) != call ==> r.InvalidCall? && c.history == old(c.history) && c.call == old(c.call))
      && (old(c.call) == call ==>
        var n := Tried(DoReply(parameters, flags), Success, |old(c.stream.Unsent())|);
        && r == OutcomeOf(old(c.Now()), n) && c.history == old(c.history) + [n] && (c.call == call || c.call == null))
      && c.currentEventsMask ==
           if r.Success? && !OneWay(call.request.flags) && c.stream.Unsent() != ""
           then old(c.eventsMask) + {EPOLLOUT} else old(c.currentEventsMask)
  {
    hide Stream.Valid, ResponseText, Understood, ReplyTexts, Replay, Room, OutcomeOf;
    var c := call.connection;
    Buffers(c.stream);
    if c.call != call {
      return InvalidCall;
    }
    var a := Output(parameters, flags);
    ghost var n := Tried(DoReply(parameters, flags), Success, |c.stream.Unsent()|);
    CurrentOutcome(c.Now(), call.request.flags, n);
    if OneWay(call.request.flags) && Continues(flags) {
      NoteRefused(c, n);
      return InvalidCall;
    }
    if OneWay(call.request.flags) {
      Drop(c, n);
      return Success;
    }
    var whole;
    r, whole := WriteReply(c, a);
    Buffers(c.stream);
    if !r.Success? {
      NoteRefused(c, n);
      return;
    }
    if !whole {
      c.eventsMask := c.eventsMask + {EPOLLOUT};
      c.SetEventsMask(c.eventsMask);
    }
    Finish(c, a, n);
  }

  /** Replies to a call with an error, also if it takes no reply. Output that is left is noted in the mask, which
      is not put into effect here. */
  method ReplyError(call: ServiceCall, error: CString, parameters: Option<Parameters>) returns (r: Outcome)
    requires call.connection.Valid() && !call.connection.closed
    modifies call.connection.Repr()
    ensures var c := call.connection;
      && c.Valid() && SameInput(c.stream) && c.closed == old(c.closed) && KeepsMask(c)
      && (old(c.call) != call ==> r.InvalidCall? && c.history == old(c.history) && c.call == old(c.call))
      && (old(c.call) == call ==>
        var checked := ErrorCheck(c.directory, error, call.request.name);
        var n := Tried(DoError(error, parameters), checked, |old(c.stream.Unsent())|);
        && r == OutcomeOf(old(c.Now()), n) && c.history == old(c.history) + [n] && (c.call == call || c.call == null))
      && c.currentEventsMask == old(c.currentEventsMask)
  {
    hide Stream.Valid, ResponseText, Understood, ReplyTexts, Replay, Room, ErrorCheck;
    var c := call.connection;
    Buffers(c.stream);
    if c.call != call {
      return InvalidCall;
    }
    var checked := ErrorCheck(c.directory, error, call.request.name);
    ghost var n := Tried(DoError(error, parameters), checked, |c.stream.Unsent()|);
    if !checked.Success? {
      NoteRefused(c, n);
      return checked;
    }
    var a := Failure(error, parameters);
    var whole;
    r, whole := WriteReply(c, a);
    Buffers(c.stream);
    if !r.Success? {
      NoteRefused(c, n);
      return;
    }
    if !whole {
      c.eventsMask := c.eventsMask + {EPOLLOUT};
    }
    Finish(c, a, n);
  }

  // ---------------------------------------------------------------- incoming messages

  lemma UnderstoodMore(frames: seq<string>, frame: string)
    ensures Understood(frames + [frame]) == Understood(frames) + if RequestIn(frame).Some?
      then [RequestIn(frame).value] else []
  {
    assert (frames + [frame])[..|frames|] == frames;
  }

  /** Makes the call in a message the current one. */
  method TakeUp(c: ServiceConnection, message: VarlinkObject) returns (r: Outcome)
    requires c.stream.frames != [] && c.Agrees(|c.stream.frames|-1, []) && c.call == null && message.Valid()
    requires Parse(c.stream.frames[|c.stream.frames|-1]) == Some(message.Fields())
    modifies c`call, c`history
    ensures c.Valid()
    ensures var q := RequestIn(c.stream.frames[|c.stream.frames|-1]);
      if q.Some? then
        && r.Success? && c.call != null && c.call.connection == c && c.call.request == q.value
        && c.history == old(c.history) + [TookUp(q.value)]
      else r.InvalidMessage? && c.call == null && c.history == old(c.history)
  {
    hide UnpackedCall, VarlinkObject.Valid, Stream.Valid, Parse, Replay, Understood, ReplyTexts;
    ghost var frames := c.stream.frames;
    UnderstoodMore(frames[..|frames|-1], frames[|frames|-1]);
    assert frames[..|frames|] == frames[..|frames|-1] + [frames[|frames|-1]];
    var request;
    r, request := UnpackCall(message);
    if !r.Success? {
      return;
    }
    ReplayMore(c.history, TookUp(request));
    c.history := c.history + [TookUp(request)];
    c.call := new ServiceCall(c, request);
  }

  method AnswerOnce(call: ServiceCall, answer: Answer) returns (r: Outcome)
    requires call.connection.Valid() && !call.connection.closed
    modifies call.connection.Repr()
    ensures var c := call.connection;
      && c.Valid() && SameInput(c.stream) && c.closed == old(c.closed) && KeepsMask(c)
      && (old(c.call) != call ==> r.InvalidCall? && c.history == old(c.history) && c.call == old(c.call))
      && (old(c.call) == call ==>
        var n := Tried(answer, Checked(c.directory, call.request.name, answer), |old(c.stream.Unsent())|);
        && r == OutcomeOf(old(c.Now()), n) && c.history == old(c.history) + [n] && (c.call == call || c.call == null))
  {
    hide ServiceConnection.Valid, KeepsMask, OutcomeOf, ErrorCheck;
    match answer {
      case DoReply(parameters, flags) => r := Reply(call, parameters, flags);
      case DoError(error, parameters) => r := ReplyError(call, error, parameters);
    }
  }

  /** What a handler does with its call. */
  method Serve(call: ServiceCall, answers: seq<Answer>) returns (outcomes: seq<Outcome>)
    requires call.connection.Valid() && !call.connection.closed
    requires call.connection.call == call || call.connection.call == null
    modifies call.connection.Repr()
    ensures var c := call.connection;
      && c.Valid() && SameInput(c.stream) && c.closed == old(c.closed) && KeepsMask(c)
      && old(c.history) <= c.history
      && Serves(c.directory, old(c.Now()), answers, c.history[|old(c.history)|..], outcomes)
    decreases answers
  {
    hide Stream.Valid, ReplyTexts, Understood, Replay, OutcomeOf, ErrorCheck, AfterNote;
    ghost var c, was, s := call.connection, call.connection.history, call.connection.Now();
    Buffers(c.stream);
    assert c.history[|was|..] == [];
    if |answers| == 0 {
      return [];
    }
    var r := AnswerOnce(call, answers[0]);
    ghost var first := c.history;
    if s.busy {
      ReplayMore(was, first[|was|]);
      assert first == was + [first[|was|]];
    }
    var rest := Serve(call, answers[1..]);
    Buffers(c.stream);
    outcomes := [r] + rest;
    assert outcomes[1..] == rest;
    assert c.history[|was|..] == first[|was|..] + c.history[|first|..];
    assert s.busy ==> c.history[|was|..][1..] == c.history[|first|..];
  }

  method ReadMessage(c: ServiceConnection) returns (r: Outcome, message: VarlinkObject?)
    requires c.Valid()
    modifies c.stream`inStart, c.stream`inEnd, c.stream`hup, c.stream`frames
    modifies c.stream.fd`incoming, c.stream.fd`delivered, c.stream.input
    ensures c.Agrees(|old(c.stream.frames)|, []) && old(c.stream.frames) <= c.stream.frames
    ensures Flows(c.stream) && (message != null ==> r.Success?)
    ensures old(c.stream.Silent()) ==> r.Success? && message == null && c.stream.Silent()
    ensures message == null ==>
      c.Valid() && if r.Success? then Dried(c.stream, Interruption(old(c.stream.fd.incoming)))
                   else Unreadable(c.stream, Interruption(old(c.stream.fd.incoming)))
    ensures message != null ==>
      && message.Valid() && fresh(message.Repr()) && |c.stream.frames| == |old(c.stream.frames)| + 1
      && Parse(c.stream.frames[|old(c.stream.frames)|]) == Some(message.Fields())
      && Left(c.stream) < old(Left(c.stream))
      && Interruption(c.stream.fd.incoming) == Interruption(old(c.stream.fd.incoming))
  {
    hide VarlinkObject.Valid, Stream.Valid, Arriving, Weight, Parse, Replay, Understood, ReplyTexts, Fill, Interruption,
      StoppedBy, Framed, AllNulFree;
    Buffers(c.stream);
    InputSoFar(c.stream);
    if c.stream.Silent() {
      NothingArrives(c.stream);
    }
    ghost var frames, unread, incoming := c.stream.frames, c.stream.Unread(), c.stream.fd.incoming;
    r, message := c.stream.Read();
    AfterRead(c.stream, frames, unread, incoming, r, message != null);
    assert c.stream.frames[..|frames|] == frames == frames[..|frames|];
    Buffers(c.stream);
  }

  /** There is nothing more to read: for now, or because the other side has hung up. */
  ghost predicate Dried(s: Stream, meets: (Stop, seq<ReadEvent>))
    reads s, s.fd, s.input
  {
    StoppedBy(s, meets, Dry) || (s.hup && StoppedBy(s, meets, HungUp))
  }

  /** What is there cannot be read: it is no JSON, or does not fit the buffer, or something is wrong with the
      descriptor. */
  ghost predicate Unreadable(s: Stream, meets: (Stop, seq<ReadEvent>))
    reads s, s.fd, s.input
  {
    exists stop :: stop in {Whole, Full, Broken} && StoppedBy(s, meets, stop)
  }

  /** The message that was taken last is no request. */
  ghost predicate NoRequest(s: Stream)
    reads s
  {
    s.frames != [] && RequestIn(s.frames[|s.frames|-1]) == None
  }

  /** Why no request is read any more: there is nothing to read, or what is there cannot be read, which closes the
      connection, or is no request, which is reported. */
  ghost predicate StopsReading(c: ServiceConnection, meets: (Stop, seq<ReadEvent>), r: Outcome, verdict: Verdict)
    reads c, c.stream, c.stream.fd, c.stream.input
  {
    match verdict
    case Again => false
    case Break => r.Success? && !c.closed && Dried(c.stream, meets)
    case Return =>
      if c.closed then r.Success? && Unreadable(c.stream, meets) else r.InvalidMessage? && NoRequest(c.stream)
  }

  /** Reads one message and has its call handled; a handler that fails closes the connection, and so does what cannot be
      read. */
  method Round(c: ServiceConnection, handler: Message.Call -> Plan) returns (r: Outcome, verdict: Verdict)
    requires c.Valid() && c.call == null && !c.closed
    modifies c.Repr()
    ensures c.Valid() && KeepsMask(c) && Flows(c.stream)
    ensures old(c.history) <= c.history
    ensures if c.history != old(c.history) then
        && Handles(c.directory, old(c.Now()), handler, c.history[|old(c.history)|..], verdict.Again?)
        && r.Success? && !verdict.Break? && (c.closed <==> verdict.Return?) && Left(c.stream) < old(Left(c.stream))
        && Interruption(c.stream.fd.incoming) == Interruption(old(c.stream.fd.incoming))
      else c.call == null && StopsReading(c, Interruption(old(c.stream.fd.incoming)), r, verdict)
    ensures verdict.Break? ==> unchanged(c, c.stream`accepted, c.stream`outStart, c.stream`outEnd, c.stream.output)
    ensures old(c.stream.Silent()) ==> verdict.Break? && c.stream.Silent()
  {
    hide UnpackedCall, VarlinkObject.Valid, Stream.Valid, Arriving, ReplyTexts, Understood, Replay, Parse, RequestIn,
      Serves, AfterNote, Dried, Unreadable, Interruption, Stream.Silent;
    Buffers(c.stream);
    var message;
    r, message := ReadMessage(c);
    Buffers(c.stream);
    if !r.Success? {
      c.Close();
      return Success, Return;
    }
    if message == null {
      return r, Break;
    }
    r := TakeUp(c, message);
    if !r.Success? {
      return r, Return;
    }
    var plan := handler(c.call.request);
    ghost var noted := c.history;
    ReplayMore(old(c.history), noted[|noted|-1]);
    var outcomes := Serve(c.call, plan.answers);
    Buffers(c.stream);
    ghost var new_ := c.history[|old(c.history)|..];
    assert new_ == [noted[|noted|-1]] + c.history[|noted|..] && new_[1..] == c.history[|noted|..];
    if !plan.result(outcomes).Success? {
      c.Close();
      return Success, Return;
    }
    return r, Again;
  }

  /** What has been noted since then are requests with their handlers' answers; and no more were read because a call is
      current, a handler has failed, which closes the connection, or reading has stopped. */
  ghost predicate HandledUntil(c: ServiceConnection, was: seq<Note>, handler: Message.Call -> Plan,
      meets: (Stop, seq<ReadEvent>), r: Outcome, verdict: Verdict)
    requires was <= c.history
    reads c, c.stream, c.stream.fd, c.stream.input
  {
    var notes := c.history[|was|..];
    || (verdict.Return? && r.Success? && c.closed && Handled(c.directory, was, handler, notes, false))
    || (Handled(c.directory, was, handler, notes, true) &&
        if c.call != null then verdict.Break? && !c.closed else StopsReading(c, meets, r, verdict))
  }

  /** Reads and handles messages until a call stays current, or until there is no more or something is wrong. */
  method ReadRequests(c: ServiceConnection, handler: Message.Call -> Plan) returns (r: Outcome, verdict: Verdict)
    requires c.Valid() && !c.closed
    modifies c.Repr()
    ensures c.Valid() && KeepsMask(c) && Flows(c.stream)
    ensures old(c.history) <= c.history
    ensures HandledUntil(c, old(c.history), handler, Interruption(old(c.stream.fd.incoming)), r, verdict)
    ensures old(c.call) != null ==>
              verdict.Break? && unchanged(c, c.stream, c.stream.fd, c.stream.input, c.stream.output)
    ensures !verdict.Again? && (verdict.Break? ==> r.Success?)
    ensures c.history == old(c.history) && verdict.Break? ==>
              unchanged(c, c.stream`accepted, c.stream`outStart, c.stream`outEnd, c.stream.output)
    ensures old(c.stream.Silent()) ==> verdict.Break? && c.history == old(c.history) && c.stream.Silent()
  {
    hide Stream.Silent, Stream.Valid, Arriving, ReplyTexts, Understood, Replay, Left, Handled, Handles, Interruption,
      Dried, Unreadable;
    ghost var was, meets := c.history, Interruption(c.stream.fd.incoming);
    HandledNone(c.directory, was, handler);
    assert c.history[|was|..] == [];
    Buffers(c.stream);
    r, verdict := Success, Break;
    while c.call == null
      invariant c.Valid() && KeepsMask(c) && Flows(c.stream) && !c.closed && r.Success?
      invariant was <= c.history && Handled(c.directory, was, handler, c.history[|was|..], true)
      invariant Interruption(c.stream.fd.incoming) == meets
      invariant old(c.call) != null ==> unchanged(c, c.stream, c.stream.fd, c.stream.input, c.stream.output)
      invariant old(c.stream.Silent()) ==> c.stream.Silent() && c.history == was
      invariant c.history == was ==>
        unchanged(c, c.stream`accepted, c.stream`outStart, c.stream`outEnd, c.stream.output)
      decreases Left(c.stream)
    {
      ghost var before := c.history;
      r, verdict := Round(c, handler);
      if c.history != before {
        assert was + before[|was|..] == before;
        HandledMore(c.directory, was, handler, before[|was|..], c.history[|before|..], verdict.Again?);
        assert c.history[|was|..] == before[|was|..] + c.history[|before|..];
      }
      if !verdict.Again? {
        return;
      }
    }
    verdict := Break;
  }

  /** Sends output, and notes in the mask when some is left. */
  method FlushOutput(c: ServiceConnection) returns (r: Outcome)
    requires c.Valid()
    modifies c`eventsMask, c.stream, c.stream.fd, c.stream.output
    ensures c.Valid() && SameInput(c.stream) && c.stream.accepted == old(c.stream.accepted) && InRange(c.stream)
    ensures c.stream.Flushed(
      old(c.stream.Unsent()), old(c.stream.fd.taken), old(c.stream.fd.outgoing), old(c.stream.hup))
    ensures r == FlushOutcome(old(Empty(c.stream.Unsent(), c.stream.fd.outgoing)).met)
    ensures c.eventsMask ==
      if r.Success? && c.stream.Unsent() != "" then old(c.eventsMask) + {EPOLLOUT} else old(c.eventsMask)
  {
    hide Stream.Valid, ReplyTexts, Understood, Replay, Empty;
    Buffers(c.stream);
    var left;
    r, left := c.stream.Flush();
    Buffers(c.stream);
    if r.Success? && left > 0 {
      c.eventsMask := c.eventsMask + {EPOLLOUT};
    }
  }

  /** Closes a connection that has hung up; otherwise waits for what the mask says, and for input when idle. */
  method Settle(c: ServiceConnection, hup: bool)
    requires c.Valid()
    modifies c`closed, c`eventsMask, c`currentEventsMask
    ensures c.Valid()
    ensures if hup then c.closed else
      c.closed == old(c.closed) && c.currentEventsMask == old(c.eventsMask) + if c.call == null then {EPOLLIN} else {}
  {
    hide Stream.Valid, ReplyTexts, Understood, Replay;
    if hup {
      c.Close();
      return;
    }
    if c.call == null {
      c.eventsMask := c.eventsMask + {EPOLLIN};
    }
    c.SetEventsMask(c.eventsMask);
  }

  /** The descriptor is ready for output, and sending it fails. */
  ghost predicate FlushFails(c: ServiceConnection, ready: set<Event>)
    reads c.stream, c.stream.fd, c.stream.output
    requires InRange(c.stream)
  {
    EPOLLOUT in ready && !FlushOutcome(Empty(c.stream.Unsent(), c.stream.fd.outgoing).met).Success?
  }

  /** Handles what the descriptor of a connection is ready for. When it is ready for input, requests are handled until a
      call stays current or there is no more to read; what closes the connection is a handler that fails, input that
      cannot be read, or that the other side has hung up. Afterwards input is waited for exactly when no call is
      current; output that is left is waited for exactly when there was room for output or something was written:
      otherwise a wait for output is forgotten. */
  method DispatchConnection(c: ServiceConnection, ready: set<Event>, handler: Message.Call -> Plan) returns (r: Outcome)
    requires c.Valid() && !c.closed
    modifies c.Repr()
    ensures c.Valid() && Flows(c.stream)
    ensures old(c.history) <= c.history
    ensures if old(FlushFails(c, ready)) then
        && r == FlushOutcome(old(Empty(c.stream.Unsent(), c.stream.fd.outgoing)).met) && !c.closed
        && c.history == old(c.history) && c.call == old(c.call) && SameInput(c.stream)
      else if EPOLLIN !in ready then
        r.Success? && c.history == old(c.history) && c.call == old(c.call) && SameInput(c.stream)
          && (c.closed <==> EPOLLHUP in ready || c.stream.hup)
      else Dispatched(c, ready, old(c.history), handler, Interruption(old(c.stream.fd.incoming)), r)
    ensures old(c.call) != null ==> c.history == old(c.history) && SameInput(c.stream)
    ensures old(c.stream.accepted) <= c.stream.accepted && InRange(c.stream)
    ensures r.Success? && !c.closed ==>
      && (EPOLLIN in c.currentEventsMask <==> c.call == null) && EPOLLHUP !in ready && !c.stream.hup
      && (c.stream.Unsent() != "" ==>
            (EPOLLOUT in c.currentEventsMask <==> EPOLLOUT in ready || c.stream.accepted != old(c.stream.accepted)))
    ensures c.history == old(c.history) && EPOLLOUT !in ready && !c.closed && r.Success? ==>
      && EPOLLOUT !in c.currentEventsMask && c.stream.Unsent() == old(c.stream.Unsent())
    ensures old(c.stream.Silent()) && ready == {EPOLLIN} ==> r.Success? && !c.closed && c.history == old(c.history)
  {
    hide Stream.Valid, ReplyTexts, Understood, Arriving, Replay, Handled, Interruption, Empty, FlushOutcome, Dried,
      Unreadable, NoRequest;
    Buffers(c.stream);
    c.eventsMask := {};
    r := Success;
    if EPOLLOUT in ready {
      r := FlushOutput(c);
      if !r.Success? {
        return;
      }
    }
    if EPOLLIN in ready {
      var verdict;
      r, verdict := ReadRequests(c, handler);
      if verdict.Return? {
        return;
      }
    }
    Settle(c, EPOLLHUP in ready || c.stream.hup);
    r := Success;
  }

  /** Requests have been handled, and the connection is settled. */
  ghost predicate Dispatched(c: ServiceConnection, ready: set<Event>, was: seq<Note>, handler: Message.Call -> Plan,
      meets: (Stop, seq<ReadEvent>), r: Outcome)
    requires was <= c.history
    reads c, c.stream, c.stream.fd, c.stream.input
  {
    var notes := c.history[|was|..];
    || (c.closed && r.Success? && Handled(c.directory, was, handler, notes, false))
    || (Handled(c.directory, was, handler, notes, true) &&
        if c.call != null then r.Success? && (c.closed <==> EPOLLHUP in ready || c.stream.hup)
        else
          || (r.Success? && (c.closed <==> EPOLLHUP in ready || c.stream.hup) && Dried(c.stream, meets))
          || (r.Success? && c.closed && Unreadable(c.stream, meets))
          || (r.InvalidMessage? && !c.closed && NoRequest(c.stream)))
  }

  /** How the wait for output is forgotten: output is left, and something arrives that is no whole message yet. The
      output stays where it is, and nothing waits for room to send it. */
  method ForgetOutput(c: ServiceConnection, handler: Message.Call -> Plan)
    requires c.Valid() && !c.closed && c.stream.Silent() && c.stream.Unsent() != ""
    modifies c.Repr()
    ensures c.Valid() && !c.closed && InRange(c.stream)
    ensures c.stream.Unsent() == old(c.stream.Unsent()) && EPOLLOUT !in c.currentEventsMask
  {
    hide Stream.Valid, Stream.Silent, ReplyTexts, Understood, Replay, Dispatched, FlushFails, Interruption, Flows;
    var r := DispatchConnection(c, {EPOLLIN}, handler);
  }
}
