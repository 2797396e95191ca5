/** A client and a server at the two ends of a connection (lib/connection.c, lib/service.c, lib/stream.c): whatever
    they do and however their bytes are chopped, together they take the steps of the protocol. */
module Sessions {
  import opened Errors
  import opened Text
  import opened Message
  import opened Descriptors
  import opened Streams
  import opened Filling
  import opened EndToEnd
  import opened Protocol
  import Connections
  import Directories
  import Services
  import Utf8

  // ---------------------------------------------------------------- both sides and the protocol

  ghost predicate Within(ns: seq<nat>, made: seq<Connections.Made>) {
    forall i :: 0 <= i < |ns| ==> ns[i] < |made|
  }

  ghost function CallsOf(made: seq<Connections.Made>, ns: seq<nat>): seq<Protocol.Call>
    requires Within(ns, made)
  {
    seq(|ns|, i requires 0 <= i < |ns| => Services.ProtocolCall(ns[i], made[ns[i]].request.flags))
  }

  /** The responses as replies of the protocol; calls are numbered by the client. */
  ghost function RepliesOf(started: seq<Protocol.Call>, s: Services.Server): seq<Protocol.Reply>
    requires |started| == |s.requests|
  {
    seq(|s.answers|, i requires 0 <= i < |s.answers| =>
      Protocol.Reply(started[s.answers[i].to], Services.Continued(s.answers[i].response)))
  }

  /** The requests are the first of the calls that were accepted. */
  ghost predicate Requested(made: seq<Connections.Made>, accepted: seq<nat>, requests: seq<Message.Call>)
    requires Within(accepted, made)
  {
    && |requests| <= |accepted|
    && forall k :: 0 <= k < |requests| ==> requests[k] == CallOf(made[accepted[k]].request)
  }

  /** The messages are the first of the responses that were written. */
  ghost predicate Heard(s: Services.Server, taken: seq<string>) {
    && |taken| <= |s.answers|
    && forall i :: 0 <= i < |taken| ==> ReplyIn(taken[i]) == Some(ReplyOf(s.answers[i].response))
  }

  /** What the callbacks were given are the first responses, and the protocol's deliveries. */
  ghost predicate Delivered(p: State, c: Connections.Client, s: Services.Server) {
    && |c.taken| == |c.log| == |p.log| <= |s.answers| == |p.answered|
    && forall i :: 0 <= i < |c.log| ==>
         && p.log[i] == Delivery(Services.ProtocolCall(c.log[i].to, c.made[c.log[i].to].request.flags), p.answered[i])
         && c.log[i].reply == ReplyOf(s.answers[i].response)
  }

  ghost predicate Matches(p: State, c: Connections.Client, s: Services.Server) {
    && p.made == |c.made| && p.pending == CallsOf(c.made, c.waiting)
    && p.started + p.requests == CallsOf(c.made, c.accepted) && |p.started| == |s.requests|
    && Requested(c.made, c.accepted, s.requests)
    && p.current == (if s.busy then Some(p.started[|p.started|-1]) else None)
    && p.answered == RepliesOf(p.started, s)
    && Delivered(p, c, s) && p.replies == p.answered[|c.taken|..]
  }

  // ---------------------------------------------------------------- what the library leaves to its users

  /** No name in the parameters of a call has a quote or backslash, and there is room for the text of every call that
      is to be answered. */
  ghost predicate FairEntry(e: Connections.Entry) {
    e.Calls? ==>
      && Unforgeable(e.call.request.parameters)
      && (OneWay(e.call.request.flags) || Connections.Accepted(e.call, e.unsent))
  }

  /** No error is sent for a call that takes no reply, only calls that asked for more are continued, and no name in the
      parameters of an answer has a quote or backslash. A reply to a call that takes none is not written at all. */
  ghost predicate FairAnswer(flags: nat, a: Response) {
    if a.Output? && OneWay(flags) then true
    else Unforgeable(a.parameters) && !OneWay(flags) && (Services.Continued(a) ==> More(flags))
  }

  /** Answers that are given are fair. */
  ghost predicate FairNote(s: Services.Server, n: Services.Note) {
    n.Tried? && Services.OutcomeOf(s, n).Success? ==>
      FairAnswer(s.requests[|s.requests|-1].flags, Services.Intended(n.answer))
  }

  ghost predicate FairNotes(history: seq<Services.Note>) {
    history == [] ||
    (FairNotes(history[..|history|-1]) && FairNote(Services.Replay(history[..|history|-1]), history[|history|-1]))
  }

  ghost predicate Fair(calls: seq<Connections.Entry>, notes: seq<Services.Note>) {
    (forall i :: 0 <= i < |calls| ==> FairEntry(calls[i])) && FairNotes(notes)
  }

  // ---------------------------------------------------------------- one step of one side

  function StepOf(e: Connections.Entry): Step {
    match e
    case Calls(call, unsent) =>
      ClientCall(More(call.request.flags), OneWay(call.request.flags), Connections.Accepted(call, unsent))
    case Gets(_) => Receive
  }

  lemma ClientCalls(p: State, c: Connections.Client, s: Services.Server, call: Connections.Made, unsent: nat)
    requires Matches(p, c, s)
    ensures Matches(After(p, StepOf(Connections.Calls(call, unsent))), Connections.AfterCall(c, call, unsent), s)
  {
    hide More, OneWay, Continues, Services.Continued, Connections.Accepted, CallOf, ReplyOf;
    var d := Connections.AfterCall(c, call, unsent);
    if !Connections.Contradictory(call.request.flags) {
      var n := [|c.made|];
      assert forall i | 0 <= i < |c.made| :: d.made[i] == c.made[i];
      assert CallsOf(d.made, c.waiting) == CallsOf(c.made, c.waiting);
      assert CallsOf(d.made, c.waiting + n) == CallsOf(c.made, c.waiting) + CallsOf(d.made, n);
      assert CallsOf(d.made, c.accepted) == CallsOf(c.made, c.accepted);
      assert CallsOf(d.made, c.accepted + n) == CallsOf(c.made, c.accepted) + CallsOf(d.made, n);
      assert p.started + (p.requests + CallsOf(d.made, n)) == p.started + p.requests + CallsOf(d.made, n);
    }
  }

  /** The next message holds the protocol's next reply, and the first callback may be given it. */
  lemma NextFits(p: State, c: Connections.Client, s: Services.Server, frame: string)
    requires Matches(p, c, s) && Inv(p) && Heard(s, c.taken + [frame])
    ensures p.replies != [] && p.pending != [] && p.replies[0] == p.answered[|c.taken|] && c.waiting != []
    ensures Received(p) ==
      p.(replies := p.replies[1..], log := p.log + [Delivery(p.pending[0], p.replies[0])],
         pending := if p.replies[0].continues then p.pending else p.pending[1..])
    ensures Connections.AfterFrame(c, frame) ==
      c.(taken := c.taken + [frame], log := c.log
        + [Connections.Receipt(c.waiting[0], ReplyOf(s.answers[|c.taken|].response))],
         waiting := if p.replies[0].continues then c.waiting else c.waiting[1..])
  {
    hide OneWay, CallOf, InLine, Finished, TwoWay, Requested;
    var j, t := |c.taken|, c.taken + [frame];
    assert t[j] == frame;
    ReceivedKeeps(p);
    FlagKept(s.answers[j].response);
  }

  lemma ClientGets(p: State, c: Connections.Client, s: Services.Server, frame: string)
    requires Matches(p, c, s) && Inv(p) && Heard(s, c.taken + [frame])
    ensures Matches(Received(p), Connections.AfterFrame(c, frame), s)
  {
    hide Inv, Received, Connections.AfterFrame, Heard, ReplyOf, RepliesOf, Requested, Services.ProtocolCall;
    NextFits(p, c, s, frame);
    assert p.answered[|c.taken|..][1..] == p.answered[|c.taken| + 1..];
    assert CallsOf(c.made, c.waiting)[1..] == CallsOf(c.made, c.waiting[1..]);
  }

  lemma FlagKept(a: Response)
    ensures Continues(ReplyOf(a).flags) <==> Services.Continued(a)
  {
  }

  lemma ServerTakesUp(p: State, c: Connections.Client, s: Services.Server, q: Message.Call)
    requires Matches(p, c, s) && !s.busy && Requested(c.made, c.accepted, s.requests + [q])
    ensures Matches(Dispatched(p), c, Services.AfterNote(s, Services.TookUp(q)))
  {
    hide CallOf, ReplyOf, More, OneWay, Services.Continued;
    assert |p.started + p.requests| == |c.accepted|;
    assert p.started + p.requests == p.started + [p.requests[0]] + p.requests[1..];
    assert RepliesOf(Dispatched(p).started, Services.AfterNote(s, Services.TookUp(q))) == RepliesOf(p.started, s);
  }

  /** The protocol's current call is the server's. */
  lemma CurrentCall(p: State, c: Connections.Client, s: Services.Server)
    requires Matches(p, c, s) && s.busy
    ensures p.current.Some? && s.requests != []
    ensures var q := s.requests[|s.requests|-1];
      p.current.value.more == More(q.flags) && p.current.value.oneway == OneWay(q.flags)
  {
    hide Delivered, RepliesOf, More, OneWay;
    var k := |s.requests| - 1;
    var request := c.made[c.accepted[k]].request;
    assert (p.started + p.requests)[k] == p.started[k];
    FlagsSplit(request.flags);
  }

  lemma ServerTries(p: State, c: Connections.Client, s: Services.Server, n: Services.Note)
    requires Matches(p, c, s) && s.busy && n.Tried?
    ensures p.current.Some?
    ensures var e := Services.Answers(p.current.value, Services.Intended(n.answer), Services.OutcomeOf(s, n).Success?);
      (FairNote(s, n) ==> Allowed(p, e)) && Matches(After(p, e), c, Services.AfterNote(s, n))
  {
    hide CallOf, ReplyOf, More, OneWay, ResponseText, Room, Unforgeable, Requested;
    CurrentCall(p, c, s);
    var t, a := Services.AfterNote(s, n), Services.Intended(n.answer);
    var r := Protocol.Reply(p.current.value, Services.Continued(a));
    if |t.answers| > |s.answers| {
      assert RepliesOf(p.started, t) == RepliesOf(p.started, s) + [r];
      assert (p.answered + [r])[|c.taken|..] == p.answered[|c.taken|..] + [r];
    }
  }

  // ---------------------------------------------------------------- everything the two sides have done

  /** What both sides have done is an allowed run of the protocol. */
  ghost predicate Together(calls: seq<Connections.Entry>, notes: seq<Services.Note>) {
    exists steps :: AllAllowed(INITIAL, steps) && Matches(Run(INITIAL, steps), Connections.Replay(calls),
      Services.Replay(notes))
  }

  lemma NothingDone()
    ensures Together([], [])
  {
    hide AllAllowed, Run, CallOf, ReplyOf, Connections.After, Services.AfterNote, ReplyIn;
    NoSteps();
    assert Matches(Run(INITIAL, []), Connections.Replay([]), Services.Replay([]));
  }

  lemma NoSteps()
    ensures AllAllowed(INITIAL, []) && Run(INITIAL, []) == INITIAL
  {
  }

  /** One more step at the end of a run. */
  lemma {:induction false} RunMore(s: State, steps: seq<Step>, e: Step)
    ensures Run(s, steps + [e]) == After(Run(s, steps), e)
    ensures AllAllowed(s, steps + [e]) <==> AllAllowed(s, steps) && Allowed(Run(s, steps), e)
    decreases steps
  {
    hide After, Allowed;
    if steps == [] {
      assert steps + [e] == [e] && [e][1..] == [];
    } else {
      assert (steps + [e])[0] == steps[0] && (steps + [e])[1..] == steps[1..] + [e];
      RunMore(After(s, steps[0]), steps[1..], e);
    }
  }

  /** A step that an allowed run can end with. */
  lemma OneMore(steps: seq<Step>, e: Step, calls: seq<Connections.Entry>, notes: seq<Services.Note>)
    requires AllAllowed(INITIAL, steps) && Allowed(Run(INITIAL, steps), e)
    requires Matches(After(Run(INITIAL, steps), e), Connections.Replay(calls), Services.Replay(notes))
    ensures Together(calls, notes)
  {
    hide AllAllowed, Run, Allowed, After, Matches;
    RunMore(INITIAL, steps, e);
  }

  lemma ReachedInv(steps: seq<Step>)
    requires AllAllowed(INITIAL, steps)
    ensures Inv(Run(INITIAL, steps))
  {
    InitialInv();
    RunKeeps(INITIAL, steps);
  }

  /** The client does one thing. */
  lemma ClientMoves(calls: seq<Connections.Entry>, notes: seq<Services.Note>, e: Connections.Entry)
    requires Together(calls, notes) && FairEntry(e)
    requires Heard(Services.Replay(notes), Connections.Replay(calls + [e]).taken)
    ensures Together(calls + [e], notes)
  {
    hide AllAllowed, Run, Matches, Connections.Replay, Services.Replay, Heard, Inv, Unforgeable, Connections.AfterCall,
      Connections.Accepted;
    var steps :| AllAllowed(INITIAL, steps) && Matches(Run(INITIAL, steps), Connections.Replay(calls),
      Services.Replay(notes));
    var p, c, s := Run(INITIAL, steps), Connections.Replay(calls), Services.Replay(notes);
    ReachedInv(steps);
    Connections.ReplayMore(calls, e);
    match e {
      case Calls(call, unsent) => ClientCalls(p, c, s, call, unsent);
      case Gets(frame) => ClientGets(p, c, s, frame);
    }
    OneMore(steps, StepOf(e), calls + [e], notes);
  }

  /** The server does one thing. */
  lemma ServerMoves(calls: seq<Connections.Entry>, notes: seq<Services.Note>, n: Services.Note)
    requires Together(calls, notes) && FairNote(Services.Replay(notes), n)
    requires var c := Connections.Replay(calls); Requested(c.made, c.accepted, Services.Replay(notes + [n]).requests)
    ensures Together(calls, notes + [n])
  {
    hide AllAllowed, Run, Matches, Connections.Replay, Services.Replay, Requested, FairNote;
    var steps :| AllAllowed(INITIAL, steps) && Matches(Run(INITIAL, steps), Connections.Replay(calls),
      Services.Replay(notes));
    var p, c, s := Run(INITIAL, steps), Connections.Replay(calls), Services.Replay(notes);
    Services.ReplayMore(notes, n);
    if n.TookUp? && !s.busy {
      ServerTakesUp(p, c, s, n.request);
      OneMore(steps, Dispatch, calls, notes + [n]);
    } else if n.Tried? && s.busy {
      ServerTries(p, c, s, n);
      var e := Services.Answers(p.current.value, Services.Intended(n.answer), Services.OutcomeOf(s, n).Success?);
      OneMore(steps, e, calls, notes + [n]);
    }
  }

  lemma {:induction false} ClientHistory(calls: seq<Connections.Entry>, more: seq<Connections.Entry>,
      notes: seq<Services.Note>)
    requires Together(calls, notes) && Fair(calls + more, notes)
    requires Heard(Services.Replay(notes), Connections.Replay(calls + more).taken)
    ensures Together(calls + more, notes)
  {
    hide Together, FairEntry, FairNotes, Connections.Replay, Services.Replay, Heard;
    if more == [] {
      assert calls + more == calls;
    } else {
      var front, e := more[..|more|-1], more[|more|-1];
      assert calls + more == calls + front + [e];
      assert (calls + more)[|calls + more| - 1] == e;
      TakenGrows(calls + front, e, Services.Replay(notes));
      assert forall i :: 0 <= i < |calls + front| ==> (calls + front)[i] == (calls + more)[i];
      ClientHistory(calls, front, notes);
      ClientMoves(calls + front, notes, e);
    }
  }

  lemma TakenGrows(calls: seq<Connections.Entry>, e: Connections.Entry, s: Services.Server)
    requires Heard(s, Connections.Replay(calls + [e]).taken)
    ensures Heard(s, Connections.Replay(calls).taken)
  {
    hide ReplyIn, ReplyOf, Connections.Replay, Connections.Fitting, More, OneWay, Continues;
    Connections.ReplayMore(calls, e);
    var t, u := Connections.Replay(calls).taken, Connections.Replay(calls + [e]).taken;
    assert t <= u;
  }

  lemma {:induction false} ServerHistory(calls: seq<Connections.Entry>, notes: seq<Services.Note>,
      more: seq<Services.Note>)
    requires Together(calls, notes) && Fair(calls, notes + more)
    requires var c := Connections.Replay(calls); Requested(c.made, c.accepted, Services.Replay(notes + more).requests)
    ensures Together(calls, notes + more)
  {
    hide Together, FairEntry, FairNote, Connections.Replay, Services.Replay, Requested;
    if more == [] {
      assert notes + more == notes;
    } else {
      var front, n := more[..|more|-1], more[|more|-1];
      assert notes + more == notes + front + [n];
      assert (notes + front + [n])[..|notes + front|] == notes + front;
      RequestsGrow(calls, notes + front, n);
      ServerHistory(calls, notes, front);
      ServerMoves(calls, notes + front, n);
    }
  }

  lemma RequestsGrow(calls: seq<Connections.Entry>, notes: seq<Services.Note>, n: Services.Note)
    requires var c := Connections.Replay(calls); Requested(c.made, c.accepted, Services.Replay(notes + [n]).requests)
    ensures var c := Connections.Replay(calls); Requested(c.made, c.accepted, Services.Replay(notes).requests)
  {
    hide CallOf, Connections.Replay, Services.Replay;
    Services.ReplayMore(notes, n);
    var t, u := Services.Replay(notes).requests, Services.Replay(notes + [n]).requests;
    assert t <= u;
  }

  // ---------------------------------------------------------------- what arrives

  /** What the client has made are the calls in its history. */
  lemma {:induction false} MadeCalls(calls: seq<Connections.Entry>, n: nat)
    requires n < |Connections.Replay(calls).made|
    ensures exists i :: 0 <= i < |calls| && calls[i].Calls? && calls[i].call == Connections.Replay(calls).made[n]
  {
    hide Connections.Fitting, Connections.Accepted, Connections.Contradictory, Connections.Callbacks, OneWay, Continues;
    var front, e := calls[..|calls|-1], calls[|calls|-1];
    if n < |Connections.Replay(front).made| {
      MadeCalls(front, n);
      var i :| 0 <= i < |front| && front[i].Calls? && front[i].call == Connections.Replay(front).made[n];
      assert calls[i] == front[i];
    } else {
      assert calls[|calls|-1].Calls? && calls[|calls|-1].call == Connections.Replay(calls).made[n];
    }
  }

  lemma MadeUnforgeable(calls: seq<Connections.Entry>, n: nat)
    requires (forall i :: 0 <= i < |calls| ==> FairEntry(calls[i])) && n < |Connections.Replay(calls).made|
    ensures Unforgeable(Connections.Replay(calls).made[n].request.parameters)
  {
    hide Unforgeable, Connections.Replay;
    MadeCalls(calls, n);
  }

  lemma {:induction false} AllAnswersUnforgeable(notes: seq<Services.Note>)
    requires FairNotes(notes)
    ensures var answers := Services.Replay(notes).answers;
      forall i :: 0 <= i < |answers| ==> Unforgeable(answers[i].response.parameters)
  {
    hide Unforgeable, More, OneWay, Services.Continued, Services.AfterNote, FairNote;
    if notes != [] {
      var s := Services.Replay(notes[..|notes|-1]);
      AllAnswersUnforgeable(notes[..|notes|-1]);
      assert forall i :: 0 <= i < |s.answers| ==> Services.Replay(notes[..|notes|-1]).answers[i] == s.answers[i];
      AnswerUnforgeable(s, notes[|notes|-1]);
    }
  }

  lemma AnswerUnforgeable(s: Services.Server, n: Services.Note)
    requires FairNote(s, n) && forall i :: 0 <= i < |s.answers| ==> Unforgeable(s.answers[i].response.parameters)
    ensures var answers := Services.AfterNote(s, n).answers;
      forall i :: 0 <= i < |answers| ==> Unforgeable(answers[i].response.parameters)
  {
    hide Unforgeable, More, OneWay, Services.Continued, Services.OutcomeOf;
  }

  /** What the client has taken are the server's responses. */
  lemma ClientHears(client: Connections.Connection, server: Services.ServiceConnection)
    requires client.Valid() && server.Valid() && Connected(server.stream, client.wire) && FairNotes(server.history)
    ensures Heard(server.Now(), client.Now().taken)
  {
    hide Stream.Valid, ReplyIn, ReplyOf, Unforgeable, ResponseText, FairNotes, Connections.Replay, Services.Replay,
      Connected,
      Services.Understood, Connections.CallTexts, Connections.Callbacks;
    var s, taken := server.Now(), client.Now().taken;
    AllAnswersUnforgeable(server.history);
    assert s == Services.Replay(server.history);
    MessagesArriveInOrder(server.stream, client.wire);
    var responses := seq(|s.answers|, i requires 0 <= i < |s.answers| => s.answers[i].response);
    forall j | 0 <= j < |responses| ensures Unforgeable(responses[j].parameters) {
      assert Unforgeable(s.answers[j].response.parameters);
    }
    forall i | 0 <= i < |taken| ensures ReplyIn(taken[i]) == Some(ReplyOf(s.answers[i].response)) {
      assert taken[i] == client.wire.frames[i];
      RepliesArrive(server.stream, client.wire, responses, i);
    }
  }

  lemma {:induction false} UnderstoodAll(frames: seq<string>, calls: seq<Message.Call>)
    requires |frames| == |calls| && forall i :: 0 <= i < |frames| ==> RequestIn(frames[i]) == Some(calls[i])
    ensures Services.Understood(frames) == calls
  {
    hide RequestIn;
    if frames != [] {
      UnderstoodAll(frames[..|frames|-1], calls[..|calls|-1]);
      assert RequestIn(frames[|frames|-1]) == Some(calls[|calls|-1]);
      assert calls == calls[..|calls|-1] + [calls[|calls|-1]];
    }
  }

  /** What the server has taken up are the client's requests. */
  lemma ServerHears(client: Connections.Connection, server: Services.ServiceConnection)
    requires client.Valid() && server.Valid() && Connected(client.wire, server.stream)
    requires forall i :: 0 <= i < |client.history| ==> FairEntry(client.history[i])
    ensures var c := client.Now(); Requested(c.made, c.accepted, server.Now().requests)
    ensures |server.Now().requests| == |server.stream.frames|
  {
    hide Stream.Valid, RequestIn, CallOf, Unforgeable, RequestText, FairEntry, Connections.Replay, Services.Replay,
      Connected,
      Services.Understood, Services.ReplyTexts, Connections.Callbacks;
    var c, frames := client.Now(), server.stream.frames;
    assert c == Connections.Replay(client.history);
    MessagesArriveInOrder(client.wire, server.stream);
    var requests := seq(|c.accepted|, i requires 0 <= i < |c.accepted| => c.made[c.accepted[i]].request);
    forall j | 0 <= j < |requests| ensures Unforgeable(requests[j].parameters) {
      MadeUnforgeable(client.history, c.accepted[j]);
    }
    forall i | 0 <= i < |frames| ensures RequestIn(frames[i]) == Some(CallOf(requests[i])) {
      CallsArrive(client.wire, server.stream, requests, i);
    }
    UnderstoodAll(frames, seq(|frames|, i requires 0 <= i < |frames| => CallOf(requests[i])));
    assert frames[..|frames|] == frames;
  }

  // ---------------------------------------------------------------- the session

  /** Everything that arrives or is on its way to the receiver was taken from the sender, in that order. */
  ghost predicate Piped(sender: Stream, receiver: Stream)
    reads sender, sender.fd, receiver, receiver.fd
  {
    receiver.fd.delivered + Arriving(receiver.fd.incoming) <= sender.fd.taken
  }

  class Session {
    const client: Connections.Connection
    const server: Services.ServiceConnection
    const clientFd: Descriptor

    ghost function Repr(): set<object> {
      {this} + client.Repr() + server.Repr()
    }

    ghost predicate Wired()
      reads Repr()
    {
      && client.Valid() && client.serving == [] && client.wire.fd == clientFd
      && server.Valid() && client.Repr() !! server.Repr()
      && Piped(client.wire, server.stream) && Piped(server.stream, client.wire)
    }

    ghost predicate Valid()
      reads Repr()
    {
      Wired() && (Fair(client.history, server.history) ==> Together(client.history, server.history))
    }

    /** Two ends of which nothing has been sent yet. */
    constructor (clientFd: Descriptor, serverFd: Descriptor, directory: Directories.Directory)
      requires clientFd != serverFd
      requires forall fd <- {clientFd, serverFd} :: fd.delivered == "" && fd.taken == "" && Arriving(fd.incoming) == ""
      ensures Valid() && fresh(Repr() - {clientFd, serverFd}) && client.history == [] && server.history == []
      ensures server.directory == directory
    {
      hide Together, Connections.Connection.Agrees, Services.ServiceConnection.Agrees, Arriving;
      var c := new Connections.Connection(clientFd);
      var s := new Services.ServiceConnection(serverFd, directory);
      client, server, this.clientFd := c, s, clientFd;
      new;
      NothingDone();
    }

    /** What the client has done since then is part of the run of the protocol. */
    lemma ClientSettles(was: seq<Connections.Entry>)
      requires Wired() && was <= client.history
      requires Fair(was, server.history) ==> Together(was, server.history)
      ensures Valid()
    {
      hide Together, FairEntry, FairNotes, Connections.Connection.Valid, Services.ServiceConnection.Valid, Heard;
      if Fair(client.history, server.history) {
        ClientHears(client, server);
        assert was + client.history[|was|..] == client.history;
        ClientHistory(was, client.history[|was|..], server.history);
      }
    }

    lemma ServerSettles(was: seq<Services.Note>)
      requires Wired() && was <= server.history
      requires Fair(client.history, was) ==> Together(client.history, was)
      ensures Valid()
    {
      hide Together, FairEntry, Connections.Connection.Valid, Services.ServiceConnection.Valid, Requested;
      if Fair(client.history, server.history) {
        ServerHears(client, server);
        assert was + server.history[|was|..] == server.history;
        FairBefore(was, server.history[|was|..]);
        ServerHistory(client.history, was, server.history[|was|..]);
      }
    }

    method Call(name: CString, parameters: Option<Parameters>, flags: nat, callback: Connections.Callback)
      returns (r: Outcome)
      requires Valid()
      modifies client.Repr()
      ensures Valid() && server.history == old(server.history)
      ensures client.history == old(client.history) +
        if r in {ConnectionClosed, InvalidCall} then []
        else [Connections.Calls(Connections.Made(Request(name, parameters, flags), callback),
                |old(client.wire.Unsent())|)]
    {
      hide Together, Connections.Connection.Agrees, Services.ServiceConnection.Agrees, Stream.Valid, Arriving,
        Room, RequestText, OneWay, More;
      ghost var was := client.history;
      r := client.Call(name, parameters, flags, callback);
      ClientSettles(was);
    }

    method Close()
      requires Valid()
      modifies client
      ensures Valid() && server.history == old(server.history) && client.history == old(client.history)
    {
      hide Together, Connections.Connection.Agrees, Services.ServiceConnection.Agrees, Stream.Valid, Arriving;
      client.Close();
    }

    method ClientEvents(ready: set<Event>) returns (r: Outcome)
      requires Valid()
      modifies client.Repr()
      ensures Valid() && server.history == old(server.history) && old(client.history) <= client.history
      ensures Flows(client.wire)
      ensures if old(client.stream) == null then r.ConnectionClosed? && client.history == old(client.history)
        else if
          EPOLLOUT in ready && !FlushOutcome(old(Empty(client.wire.Unsent(), clientFd.outgoing)).met).Success?
        then
          r == FlushOutcome(old(Empty(client.wire.Unsent(), clientFd.outgoing)).met)
            && client.history == old(client.history) && client.stream == old(client.stream)
        else client.Handled(old(client.history), Interruption(old(clientFd.incoming)), r)
      ensures r.Success? && client.stream != null ==>
        StoppedBy(client.wire, Interruption(old(clientFd.incoming)), Dry)
    {
      hide Together, Connections.Connection.Agrees, Connections.Connection.Handled, Services.ServiceConnection.Agrees,
        Stream.Valid, Arriving, Empty, Interruption, FlushOutcome, StoppedBy;
      ghost var was := client.history;
      r := client.ProcessEvents(ready);
      ClientSettles(was);
    }

    method ServerEvents(ready: set<Event>, handler: Message.Call -> Services.Plan) returns (r: Outcome)
      requires Valid() && !server.closed
      modifies server.Repr()
      ensures Valid() && client.history == old(client.history) && old(server.history) <= server.history
      ensures Flows(server.stream)
      ensures if old(Services.FlushFails(server, ready)) then
          r == FlushOutcome(old(Empty(server.stream.Unsent(), server.stream.fd.outgoing)).met)
            && server.history == old(server.history) && !server.closed
        else if EPOLLIN !in ready then r.Success? && server.history == old(server.history)
        else Services.Dispatched(server, ready, old(server.history), handler,
               Interruption(old(server.stream.fd.incoming)), r)
    {
      hide Together, Connections.Connection.Agrees, Services.ServiceConnection.Agrees, Services.Dispatched,
        Services.Handled, Stream.Valid, Arriving, Empty, Interruption, FlushOutcome, Services.FlushFails;
      ghost var was := server.history;
      r := Services.DispatchConnection(server, ready, handler);
      ServerSettles(was);
    }

    /** A reply that is made later, outside of the handling of events. */
    method Reply(call: Services.ServiceCall, answer: Services.Answer) returns (r: Outcome)
      requires Valid() && call.connection == server && !server.closed
      modifies server.Repr()
      ensures Valid() && client.history == old(client.history)
      ensures server.history == old(server.history) + if old(server.call) != call then [] else
        [Services.Tried(answer, Services.Checked(server.directory, call.request.name, answer),
           |old(server.stream.Unsent())|)]
    {
      hide Together, Connections.Connection.Agrees, Services.ServiceConnection.Agrees, Services.KeepsMask,
        Services.OutcomeOf, Services.Checked, Stream.Valid, Arriving;
      ghost var was := server.history;
      r := Services.AnswerOnce(call, answer);
      ServerSettles(was);
    }

    /** The kernel carries what was sent to the client, in any pieces, up to any point. */
    method ToClient(incoming: seq<ReadEvent>, outgoing: seq<WriteEvent>)
      requires Valid() && clientFd.delivered + Arriving(incoming) <= server.stream.fd.taken
      requires Utf8.AllBytes(Arriving(incoming))
      modifies clientFd`incoming, clientFd`outgoing
      ensures clientFd.incoming == incoming && clientFd.outgoing == outgoing
      ensures Valid() && client.history == old(client.history) && server.history == old(server.history)
    {
      hide Together, Connections.Replay, Connections.Callbacks, Connections.CallTexts,
        Services.ServiceConnection.Agrees,
        Arriving;
      clientFd.incoming, clientFd.outgoing := incoming, outgoing;
    }

    method ToServer(incoming: seq<ReadEvent>, outgoing: seq<WriteEvent>)
      requires Valid() && server.stream.fd.delivered + Arriving(incoming) <= clientFd.taken
      requires Utf8.AllBytes(Arriving(incoming))
      modifies server.stream.fd`incoming, server.stream.fd`outgoing
      ensures server.stream.fd.incoming == incoming && server.stream.fd.outgoing == outgoing
      ensures Valid() && client.history == old(client.history) && server.history == old(server.history)
    {
      hide Together, Services.Replay, Services.Understood, Services.ReplyTexts, Connections.Connection.Agrees, Arriving;
      server.stream.fd.incoming, server.stream.fd.outgoing := incoming, outgoing;
    }
  }

  lemma {:induction false} FairBefore(notes: seq<Services.Note>, more: seq<Services.Note>)
    requires FairNotes(notes + more)
    ensures FairNotes(notes)
    decreases |more|
  {
    hide FairNote;
    if more == [] {
      assert notes + more == notes;
    } else {
      assert (notes + more)[..|notes + more|-1] == notes + more[..|more|-1];
      FairBefore(notes, more[..|more|-1]);
    }
  }

  // ---------------------------------------------------------------- what the session promises

  lemma OwnReply(p: State, c: Connections.Client, s: Services.Server, i: nat)
    requires Matches(p, c, s) && (forall d <- p.log :: d.callback == d.reply.call) && i < |c.log|
    ensures i < |s.answers| && s.answers[i].to < |c.accepted| && c.log[i].to == c.accepted[s.answers[i].to]
    ensures c.log[i].reply == ReplyOf(s.answers[i].response)
    ensures s.requests[s.answers[i].to] == CallOf(c.made[c.log[i].to].request)
  {
    hide CallOf, ReplyOf, Services.Continued;
    var k := s.answers[i].to;
    assert p.log[i] in p.log;
    assert p.started[k] == (p.started + p.requests)[k] == CallsOf(c.made, c.accepted)[k];
  }

  /** However the two sides interleave, whatever their callbacks and handlers do and however the bytes are chopped:
      if both keep to what is fair, then every reply that a callback was given is, field for field, the response of
      the server to the very call the callback was queued for, and that call reached the server unchanged. */
  lemma RepliesReachTheirCallbacks(x: Session, i: nat)
    requires x.Valid() && Fair(x.client.history, x.server.history) && i < |x.client.Now().log|
    ensures var c, s := x.client.Now(), x.server.Now();
      && i < |s.answers| && s.answers[i].to < |c.accepted|
      && c.log[i].to == c.accepted[s.answers[i].to]
      && c.log[i].reply == ReplyOf(s.answers[i].response)
      && s.requests[s.answers[i].to] == CallOf(c.made[c.log[i].to].request)
  {
    hide Run, AllAllowed, Matches, Stream.Valid, Fair, CallOf, ReplyOf, Finished, TwoWay, CurrentTwoWay;
    var c, s := x.client.Now(), x.server.Now();
    var steps :| AllAllowed(INITIAL, steps) && Matches(Run(INITIAL, steps), c, s);
    RepliesReachTheirCalls(steps);
    OwnReply(Run(INITIAL, steps), c, s, i);
  }

  lemma NothingWaits(p: State, c: Connections.Client, s: Services.Server)
    requires Matches(p, c, s) && p.pending == Finished(p.replies) + CurrentTwoWay(p) + TwoWay(p.requests)
    requires |s.requests| == |c.accepted| && |c.taken| == |s.answers| && !s.busy
    ensures c.waiting == []
  {
    hide Requested, Delivered;
    assert |p.started + p.requests| == |c.accepted|;
  }

  /** When everything has been carried and handled and the server works on no call, no callback waits any more. */
  lemma QuietMeansServed(x: Session)
    requires x.Valid() && Fair(x.client.history, x.server.history) && x.client.stream != null && x.server.call == null
    requires x.server.stream.frames == x.client.wire.accepted && x.client.wire.frames == x.server.stream.accepted
    ensures x.client.pending == []
  {
    hide Run, AllAllowed, Matches, Stream.Valid, Fair, Finished, TwoWay, CurrentTwoWay, Services.Understood;
    var c, s := x.client.Now(), x.server.Now();
    var steps :| AllAllowed(INITIAL, steps) && Matches(Run(INITIAL, steps), c, s);
    RepliesReachTheirCalls(steps);
    FairCalls(x.client.history, x.server.history);
    ServerHears(x.client, x.server);
    NothingWaits(Run(INITIAL, steps), c, s);
  }

  lemma BothEnds(x: Session)
    requires x.Valid()
    ensures x.client.wire.Valid() && x.server.stream.Valid()
    ensures Piped(x.client.wire, x.server.stream) && Piped(x.server.stream, x.client.wire)
  {
    hide Stream.Valid, Together;
  }

  /** A reader that undisturbed input has left without a message has all messages that were sent. */
  lemma AllArrived(sender: Stream, receiver: Stream, incoming: seq<ReadEvent>)
    requires sender.Valid() && receiver.Valid() && Piped(sender, receiver) && sender.Unsent() == ""
    requires AllSteady(incoming) && StoppedBy(receiver, Interruption(incoming), Dry)
    requires receiver.fd.delivered + Arriving(receiver.fd.incoming) == sender.fd.taken
    ensures receiver.frames == sender.accepted
  {
    hide Stream.Valid, Interruption;
    SteadyAll(incoming);
    assert receiver.fd.delivered + "" == receiver.fd.delivered;
    MessagesArriveInOrder(sender, receiver);
  }

  /** The client's messages are carried to the server, undisturbed, and handled. If the server is not closed and works
      on no call then, it has taken up all of them. */
  method ServeAll(x: Session, incoming: seq<ReadEvent>, handler: Message.Call -> Services.Plan) returns (r: Outcome)
    requires x.Valid() && !x.server.closed && x.client.wire.Unsent() == "" && AllSteady(incoming)
    requires x.server.stream.fd.delivered + Arriving(incoming) == x.clientFd.taken && Utf8.AllBytes(Arriving(incoming))
    modifies x.server.Repr()
    ensures x.Valid() && x.client.history == old(x.client.history) && old(x.server.history) <= x.server.history
    ensures r.Success? && !x.server.closed && x.server.call == null ==>
      x.server.stream.frames == x.client.wire.accepted
  {
    hide Together, Connections.Connection.Agrees, Services.ServiceConnection.Agrees, Services.Handled, Stream.Valid,
      Arriving, Interruption, StoppedBy, AllSteady, Utf8.AllBytes, Services.Unreadable, Services.NoRequest;
    x.ToServer(incoming, []);
    r := x.ServerEvents({EPOLLIN}, handler);
    BothEnds(x);
    if r.Success? && !x.server.closed && x.server.call == null {
      AllArrived(x.client.wire, x.server.stream, incoming);
    }
  }

  /** The server has taken up all calls and is done with them, and both sides have kept to what is fair. */
  ghost predicate NothingToDo(x: Session)
    reads x.Repr()
  {
    && x.server.call == null && x.server.stream.frames == x.client.wire.accepted
    && Fair(x.client.history, x.server.history)
  }

  /** The server's messages are carried to the client, undisturbed, and handled. If the connection is open then, all of
      them were replies; and if in addition nothing is left for the server to do, no callback waits any more. */
  method HearAll(x: Session, incoming: seq<ReadEvent>) returns (r: Outcome)
    requires x.Valid() && x.server.stream.Unsent() == "" && AllSteady(incoming)
    requires x.clientFd.delivered + Arriving(incoming) == x.server.stream.fd.taken && Utf8.AllBytes(Arriving(incoming))
    modifies x.client.Repr()
    ensures x.Valid() && x.server.history == old(x.server.history) && old(x.client.history) <= x.client.history
    ensures r.Success? && x.client.stream != null ==> x.client.wire.frames == x.server.stream.accepted
    ensures r.Success? && x.client.stream != null && NothingToDo(x) ==> x.client.pending == []
  {
    hide Together, Connections.Connection.Agrees, Services.ServiceConnection.Agrees, Connections.Connection.Handled,
      Stream.Valid, Arriving, Interruption, StoppedBy, AllSteady, Utf8.AllBytes, Fair;
    x.ToClient(incoming, []);
    r := x.ClientEvents({EPOLLIN});
    BothEnds(x);
    if r.Success? && x.client.stream != null {
      AllArrived(x.server.stream, x.client.wire, incoming);
      if NothingToDo(x) {
        QuietMeansServed(x);
      }
    }
  }

  lemma FairCalls(calls: seq<Connections.Entry>, notes: seq<Services.Note>)
    requires Fair(calls, notes)
    ensures forall i :: 0 <= i < |calls| ==> FairEntry(calls[i])
  {
  }
}
