/** The client's end of a connection (lib/connection.c). */
module Connections {
  import opened Errors
  import opened Text
  import opened Json
  import opened JsonRoundTrip
  import opened Containers
  import opened Message
  import opened Streams
  import opened Descriptors
  import opened Framing
  import opened Filling
  import Utf8

  // ---------------------------------------------------------------- the user of the library

  /** What a callback does with its connection when it is given a reply, and what it returns. */
  datatype Callback = Callback(react: Message.Reply -> Reaction)

  datatype Reaction = Reaction(actions: seq<Action>, result: Outcome)

  datatype Action = DoCall(request: Request, callback: Callback) | DoClose

  datatype Pending = Pending(flags: nat, callback: Callback)

  // ---------------------------------------------------------------- what a client has done

  /** A call with its callback. */
  datatype Made = Made(request: Request, callback: Callback)

  /** A call was made when so many bytes were unsent; or a message was taken from the stream. */
  datatype Entry = Calls(call: Made, unsent: nat) | Gets(frame: string)

  /** The text of a call is accepted exactly when there is room for it. */
  predicate Accepted(call: Made, unsent: nat) {
    Room(unsent, |RequestText(call.request)|).Success?
  }

  datatype Receipt = Receipt(to: nat, reply: Message.Reply)

  /** Calls are known by the order in which they were made. */
  datatype Books = Books(
    made: seq<Made>,
    waiting: seq<nat>,
    accepted: seq<nat>,
    log: seq<Receipt>,
    taken: seq<string>)

  ghost predicate Sound(b: Books) {
    && (forall i :: 0 <= i < |b.waiting| ==> b.waiting[i] < |b.made|)
    && (forall i :: 0 <= i < |b.accepted| ==> b.accepted[i] < |b.made|)
    && (forall i :: 0 <= i < |b.log| ==> b.log[i].to < |b.made|)
  }

  type Client = b: Books | Sound(b) ghost witness Books([], [], [], [], [])

  ghost const NEW_CLIENT: Client := Books([], [], [], [], [])

  /** A call that asks for more replies and for none is refused. */
  predicate Contradictory(flags: nat) {
    More(flags) && OneWay(flags)
  }

  /** A call that is to be answered waits, also when its text was not accepted. */
  ghost function Noted(c: Client, call: Made, waits: bool, accepted: bool): Client {
    var n := |c.made|;
    c.(made := c.made + [call],
       waiting := if waits then c.waiting + [n] else c.waiting,
       accepted := if accepted then c.accepted + [n] else c.accepted)
  }

  ghost function AfterCall(c: Client, call: Made, unsent: nat): Client {
    if Contradictory(call.request.flags) then c
    else Noted(c, call, !OneWay(call.request.flags), Accepted(call, unsent))
  }

  /** What the client holds for the calls that wait. */
  ghost function Callbacks(c: Client): seq<Pending> {
    seq(|c.waiting|, i requires 0 <= i < |c.waiting| =>
      Pending(c.made[c.waiting[i]].request.flags, c.made[c.waiting[i]].callback))
  }

  /** The reply in a message, if there is one and the first of the queue may be given it. */
  function Fitting(queue: seq<Pending>, frame: string): (r: Option<Message.Reply>)
    ensures r.Some? ==> queue != [] && r == ReplyIn(frame)
  {
    var reply := ReplyIn(frame);
    if reply.None? || queue == [] || (Continues(reply.value.flags) && !More(queue[0].flags)) then None else reply
  }

  ghost function AfterFrame(c: Client, frame: string): Client {
    var reply := Fitting(Callbacks(c), frame);
    if reply.None? then c.(taken := c.taken + [frame])
    else
      c.(taken := c.taken + [frame],
         log := c.log + [Receipt(c.waiting[0], reply.value)],
         waiting := if Continues(reply.value.flags) then c.waiting else c.waiting[1..])
  }

  ghost function After(c: Client, e: Entry): Client {
    match e
    case Calls(call, unsent) => AfterCall(c, call, unsent)
    case Gets(frame) => AfterFrame(c, frame)
  }

  ghost function Replay(history: seq<Entry>): Client {
    if history == [] then NEW_CLIENT
    else After(Replay(history[..|history|-1]), history[|history|-1])
  }

  lemma ReplayMore(history: seq<Entry>, e: Entry)
    ensures Replay(history + [e]) == After(Replay(history), e)
  {
    hide After;
    assert (history + [e])[..|history|] == history;
  }

  /** The texts of the calls that were accepted. */
  ghost function CallTexts(c: Client): seq<string> {
    seq(|c.accepted|, i requires 0 <= i < |c.accepted| => RequestText(c.made[c.accepted[i]].request))
  }

  lemma CallsMore(c: Client, call: Made, unsent: nat)
    requires !Contradictory(call.request.flags)
    ensures var t := AfterCall(c, call, unsent);
      && Callbacks(t) == (if OneWay(call.request.flags) then Callbacks(c)
                          else Callbacks(c) + [Pending(call.request.flags, call.callback)])
      && CallTexts(t) == (if Accepted(call, unsent) then CallTexts(c) + [RequestText(call.request)] else CallTexts(c))
      && t.taken == c.taken
  {
    hide More, OneWay, RequestText, Accepted;
    var t := AfterCall(c, call, unsent);
    assert forall n | 0 <= n < |c.made| :: t.made[n] == c.made[n];
    assert Callbacks(t)[..|c.waiting|] == Callbacks(c);
    assert CallTexts(t)[..|c.accepted|] == CallTexts(c);
  }

  lemma NothingNoted()
    ensures var c := Replay([]); Callbacks(c) == [] && CallTexts(c) == [] && c.taken == []
  {
  }

  /** What a call changes that the stream and the queue can tell. */
  lemma CallNoted(history: seq<Entry>, serving: seq<Pending>, call: Made, unsent: nat)
    requires !Contradictory(call.request.flags)
    ensures var c, t := Replay(history), Replay(history + [Calls(call, unsent)]);
      && serving + Callbacks(t) == (if OneWay(call.request.flags) then serving + Callbacks(c)
                                    else serving + Callbacks(c) + [Pending(call.request.flags, call.callback)])
      && CallTexts(t) == (if Accepted(call, unsent) then CallTexts(c) + [RequestText(call.request)] else CallTexts(c))
      && t.taken == c.taken
  {
    hide AfterCall, Callbacks, CallTexts, RequestText, Accepted;
    ReplayMore(history, Calls(call, unsent));
    CallsMore(Replay(history), call, unsent);
  }

  lemma FrameMore(c: Client, frame: string)
    ensures var t, reply := AfterFrame(c, frame), Fitting(Callbacks(c), frame);
      && CallTexts(t) == CallTexts(c) && t.taken == c.taken + [frame]
      && Callbacks(t) == if reply.None? || Continues(reply.value.flags) then Callbacks(c) else Callbacks(c)[1..]
  {
    hide Fitting, More, Continues, RequestText;
  }

  /** What a message changes that the stream and the queue can tell. */
  lemma FrameNoted(history: seq<Entry>, frame: string)
    ensures var c, t := Replay(history), Replay(history + [Gets(frame)]);
      var reply := Fitting(Callbacks(c), frame);
      && CallTexts(t) == CallTexts(c) && t.taken == c.taken + [frame]
      && Callbacks(t) == if reply.None? || Continues(reply.value.flags) then Callbacks(c) else Callbacks(c)[1..]
  {
    hide AfterFrame, Callbacks, CallTexts, Fitting, Continues;
    ReplayMore(history, Gets(frame));
    FrameMore(Replay(history), frame);
  }

  // ---------------------------------------------------------------- what callbacks do

  /** What is noted while a callback acts: its calls, written or not, until it closes the connection. */
  ghost predicate Follow(actions: seq<Action>, entries: seq<Entry>)
    decreases actions
  {
    if actions == [] || actions[0].DoClose? then entries == []
    else if Contradictory(actions[0].request.flags) then Follow(actions[1..], entries)
    else
      && entries != [] && entries[0].Calls? && entries[0].call == Made(actions[0].request, actions[0].callback)
      && Follow(actions[1..], entries[1..])
  }

  /** A message was taken; the callback it was given to, if any, has acted. */
  ghost predicate Reacts(c: Client, entries: seq<Entry>) {
    && entries != [] && entries[0].Gets?
    && var queue := Callbacks(c);
       var reply := Fitting(queue, entries[0].frame);
       if reply.None? then |entries| == 1 else Follow(queue[0].callback.react(reply.value).actions, entries[1..])
  }

  /** How a message has gone: what the callback has returned, and whether it has closed the connection. */
  datatype Ending = Ending(result: Outcome, closes: bool)

  const WELL: Ending := Ending(Success, false)

  predicate Closes(actions: seq<Action>) {
    exists i :: 0 <= i < |actions| && actions[i].DoClose?
  }

  /** A message that is no reply, or one that the first callback may not be given, is invalid. */
  ghost function EndingOf(c: Client, frame: string): Ending {
    var reply := Fitting(Callbacks(c), frame);
    if reply.None? then Ending(InvalidMessage, false)
    else
      var reaction := Callbacks(c)[0].callback.react(reply.value);
      Ending(reaction.result, Closes(reaction.actions))
  }

  /** Messages were taken, one after the other; all went well but perhaps the last one, which went as `end` says. */
  ghost predicate Processed(history: seq<Entry>, entries: seq<Entry>, end: Ending)
    decreases |entries|
  {
    if entries == [] then end == WELL
    else exists k | 0 <= k < |entries| ::
      && Processed(history, entries[..k], WELL) && Reacts(Replay(history + entries[..k]), entries[k..])
      && end == EndingOf(Replay(history + entries[..k]), entries[k].frame)
  }

  lemma ProcessedNone(history: seq<Entry>)
    ensures Processed(history, [], WELL)
  {
  }

  lemma ProcessedMore(history: seq<Entry>, entries: seq<Entry>, more: seq<Entry>)
    requires Processed(history, entries, WELL) && Reacts(Replay(history + entries), more)
    ensures more != [] && more[0].Gets?
    ensures Processed(history, entries + more, EndingOf(Replay(history + entries), more[0].frame))
  {
    hide Replay, EndingOf, Follow, Fitting;
    var c := Replay(history + entries);
    assert more != [] && more[0].Gets? by { ReactsSome(c, more); }
    hide Reacts;
    var all := entries + more;
    assert all[..|entries|] == entries && all[|entries|..] == more && all[|entries|] == more[0];
  }

  lemma ReactsSome(c: Client, entries: seq<Entry>)
    requires Reacts(c, entries)
    ensures entries != [] && entries[0].Gets?
  {
  }

  lemma ClosesLater(actions: seq<Action>)
    requires actions != [] && !actions[0].DoClose?
    ensures Closes(actions) <==> Closes(actions[1..])
  {
    assert actions == [actions[0]] + actions[1..];
  }

  class Connection {
    var stream: Stream?
    var events: set<Event>
    var pending: seq<Pending>
    ghost const wire: Stream
    ghost var history: seq<Entry>
    ghost var serving: seq<Pending>

    ghost function Repr(): set<object> {
      {this, wire, wire.fd, wire.input, wire.output}
    }

    ghost function Now(): Client
      reads this
    {
      Replay(history)
    }

    /** While the connection is open it waits to write when output is left, and to read when callbacks wait. */
    ghost predicate Subscribed()
      reads this, wire, wire.output
      requires wire.outStart <= wire.outEnd <= wire.output.Length
    {
      stream != null ==>
        && (wire.Unsent() != "" ==> EPOLLOUT in events)
        && (pending != [] ==> EPOLLIN in events)
    }

    /** The queue holds the callback that is being served and those that wait; what was accepted are the texts of
        the calls noted so; all messages but the last ones are noted. */
    ghost predicate Agrees(unnoted: seq<string>)
      reads this, wire, wire.fd, wire.input, wire.output
    {
      && wire.Valid() && (stream == null || stream == wire) && Subscribed()
      && pending == serving + Callbacks(Now())
      && wire.accepted == CallTexts(Now())
      && (if stream != null then Now().taken + unnoted == wire.frames else Now().taken + unnoted <= wire.frames)
    }

    ghost predicate Valid()
      reads this, wire, wire.fd, wire.input, wire.output
    {
      Agrees([])
    }

    constructor (fd: Descriptor)
      requires fd.delivered == "" && fd.taken == "" && Utf8.AllBytes(Arriving(fd.incoming))
      ensures Valid() && stream == wire && wire.fd == fd && fresh(Repr() - {fd}) && history == [] && serving == []
    {
      hide Stream.Valid, Utf8.AllBytes, Arriving, Replay, Callbacks, CallTexts;
      NothingNoted();
      var s := new Stream(fd);
      stream, wire := s, s;
      events, pending, history, serving := {}, [], [], [];
    }

    /** Writes a packed call; what cannot be written at once is left for later. */
    method Transmit(call: VarlinkObject, ghost q: Request) returns (r: Outcome)
      requires stream == wire && wire.Valid() && call.Valid() && call.Repr() !! Repr()
      requires call.Fields() == PackedCall(q.name, q.parameters, q.flags)
      modifies this`events, wire, wire.fd, wire.output
      ensures wire.Valid() && SameInput(wire) && r == Room(|old(wire.Unsent())|, |RequestText(q)|)
      ensures wire.accepted == if r.Success? then old(wire.accepted) + [RequestText(q)] else old(wire.accepted)
      ensures if r.Success? then wire.Unsent() != "" ==> EPOLLOUT in events else wire.Unsent() == old(wire.Unsent())
      ensures old(events) <= events
    {
      hide PackedCall, PrintObject, VarlinkObject.Valid, Stream.Valid, WellFormedField, Room;
      Buffers(stream);
      CallWellFormed(q.name, q.parameters, q.flags);
      var whole;
      r, whole := stream.Write(call);
      if !r.Success? {
        return;
      }
      if !whole {
        events := events + {EPOLLOUT};
      }
    }

    /** Queues the callback of a packed call, if it is to be answered, and writes the call. The callback stays
        queued if writing fails. */
    method Submit(call: VarlinkObject, flags: nat, callback: Callback, ghost q: Request) returns (r: Outcome)
      requires Valid() && stream != null && call.Valid() && call.Repr() !! Repr()
      requires q.flags == flags && !Contradictory(flags) && call.Fields() == PackedCall(q.name, q.parameters, flags)
      modifies Repr()
      ensures Valid() && stream == old(stream) && serving == old(serving) && SameInput(wire)
      ensures r == Room(|old(wire.Unsent())|, |RequestText(q)|)
      ensures history == old(history) + [Calls(Made(q, callback), |old(wire.Unsent())|)]
    {
      hide PackedCall, VarlinkObject.Valid, Stream.Valid, Replay, Callbacks, CallTexts, More, OneWay, RequestText;
      Buffers(stream);
      ghost var unsent := |wire.Unsent()|;
      CallNoted(history, serving, Made(q, callback), unsent);
      if !OneWay(flags) {
        pending := pending + [Pending(flags, callback)];
        events := events + {EPOLLIN};
      }
      r := Transmit(call, q);
      history := history + [Calls(Made(q, callback), unsent)];
    }

    /** Makes a call, unless the connection is closed or the flags contradict each other. */
    method Call(name: CString, parameters: Option<Parameters>, flags: nat, callback: Callback) returns (r: Outcome)
      requires Valid()
      modifies Repr()
      ensures Valid() && stream == old(stream) && serving == old(serving) && SameInput(wire)
      ensures stream == null ==> r.ConnectionClosed? && history == old(history)
      ensures stream != null && Contradictory(flags) ==> r.InvalidCall? && history == old(history)
      ensures stream != null && !Contradictory(flags) ==>
        var q := Request(name, parameters, flags);
        && r == Room(|old(wire.Unsent())|, |RequestText(q)|)
        && history == old(history) + [Calls(Made(q, callback), |old(wire.Unsent())|)]
    {
      hide PackedCall, VarlinkObject.Valid, Stream.Valid, Replay, Callbacks, CallTexts, More, OneWay, RequestText;
      if stream == null {
        return ConnectionClosed;
      }
      Buffers(stream);
      if More(flags) && OneWay(flags) {
        return InvalidCall;
      }
      var packed, call := PackCall(name, parameters, flags);
      r := Submit(call, flags, callback, Request(name, parameters, flags));
    }

    method Close()
      requires Valid()
      modifies `stream
      ensures Valid() && stream == null
    {
      hide Stream.Valid, Replay, Callbacks, CallTexts;
      stream := null;
    }

    /** What a callback does. */
    method Act(actions: seq<Action>)
      requires Valid() && stream != null
      modifies Repr()
      ensures Valid() && serving == old(serving) && SameInput(wire)
      ensures stream == if Closes(actions) then null else old(stream)
      ensures old(history) <= history && Follow(actions, history[|old(history)|..])
      decreases actions
    {
      hide Agrees, Contradictory, Room, RequestText;
      ghost var was := history;
      assert history[|was|..] == [];
      if |actions| == 0 {
        return;
      }
      match actions[0] {
        case DoClose =>
          Close();
        case DoCall(q, callback) =>
          var r := Call(q.name, q.parameters, q.flags, callback);
          ghost var first := history[|was|..];
          assert Contradictory(q.flags) ==> first == [];
          assert !Contradictory(q.flags) ==> |first| == 1 && first[0].Calls? && first[0].call == Made(q, callback);
          Act(actions[1..]);
          ClosesLater(actions);
          assert history[|was|..] == first + history[|was + first|..];
      }
    }

    /** Has the first callback act, and takes it off the queue unless more replies follow. */
    method Serve(reaction: Reaction, continues: bool) returns (r: Outcome)
      requires Valid() && stream != null && (if continues then serving == [] else |serving| == 1)
      modifies Repr()
      ensures Valid() && serving == [] && SameInput(wire)
      ensures stream == if Closes(reaction.actions) then null else old(stream)
      ensures old(history) <= history && Follow(reaction.actions, history[|old(history)|..]) && r == reaction.result
    {
      hide Stream.Valid, Callbacks, CallTexts, Replay, Follow;
      Act(reaction.actions);
      if !continues {
        pending := pending[1..];
        serving := [];
      }
      return reaction.result;
    }

    /** Gives a message to the first callback that waits. */
    method Deliver(message: VarlinkObject, ghost frame: string) returns (r: Outcome, delivered: bool)
      requires Agrees([frame]) && stream != null && serving == []
      requires message.Valid() && message.Repr() !! Repr() && Parse(frame) == Some(message.Fields())
      modifies Repr()
      ensures Valid() && serving == [] && SameInput(wire)
      ensures old(history) < history && history[|old(history)|] == Gets(frame)
      ensures Reacts(old(Now()), history[|old(history)|..])
      ensures delivered == Fitting(old(pending), frame).Some? && (!delivered ==> r.InvalidMessage?)
      ensures var end := EndingOf(old(Now()), frame);
        r == end.result && stream == if end.closes then null else old(stream)
    {
      hide UnpackedReply, VarlinkObject.Valid, Stream.Valid, Callbacks, CallTexts, Replay, Parse;
      FrameNoted(history, frame);
      ghost var was := history;
      history := history + [Gets(frame)];
      assert history[|was|..] == [Gets(frame)];
      if |pending| == 0 {
        return InvalidMessage, false;
      }
      var first := pending[0];
      var unpacked, reply := UnpackReply(message);
      if !unpacked.Success? {
        return InvalidMessage, false;
      }
      if Continues(reply.flags) && !More(first.flags) {
        return InvalidMessage, false;
      }
      serving := if Continues(reply.flags) then [] else [first];
      ghost var noted := history;
      r := Serve(first.callback.react(reply), Continues(reply.flags));
      assert history[|was|..] == [Gets(frame)] + history[|noted|..];
      delivered := true;
    }

    /** Reads one message, if there is a complete one; the end of the stream closes the connection. */
    method ReadMessage() returns (r: Outcome, message: VarlinkObject?)
      requires Valid() && stream != null
      modifies `stream, wire`inStart, wire`inEnd, wire`hup, wire`frames, wire.fd`incoming, wire.fd`delivered, wire.input
      ensures Flows(wire)
      ensures message == null ==> Valid()
      ensures message != null ==>
        && r.Success? && stream == wire && fresh(message.Repr()) && message.Valid() && wire.frames != []
        && Parse(wire.frames[|wire.frames|-1]) == Some(message.Fields()) && Agrees([wire.frames[|wire.frames|-1]])
        && Left(wire) < old(Left(wire)) && Interruption(wire.fd.incoming) == Interruption(old(wire.fd.incoming))
        && !wire.hup
      ensures message == null ==> Quits(Interruption(old(wire.fd.incoming)), r)
    {
      hide VarlinkObject.Valid, Stream.Valid, Arriving, Weight, Parse, Replay, Callbacks, CallTexts, Fill, Interruption,
        StoppedBy, Framed, AllNulFree;
      Buffers(stream);
      InputSoFar(stream);
      ghost var frames, unread, incoming := stream.frames, stream.Unread(), stream.fd.incoming;
      r, message := stream.Read();
      AfterRead(wire, frames, unread, incoming, r, message != null);
      Buffers(stream);
      if !r.Success? {
        return r, null;
      }
      if stream.hup {
        stream := null;
        return ConnectionClosed, null;
      }
    }

    /** Why the client handles no further message: its other side has hung up, and the connection is closed; or the
        stream hands on none. */
    ghost predicate Quits(meets: (Stop, seq<ReadEvent>), r: Outcome)
      reads `stream, wire, wire.fd, wire.input
    {
      if r.ConnectionClosed? then stream == null && wire.hup
      else
        && stream == wire && (r.Success? ==> !wire.hup)
        && r in {Success, InvalidJson, InvalidMessage, ReceivingMessage} && StoppedBy(wire, meets, StopOf(r))
    }

    /** Reads one message and gives it to the first callback. */
    method Round() returns (r: Outcome, verdict: Verdict)
      requires Valid() && stream != null && serving == []
      modifies Repr()
      ensures Valid() && serving == [] && Flows(wire)
      ensures old(history) <= history
      ensures if history == old(history) then !verdict.Again? && Quits(Interruption(old(wire.fd.incoming)), r)
        else
          && Reacts(old(Now()), history[|old(history)|..]) && history[|old(history)|].Gets?
          && var end := EndingOf(old(Now()), history[|old(history)|].frame);
             && r == end.result && stream == (if end.closes then null else wire)
             && (verdict.Again? <==> end == WELL) && (r.Success? ==> !verdict.Return?)
             && Left(wire) < old(Left(wire)) && Interruption(wire.fd.incoming) == Interruption(old(wire.fd.incoming))
      ensures verdict.Return? ==> !r.Success?
    {
      hide VarlinkObject.Valid, Stream.Valid, Arriving, Weight, Reacts, Fitting, Parse, Replay, Callbacks, CallTexts,
        Quits, Interruption, EndingOf;
      var message;
      r, message := ReadMessage();
      if message == null {
        return r, if r.Success? then Break else Return;
      }
      var delivered;
      r, delivered := Deliver(message, wire.frames[|wire.frames|-1]);
      verdict := if !delivered then Return else if !r.Success? || stream == null then Break else Again;
    }

    /** Sends output, and waits for more room only while some is left. */
    method FlushOutput() returns (r: Outcome)
      requires Valid() && stream != null
      modifies `events, wire, wire.fd, wire.output
      ensures Valid() && SameInput(wire) && (EPOLLIN in events <==> EPOLLIN in old(events))
      ensures wire.Flushed(old(wire.Unsent()), old(wire.fd.taken), old(wire.fd.outgoing), old(wire.hup))
      ensures r == FlushOutcome(old(Empty(wire.Unsent(), wire.fd.outgoing)).met)
      ensures r.Success? && wire.Unsent() == "" ==> EPOLLOUT !in events
    {
      hide Stream.Valid, Replay, Callbacks, CallTexts, Empty;
      Buffers(stream);
      EmptyKeeps(wire.Unsent(), wire.fd.outgoing);
      var left;
      r, left := stream.Flush();
      if r.Success? && left == 0 {
        events := events - {EPOLLOUT};
      }
    }

    /** The messages that arrived have been handled, until one did not go well or closed the connection, or until the
        stream handed on no more. */
    ghost predicate Handled(was: seq<Entry>, meets: (Stop, seq<ReadEvent>), r: Outcome)
      requires was <= history
      reads `stream, `history, wire, wire.fd, wire.input
    {
      exists end :: Processed(was, history[|was|..], end)
                    && if end == WELL then Quits(meets, r)
                       else r == end.result && stream == if end.closes then null else wire
    }

    /** Handles messages until one does not go well or closes the connection, or until there is no more. */
    method HandleMessages() returns (r: Outcome, verdict: Verdict)
      requires Valid() && serving == [] && stream != null
      modifies Repr()
      ensures Valid() && serving == [] && (stream == old(stream) || stream == null) && Flows(wire)
      ensures old(history) <= history && Handled(old(history), Interruption(old(wire.fd.incoming)), r)
      ensures !verdict.Again? && (verdict.Return? ==> !r.Success?)
      ensures r.Success? && stream != null ==> !wire.hup && StoppedBy(wire, Interruption(old(wire.fd.incoming)), Dry)
    {
      hide Stream.Valid, Processed, Reacts, Left, Arriving, Replay, Callbacks, CallTexts, Interruption, EndingOf,
        StoppedBy;
      ghost var was, meets := history, Interruption(wire.fd.incoming);
      ProcessedNone(was);
      assert history[|was|..] == [];
      r, verdict := Success, Again;
      while verdict.Again?
        invariant Valid() && serving == [] && (stream == old(stream) || (stream == null && !verdict.Again?))
          && Flows(wire)
        invariant was <= history
        invariant
          if verdict.Again? then Processed(was, history[|was|..], WELL) && Interruption(wire.fd.incoming) == meets
          else Handled(was, meets, r)
        invariant verdict.Return? ==> !r.Success?
        invariant verdict.Break? && r.Success? && stream != null ==> !wire.hup && StoppedBy(wire, meets, Dry)
        decreases verdict.Again?, Left(wire)
      {
        ghost var before := history;
        r, verdict := Round();
        if history != before {
          assert was + before[|was|..] == before;
          ProcessedMore(was, before[|was|..], history[|before|..]);
          assert history[|was|..] == before[|was|..] + history[|before|..];
        }
      }
    }

    /** Handles what the descriptor is ready for. */
    method ProcessEvents(ready: set<Event>) returns (r: Outcome)
      requires Valid() && serving == []
      modifies Repr()
      ensures Valid() && serving == [] && (stream == old(stream) || stream == null) && Flows(wire)
      ensures old(history) <= history
      ensures if old(stream) == null then r.ConnectionClosed? && history == old(history)
        else if EPOLLOUT in ready && !FlushOutcome(old(Empty(wire.Unsent(), wire.fd.outgoing)).met).Success? then
          && r == FlushOutcome(old(Empty(wire.Unsent(), wire.fd.outgoing)).met)
          && history == old(history) && stream == old(stream) && SameInput(wire)
        else Handled(old(history), Interruption(old(wire.fd.incoming)), r)
      ensures r.Success? && stream != null ==>
        && !wire.hup && (EPOLLIN in events <==> pending != [])
        && StoppedBy(wire, Interruption(old(wire.fd.incoming)), Dry)
    {
      hide Stream.Valid, Processed, Arriving, Replay, Callbacks, CallTexts, Interruption, EndingOf, Empty, StoppedBy,
        FlushOutcome, Quits;
      if stream == null {
        return ConnectionClosed;
      }
      Buffers(stream);
      r := Success;
      if EPOLLOUT in ready {
        r := FlushOutput();
        if !r.Success? {
          return;
        }
      }
      var verdict;
      r, verdict := HandleMessages();
      if verdict.Break? && |pending| == 0 {
        events := events - {EPOLLIN};
      }
    }
  }
}
