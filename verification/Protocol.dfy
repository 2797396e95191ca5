/** One client and one server over two FIFO channels (lib/connection.c, lib/service.c), as a transition system.
    Replies carry no identifier on the wire: a client gives every reply to the first callback that is waiting. */
module Protocol {
  import opened Text

  /** A call, identified by the order in which the client made it. */
  datatype Call = Call(id: nat, more: bool, oneway: bool)

  /** A reply; the call it answers is known to us only. */
  datatype Reply = Reply(call: Call, continues: bool)

  /** A reply handed to the callback of `callback`. */
  datatype Delivery = Delivery(callback: Call, reply: Reply)

  datatype State = State(
    made: nat,
    pending: seq<Call>,
    requests: seq<Call>,
    current: Option<Call>,
    replies: seq<Reply>,
    started: seq<Call>,
    answered: seq<Reply>,
    log: seq<Delivery>,
    invalid: bool)

  /** What can happen. A message is accepted when there is room for its text. */
  datatype Step =
    | ClientCall(more: bool, oneway: bool, accepted: bool)
    | Dispatch
    | ServerReply(call: Call, continues: bool, accepted: bool)
    | ServerError(call: Call, accepted: bool)
    | Receive

  const INITIAL: State := State(0, [], [], None, [], [], [], [], false)

  /** A call that is to be answered is queued before it is written, and stays queued when writing fails. */
  function Made(s: State, more: bool, oneway: bool, accepted: bool): State {
    if more && oneway then s
    else
      var c := Call(s.made, more, oneway);
      s.(made := s.made + 1,
         pending := if oneway then s.pending else s.pending + [c],
         requests := if accepted then s.requests + [c] else s.requests)
  }

  function Dispatched(s: State): State {
    if s.current.Some? || s.requests == [] then s
    else s.(current := Some(s.requests[0]), requests := s.requests[1..], started := s.started + [s.requests[0]])
  }

  /** The state with a reply under way to the current call. */
  function Advanced(s: State, r: Reply): State {
    s.(replies := s.replies + [r], answered := s.answered + [r], current := if r.continues then s.current else None)
  }

  function Replied(s: State, call: Call, continues: bool, accepted: bool): State {
    if s.current != Some(call) || (call.oneway && continues) then s
    else if call.oneway then s.(current := None)
    else if !accepted then s
    else Advanced(s, Reply(call, continues))
  }

  function Failed(s: State, call: Call, accepted: bool): State {
    if s.current != Some(call) || !accepted then s
    else Advanced(s, Reply(call, false))
  }

  function Received(s: State): State {
    if s.replies == [] || s.invalid then s
    else if s.pending == [] || (s.replies[0].continues && !s.pending[0].more) then
      s.(replies := s.replies[1..], invalid := true)
    else
      s.(replies := s.replies[1..], log := s.log + [Delivery(s.pending[0], s.replies[0])],
         pending := if s.replies[0].continues then s.pending else s.pending[1..])
  }

  function After(s: State, e: Step): State {
    match e
    case ClientCall(more, oneway, accepted) => Made(s, more, oneway, accepted)
    case Dispatch => Dispatched(s)
    case ServerReply(call, continues, accepted) => Replied(s, call, continues, accepted)
    case ServerError(call, accepted) => Failed(s, call, accepted)
    case Receive => Received(s)
  }

  function Run(s: State, steps: seq<Step>): State
    decreases steps
  {
    if steps == [] then s else Run(After(s, steps[0]), steps[1..])
  }

  // ---------------------------------------------------------------- what the library leaves to its users

  /** There is room for the text of every call that is to be answered; errors are not sent for calls that take no
      reply; and replies to be continued are sent only to calls that asked for more. Where messages are texts there is
      a fourth condition: no name in parameters has a quote or backslash, with which a call could be read as another
      one (`Forgery.ParametersForge`). */
  predicate Allowed(s: State, e: Step) {
    match e
    case ClientCall(more, oneway, accepted) => accepted || oneway
    case ServerReply(call, continues, accepted) =>
      accepted && s.current == Some(call) && continues && !call.oneway ==> call.more
    case ServerError(call, accepted) => accepted && s.current == Some(call) ==> !call.oneway
    case _ => true
  }

  predicate AllAllowed(s: State, steps: seq<Step>)
    decreases steps
  {
    steps == [] || (Allowed(s, steps[0]) && AllAllowed(After(s, steps[0]), steps[1..]))
  }

  // ---------------------------------------------------------------- the global invariant

  function TwoWay(calls: seq<Call>): seq<Call> {
    if calls == [] then []
    else (if calls[0].oneway then [] else [calls[0]]) + TwoWay(calls[1..])
  }

  /** The calls that the replies under way finish. */
  function Finished(replies: seq<Reply>): seq<Call> {
    if replies == [] then []
    else (if replies[0].continues then [] else [replies[0].call]) + Finished(replies[1..])
  }

  function CurrentTwoWay(s: State): seq<Call> {
    if s.current.Some? && !s.current.value.oneway then [s.current.value] else []
  }

  /** The calls that are not on the client's side any more and have no final reply under way. */
  function Unanswered(s: State): seq<Call> {
    CurrentTwoWay(s) + TwoWay(s.requests)
  }

  /** Every reply under way answers the call that is first in line when it is read, and is continued only for
      calls that asked for more. */
  predicate InLine(replies: seq<Reply>, rest: seq<Call>) {
    replies == [] ||
    (var line := Finished(replies) + rest;
     line != [] && line[0] == replies[0].call && (replies[0].continues ==> replies[0].call.more)
     && InLine(replies[1..], rest))
  }

  predicate Inv(s: State) {
    && !s.invalid
    && s.pending == Finished(s.replies) + Unanswered(s)
    && InLine(s.replies, Unanswered(s))
    && (forall d <- s.log :: d.callback == d.reply.call)
  }

  // ---------------------------------------------------------------- lemmas

  lemma {:induction false} TwoWayConcat(a: seq<Call>, b: seq<Call>)
    ensures TwoWay(a + b) == TwoWay(a) + TwoWay(b)
  {
    if a == [] {
      assert a + b == b;
    } else {
      assert (a + b)[0] == a[0] && (a + b)[1..] == a[1..] + b;
      TwoWayConcat(a[1..], b);
    }
  }

  lemma {:induction false} FinishedConcat(a: seq<Reply>, b: seq<Reply>)
    ensures Finished(a + b) == Finished(a) + Finished(b)
  {
    if a == [] {
      assert a + b == b;
    } else {
      assert (a + b)[0] == a[0] && (a + b)[1..] == a[1..] + b;
      FinishedConcat(a[1..], b);
    }
  }

  lemma FinishedOne(r: Reply)
    ensures Finished([r]) == if r.continues then [] else [r.call]
  {
    assert [r][1..] == [];
  }

  lemma TwoWayOne(c: Call)
    ensures TwoWay([c]) == if c.oneway then [] else [c]
  {
    assert [c][1..] == [];
  }

  /** More calls behind those in line change nothing for the replies. */
  lemma {:induction false} InLineLonger(replies: seq<Reply>, rest: seq<Call>, more: seq<Call>)
    requires InLine(replies, rest)
    ensures InLine(replies, rest + more)
  {
    if replies != [] {
      InLineLonger(replies[1..], rest, more);
      assert Finished(replies) + (rest + more) == Finished(replies) + rest + more;
    }
  }

  /** A further reply is in line exactly when the call it answers is the first that is unanswered. */
  lemma {:induction false} InLineReply(replies: seq<Reply>, r: Reply, rest: seq<Call>, after: seq<Call>)
    requires rest == Finished([r]) + after
    ensures InLine(replies + [r], after) <==>
      InLine(replies, rest) && rest != [] && rest[0] == r.call && (r.continues ==> r.call.more)
  {
    hide Finished;
    FinishedOne(r);
    if replies == [] {
      assert replies + [r] == [r] && [r][1..] == [];
    } else {
      assert (replies + [r])[0] == replies[0] && (replies + [r])[1..] == replies[1..] + [r];
      InLineReply(replies[1..], r, rest, after);
      FinishedConcat(replies, [r]);
      assert Finished(replies + [r]) + after == Finished(replies) + rest;
    }
  }

  // ---------------------------------------------------------------- one step

  lemma MadeKeeps(s: State, more: bool, oneway: bool, accepted: bool)
    requires Inv(s)
    ensures Inv(Made(s, more, oneway, accepted)) <==> accepted || oneway
  {
    hide InLine, Finished, TwoWay;
    var c := Call(s.made, more, oneway);
    TwoWayConcat(s.requests, [c]);
    TwoWayOne(c);
    var rest := Unanswered(s);
    assert CurrentTwoWay(s) + (TwoWay(s.requests) + TwoWay([c])) == rest + TwoWay([c]);
    InLineLonger(s.replies, rest, TwoWay([c]));
    assert Finished(s.replies) + (rest + TwoWay([c])) == s.pending + TwoWay([c]);
  }

  lemma DispatchedKeeps(s: State)
    requires Inv(s)
    ensures Inv(Dispatched(s))
  {
    hide InLine, Finished;
    if s.current.None? && s.requests != [] {
      assert s.requests == [s.requests[0]] + s.requests[1..];
      assert Unanswered(Dispatched(s)) == Unanswered(s);
    }
  }

  lemma RepliedKeeps(s: State, call: Call, continues: bool, accepted: bool)
    requires Inv(s)
    ensures Inv(Replied(s, call, continues, accepted)) <==>
      (accepted && s.current == Some(call) && continues && !call.oneway ==> call.more)
  {
    hide InLine, Finished, TwoWay;
    if s.current == Some(call) && !call.oneway && accepted {
      AdvancedKeeps(s, Reply(call, continues));
    }
  }

  /** Answering the current call keeps the invariant if the call takes a reply and, for a reply to be continued,
      asked for more. */
  lemma AdvancedKeeps(s: State, r: Reply)
    requires Inv(s) && s.current == Some(r.call) && (r.call.oneway ==> !r.continues)
    ensures Inv(Advanced(s, r)) <==> !r.call.oneway && (r.continues ==> r.call.more)
  {
    hide InLine, Finished, TwoWay;
    var t := Advanced(s, r);
    var before, after := Unanswered(s), Unanswered(t);
    FinishedOne(r);
    FinishedConcat(s.replies, [r]);
    assert Finished(t.replies) + after == Finished(s.replies) + (Finished([r]) + after);
    if r.call.oneway {
      assert |Finished(t.replies) + after| == |s.pending| + 1;
    } else {
      assert before == Finished([r]) + after;
      InLineReply(s.replies, r, before, after);
    }
  }

  lemma FailedKeeps(s: State, call: Call, accepted: bool)
    requires Inv(s)
    ensures Inv(Failed(s, call, accepted)) <==> (accepted && s.current == Some(call) ==> !call.oneway)
  {
    hide InLine, Finished, TwoWay;
    if s.current == Some(call) && accepted {
      AdvancedKeeps(s, Reply(call, false));
    }
  }

  lemma ReceivedKeeps(s: State)
    requires Inv(s)
    ensures Inv(Received(s))
    ensures s.replies != [] ==> s.pending != [] && s.pending[0] == s.replies[0].call
  {
    hide TwoWay;
    if s.replies != [] {
      var r := s.replies[0];
      var rest := Finished(s.replies[1..]) + Unanswered(s);
      assert s.pending == (if r.continues then [] else [r.call]) + rest;
    }
  }

  /** A step from a good state leads to a good state exactly when the users of the library keep to what is allowed. */
  lemma StepKeepsExactly(s: State, e: Step)
    requires Inv(s)
    ensures Inv(After(s, e)) <==> Allowed(s, e)
  {
    hide Inv;
    match e
    case ClientCall(more, oneway, accepted) => MadeKeeps(s, more, oneway, accepted);
    case Dispatch => DispatchedKeeps(s);
    case ServerReply(call, continues, accepted) => RepliedKeeps(s, call, continues, accepted);
    case ServerError(call, accepted) => FailedKeeps(s, call, accepted);
    case Receive => ReceivedKeeps(s);
  }

  // ---------------------------------------------------------------- whole runs

  lemma {:induction false} RunKeeps(s: State, steps: seq<Step>)
    requires Inv(s) && AllAllowed(s, steps)
    ensures Inv(Run(s, steps))
    decreases steps
  {
    hide Inv, After, Allowed;
    if steps != [] {
      StepKeepsExactly(s, steps[0]);
      RunKeeps(After(s, steps[0]), steps[1..]);
    }
  }

  lemma InitialInv()
    ensures Inv(INITIAL) && ServerInv(INITIAL)
  {
  }

  /** In every run, however the two sides interleave, the client never has to report an invalid message, every
      callback gets the replies to its own call only, and the callbacks that wait are those of the calls whose
      final reply is under way, of the call the server works on, and of the calls under way, in this order. */
  lemma RepliesReachTheirCalls(steps: seq<Step>)
    requires AllAllowed(INITIAL, steps)
    ensures var s := Run(INITIAL, steps);
      && !s.invalid
      && (forall d <- s.log :: d.callback == d.reply.call)
      && s.pending == Finished(s.replies) + CurrentTwoWay(s) + TwoWay(s.requests)
      && (s.replies != [] ==> s.pending != [] && s.pending[0] == s.replies[0].call)
  {
    hide Run, AllAllowed, InLine, Finished, TwoWay;
    InitialInv();
    RunKeeps(INITIAL, steps);
    var s := Run(INITIAL, steps);
    ReceivedKeeps(s);
    assert Finished(s.replies) + (CurrentTwoWay(s) + TwoWay(s.requests)) ==
      Finished(s.replies) + CurrentTwoWay(s) + TwoWay(s.requests);
  }

  /** Where the users do not keep to it: a reply reaches the wrong callback, or the client gives up. */
  lemma FailedCallMisdirects()
    ensures var s := Run(INITIAL, [ClientCall(false, false, false), ClientCall(false, false, true), Dispatch,
                                   ServerReply(Call(1, false, false), false, true), Receive]);
      s.log == [Delivery(Call(0, false, false), Reply(Call(1, false, false), false))]
  {
    var a, b := Call(0, false, false), Call(1, false, false);
    Run5(INITIAL, ClientCall(false, false, false), ClientCall(false, false, true), Dispatch,
      ServerReply(b, false, true), Receive);
  }

  lemma ErrorToOneWayMisdirects()
    ensures var s := Run(INITIAL, [ClientCall(false, true, true), ClientCall(false, false, true), Dispatch,
                                   ServerError(Call(0, false, true), true), Receive]);
      s.log == [Delivery(Call(1, false, false), Reply(Call(0, false, true), false))]
  {
    var a := Call(0, false, true);
    Run5(INITIAL, ClientCall(false, true, true), ClientCall(false, false, true), Dispatch, ServerError(a, true),
      Receive);
  }

  lemma ContinuedWithoutMoreIsInvalid()
    ensures Run(INITIAL, [ClientCall(false, false, true), Dispatch, ServerReply(Call(0, false, false), true, true),
      Receive, Receive]).invalid
  {
    var a := Call(0, false, false);
    Run5(INITIAL, ClientCall(false, false, true), Dispatch, ServerReply(a, true, true), Receive, Receive);
  }

  lemma RunOne(s: State, e: Step, rest: seq<Step>)
    ensures Run(s, [e] + rest) == Run(After(s, e), rest)
  {
    hide After;
    assert ([e] + rest)[0] == e && ([e] + rest)[1..] == rest;
  }

  lemma Run5(s: State, a: Step, b: Step, c: Step, d: Step, e: Step)
    ensures Run(s, [a, b, c, d, e]) == After(After(After(After(After(s, a), b), c), d), e)
  {
    hide After;
    assert [a, b, c, d, e] == [a] + ([b] + ([c] + ([d] + ([e] + []))));
    hide Run;
    RunOne(s, a, [b] + ([c] + ([d] + ([e] + []))));
    var t := After(s, a);
    RunOne(t, b, [c] + ([d] + ([e] + [])));
    var u := After(t, b);
    RunOne(u, c, [d] + ([e] + []));
    var v := After(u, c);
    RunOne(v, d, [e] + []);
    RunOne(After(v, d), e, []);
    RunNone(After(After(v, d), e));
  }

  lemma RunNone(s: State)
    ensures Run(s, []) == s
  {
  }

  // ---------------------------------------------------------------- progress

  /** What is still to be done for the calls that have been made. */
  function Work(s: State): nat {
    4 * |s.requests| + (if s.current.Some? then 2 else 0) + |s.replies|
  }

  /** A step that brings a good state closer to the end. */
  function Next(s: State): Step {
    if s.replies != [] then Receive
    else if s.current.Some? then ServerReply(s.current.value, false, true)
    else Dispatch
  }

  function Finish(s: State): (steps: seq<Step>)
    requires Inv(s)
    decreases Work(s)
  {
    if Work(s) == 0 then []
    else
      StepKeepsExactly(s, Next(s));
      [Next(s)] + Finish(After(s, Next(s)))
  }

  /** No good state is stuck: there is an allowed way on after which every callback has been served. */
  lemma {:induction false} CallsCanFinish(s: State)
    requires Inv(s)
    ensures AllAllowed(s, Finish(s))
    ensures var t := Run(s, Finish(s)); Inv(t) && t.pending == [] && Work(t) == 0
    decreases Work(s)
  {
    if Work(s) > 0 {
      StepKeepsExactly(s, Next(s));
      CallsCanFinish(After(s, Next(s)));
      assert Finish(s)[1..] == Finish(After(s, Next(s)));
    }
  }

  // ---------------------------------------------------------------- harm

  /** The client has given up, or a callback was given a reply to another call. */
  ghost predicate Harmed(s: State) {
    s.invalid || exists d <- s.log :: d.callback != d.reply.call
  }

  /** From here the users may go on as they are allowed to, and harm is done. */
  ghost predicate Harmful(s: State) {
    exists steps :: AllAllowed(s, steps) && Harmed(Run(s, steps))
  }

  lemma {:induction false} RunConcat(s: State, a: seq<Step>, b: seq<Step>)
    ensures Run(s, a + b) == Run(Run(s, a), b)
    ensures AllAllowed(s, a + b) <==> AllAllowed(s, a) && AllAllowed(Run(s, a), b)
    decreases a
  {
    hide After, Allowed;
    if a == [] {
      assert a + b == b;
    } else {
      assert (a + b)[0] == a[0] && (a + b)[1..] == a[1..] + b;
      RunConcat(After(s, a[0]), a[1..], b);
    }
  }

  /** Harm that follows after some allowed steps follows. */
  lemma HarmfulLater(s: State, steps: seq<Step>)
    requires AllAllowed(s, steps) && Harmful(Run(s, steps))
    ensures Harmful(s)
  {
    hide Run, AllAllowed, Harmed;
    var more :| AllAllowed(Run(s, steps), more) && Harmed(Run(Run(s, steps), more));
    RunConcat(s, steps, more);
  }

  lemma HarmfulNext(s: State, e: Step)
    requires Allowed(s, e) && Harmful(After(s, e))
    ensures Harmful(s)
  {
    hide Harmful, After, Allowed;
    RunOne(s, e, []);
    assert [e] + [] == [e];
    RunNone(After(s, e));
    HarmfulLater(s, [e]);
  }

  lemma HarmfulNow(s: State)
    requires Harmed(s)
    ensures Harmful(s)
  {
    RunNone(s);
    assert AllAllowed(s, []);
  }

  /** The client reads the replies under way, of which the last is the one that should not have been sent. */
  lemma {:induction false} BadReplyHarms(s: State, r: Reply)
    requires Inv(s) && (r.continues ==> !r.call.more)
    requires Unanswered(s) != [] ==> if r.continues then Unanswered(s)[0] == r.call else Unanswered(s)[0] != r.call
    ensures Harmful(s.(replies := s.replies + [r]))
    decreases |s.replies|
  {
    hide Harmful, InLine;
    var bad := s.(replies := s.replies + [r]);
    ReceivedKeeps(s);
    if s.replies == [] {
      HarmfulNow(Received(bad));
    } else {
      assert bad.replies[0] == s.replies[0] && bad.replies[1..] == s.replies[1..] + [r];
      assert Received(bad) == Received(s).(replies := Received(s).replies + [r]);
      BadReplyHarms(Received(s), r);
    }
    HarmfulNext(bad, Receive);
  }

  /** The state with one more callback, of a call that was never sent. */
  function Stranded(s: State, more: bool): State {
    s.(made := s.made + 1, pending := s.pending + [Call(s.made, more, false)])
  }

  lemma StrandedNext(s: State, more: bool)
    requires Inv(s) && Work(s) > 0
    ensures var e := Next(s);
      && Allowed(Stranded(s, more), e) && After(Stranded(s, more), e) == Stranded(After(s, e), more)
      && Inv(After(s, e)) && Work(After(s, e)) < Work(s)
  {
    hide InLine, Finished, TwoWay, Unanswered;
    StepKeepsExactly(s, Next(s));
    ReceivedKeeps(s);
    if s.replies != [] {
      InvValid(After(s, Next(s)));
      var tail := [Call(s.made, more, false)];
      assert (s.pending + tail)[1..] == s.pending[1..] + tail;
    }
  }

  /** All other calls are finished first; then the next call's reply goes to the callback that is left over. */
  lemma {:induction false} StrandedHarms(s: State, more: bool)
    requires Inv(s)
    ensures Harmful(Stranded(s, more))
    decreases Work(s)
  {
    hide Harmful, After, Allowed, InLine;
    var bad := Stranded(s, more);
    if Work(s) == 0 {
      NextCallHarms(bad);
    } else {
      hide Inv, Stranded, Work;
      StrandedNext(s, more);
      StrandedHarms(After(s, Next(s)), more);
      HarmfulNext(bad, Next(s));
    }
  }

  lemma NextCallHarms(s: State)
    requires !s.invalid && s.requests == [] && s.current == None && s.replies == []
    requires |s.pending| == 1 && s.pending[0].id < s.made
    ensures Harmful(s)
  {
    hide Harmful;
    var d := Call(s.made, false, false);
    var a := After(s, ClientCall(false, false, true));
    var b := After(a, Dispatch);
    var c := After(b, ServerReply(d, false, true));
    var t := After(c, Receive);
    assert t.log[|t.log|-1] in t.log;
    HarmfulNow(t);
    HarmfulNext(c, Receive);
    HarmfulNext(b, ServerReply(d, false, true));
    HarmfulNext(a, Dispatch);
    HarmfulNext(s, ClientCall(false, false, true));
  }

  lemma AllTwoWay(calls: seq<Call>)
    ensures forall i :: 0 <= i < |TwoWay(calls)| ==> !TwoWay(calls)[i].oneway
  {
  }

  /** Nothing less will do: after any step that is not allowed, from any good state, the users may keep to what is
      allowed from then on, and still the client gives up or a callback is given a reply to another call. */
  lemma UnallowedStepHarms(s: State, e: Step)
    requires Inv(s) && !Allowed(s, e)
    ensures Harmful(After(s, e))
  {
    hide Harmful, InLine, Finished, TwoWay;
    match e
    case ClientCall(more, _, _) => StrandedHarms(s, more);
    case ServerReply(call, _, _) =>
      var r := Reply(call, true);
      BadReplyHarms(s.(answered := s.answered + [r]), r);
    case ServerError(call, _) =>
      var r := Reply(call, false);
      var t := s.(answered := s.answered + [r], current := None);
      AllTwoWay(s.requests);
      BadReplyHarms(t, r);
    case _ =>
  }

  /** The conditions are exact: a step from a good state can lead to harm, with only allowed steps behind it, exactly
      when it is not allowed itself. */
  lemma HarmExactly(s: State, e: Step)
    requires Inv(s)
    ensures Harmful(After(s, e)) <==> !Allowed(s, e)
  {
    hide Allowed, After, Inv, Harmed;
    if Allowed(s, e) {
      StepKeepsExactly(s, e);
      forall steps | AllAllowed(After(s, e), steps) ensures !Harmed(Run(After(s, e), steps)) {
        RunKeeps(After(s, e), steps);
        GoodUnharmed(Run(After(s, e), steps));
      }
    } else {
      UnallowedStepHarms(s, e);
    }
  }

  lemma GoodUnharmed(s: State)
    requires Inv(s)
    ensures !Harmed(s)
  {
  }

  // ---------------------------------------------------------------- the server's side

  /** The answers to one call: replies to be continued and then one that is final, which is still to come while the
      server works on the call; none if the call takes no reply, unless it is answered with an error. */
  predicate Answers(c: Call, open: bool, mine: seq<Reply>) {
    && (forall r <- mine :: r.call == c)
    && if c.oneway then mine == [] || (!open && mine == [Reply(c, false)])
       else if open then forall r <- mine :: r.continues
       else mine != [] && !mine[|mine|-1].continues && forall r <- mine[..|mine|-1] :: r.continues
  }

  /** The answers lie in the order of the calls, one call after the other. */
  ghost predicate Conversation(started: seq<Call>, open: bool, answered: seq<Reply>) {
    if started == [] then answered == []
    else exists k :: 0 <= k <= |answered| && Answers(started[|started|-1], open, answered[k..])
                     && Conversation(started[..|started|-1], false, answered[..k])
  }

  ghost predicate ServerInv(s: State) {
    && Conversation(s.started, s.current.Some?, s.answered)
    && (s.current.Some? ==> s.started != [] && s.started[|s.started|-1] == s.current.value)
  }

  /** The conversation goes on with an answer to the last call. */
  lemma ConversationAnswered(started: seq<Call>, answered: seq<Reply>, r: Reply)
    requires started != [] && Conversation(started, true, answered)
    requires r.call == started[|started|-1] && (r.call.oneway ==> !r.continues)
    ensures Conversation(started, r.continues, answered + [r])
  {
    hide Answers;
    var k :| 0 <= k <= |answered| && Answers(r.call, true, answered[k..])
             && Conversation(started[..|started|-1], false, answered[..k]);
    AnswersGrow(r.call, answered[k..], r);
    assert (answered + [r])[..k] == answered[..k] && (answered + [r])[k..] == answered[k..] + [r];
  }

  /** The last call needs no answer. */
  lemma ConversationEnds(started: seq<Call>, answered: seq<Reply>)
    requires started != [] && Conversation(started, true, answered) && started[|started|-1].oneway
    ensures Conversation(started, false, answered)
  {
    var c := started[|started|-1];
    var k :| 0 <= k <= |answered| && Answers(c, true, answered[k..])
             && Conversation(started[..|started|-1], false, answered[..k]);
    assert Answers(c, false, answered[k..]);
  }

  lemma ConversationStarts(started: seq<Call>, answered: seq<Reply>, c: Call)
    requires Conversation(started, false, answered)
    ensures Conversation(started + [c], true, answered)
  {
    hide Conversation;
    assert answered[|answered|..] == [] && answered[..|answered|] == answered;
    assert (started + [c])[..|started|] == started;
    assert Answers(c, true, answered[|answered|..]);
    ConversationSplit(started + [c], true, answered, |answered|);
  }

  lemma ConversationSplit(started: seq<Call>, open: bool, answered: seq<Reply>, k: nat)
    requires started != [] && k <= |answered| && Answers(started[|started|-1], open, answered[k..])
    requires Conversation(started[..|started|-1], false, answered[..k])
    ensures Conversation(started, open, answered)
  {
  }

  lemma AnswersGrow(c: Call, mine: seq<Reply>, r: Reply)
    requires Answers(c, true, mine) && r.call == c && (c.oneway ==> !r.continues)
    ensures Answers(c, r.continues, mine + [r])
  {
  }

  /** A server never takes up a request before it is done with the last one, answers no call but the current one,
      and gives to each call its answers. */
  lemma ServerStep(s: State, e: Step)
    requires ServerInv(s)
    ensures ServerInv(After(s, e))
    ensures s.current.Some? ==> After(s, e).started == s.started
    ensures After(s, e).answered == s.answered ||
            exists r :: After(s, e).answered == s.answered + [r] && s.current == Some(r.call)
  {
    hide Conversation, Answers;
    var t := After(s, e);
    match e
    case Dispatch =>
      if s.current.None? && s.requests != [] {
        ConversationStarts(s.started, s.answered, s.requests[0]);
      }
    case ServerReply(call, continues, accepted) =>
      if s.current == Some(call) {
        ServerAnswers(s, Reply(call, continues));
      }
    case ServerError(call, accepted) =>
      if s.current == Some(call) {
        ServerAnswers(s, Reply(call, false));
      }
    case _ =>
  }

  lemma ServerAnswers(s: State, r: Reply)
    requires ServerInv(s) && s.current == Some(r.call)
    ensures r.call.oneway ==> Conversation(s.started, false, s.answered)
    ensures !(r.call.oneway && r.continues) ==> Conversation(s.started, r.continues, s.answered + [r])
  {
    hide Conversation, Answers;
    if r.call.oneway {
      ConversationEnds(s.started, s.answered);
    }
    if !r.call.oneway || !r.continues {
      ConversationAnswered(s.started, s.answered, r);
    }
  }

  /** The replies that callbacks were given, in order. */
  function Given(log: seq<Delivery>): seq<Reply> {
    if log == [] then [] else Given(log[..|log|-1]) + [log[|log|-1].reply]
  }

  lemma ServerRun(s: State, steps: seq<Step>)
    requires ServerInv(s) && Inv(s) && s.answered == Given(s.log) + s.replies && AllAllowed(s, steps)
    requires forall r <- s.answered :: !r.call.oneway
    ensures var t := Run(s, steps); ServerInv(t) && Inv(t) && t.answered == Given(t.log) + t.replies
    ensures forall r <- Run(s, steps).answered :: !r.call.oneway
    decreases steps
  {
    hide ServerInv, Inv, After, Allowed;
    if steps != [] {
      StepKeepsExactly(s, steps[0]);
      NoReplyToOneWay(s, steps[0]);
      ServerStep(s, steps[0]);
      GivenStep(s, steps[0]);
      ServerRun(After(s, steps[0]), steps[1..]);
    }
  }

  lemma NoReplyToOneWay(s: State, e: Step)
    requires Allowed(s, e) && forall r <- s.answered :: !r.call.oneway
    ensures forall r <- After(s, e).answered :: !r.call.oneway
  {
  }

  lemma GivenStep(s: State, e: Step)
    requires Inv(s) && s.answered == Given(s.log) + s.replies
    ensures After(s, e).answered == Given(After(s, e).log) + After(s, e).replies
  {
    hide Inv, Given;
    if e.Receive? {
      GivenReceived(s);
    } else {
      var t := After(s, e);
      var more := t.replies[|s.replies|..];
      assert t.log == s.log && t.replies == s.replies + more && t.answered == s.answered + more;
      assert Given(s.log) + (s.replies + more) == Given(s.log) + s.replies + more;
    }
  }

  lemma GivenReceived(s: State)
    requires Inv(s) && s.answered == Given(s.log) + s.replies
    ensures Received(s).answered == Given(Received(s).log) + Received(s).replies
  {
    hide Inv, Given;
    ReceivedKeeps(s);
    InvValid(s);
    InvValid(Received(s));
    if s.replies != [] {
      var first, rest := s.replies[0], s.replies[1..];
      assert s.replies == [first] + rest;
      assert Given(s.log) + ([first] + rest) == Given(s.log) + [first] + rest;
      GivenOne(s.log, Delivery(s.pending[0], first));
    }
  }

  lemma GivenOne(log: seq<Delivery>, d: Delivery)
    ensures Given(log + [d]) == Given(log) + [d.reply]
  {
    assert (log + [d])[..|log|] == log;
  }

  lemma InvValid(s: State)
    requires Inv(s)
    ensures !s.invalid
  {
  }

  /** In every run, the replies given to callbacks and those under way make up, for the calls the server took up
      and in their order, replies to be continued and then one final reply for each call, nothing for calls that
      take no reply, and the beginning of that for the call the server is working on. */
  lemma EachCallIsAnsweredOnce(steps: seq<Step>)
    requires AllAllowed(INITIAL, steps)
    ensures var s := Run(INITIAL, steps);
      && Conversation(s.started, s.current.Some?, Given(s.log) + s.replies)
      && (forall r <- Given(s.log) + s.replies :: !r.call.oneway)
      && (forall d <- s.log :: d.callback == d.reply.call)
  {
    hide Run, AllAllowed, Conversation;
    InitialInv();
    assert INITIAL.answered == Given(INITIAL.log) + INITIAL.replies;
    ServerRun(INITIAL, steps);
  }
}
