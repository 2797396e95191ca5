/** What is asked of the two sides of a connection whose server answers by the methods of a service: no one-way call may
    be made that the service has to refuse (lib/service.c). */
module Fairness {
  import opened Errors
  import opened Json
  import opened JsonRoundTrip
  import opened Message
  import opened Descriptors
  import opened Streams
  import opened Protocol
  import opened Directories
  import opened Sessions
  import opened Dispatching
  import Connections
  import Literals
  import Services

  /** All answers that pass the checks of errors are fair. */
  ghost predicate FairPlan(d: Directory, q: Message.Call, plan: Services.Plan) {
    forall a <- plan.answers :: Services.Checked(d, q.name, a).Success? ==> FairAnswer(q.flags, Services.Intended(a))
  }

  // ---------------------------------------------------------------- handlers

  lemma {:induction false} ServesKeeps(d: Directory, was: seq<Services.Note>, answers: seq<Services.Answer>,
      notes: seq<Services.Note>, outcomes: seq<Outcome>)
    requires Services.Serves(d, Services.Replay(was), answers, notes, outcomes)
    ensures Services.Replay(was + notes).requests == Services.Replay(was).requests
    decreases answers
  {
    hide Services.Replay, Services.OutcomeOf, Services.Checked;
    if answers == [] {
      assert was + notes == was;
    } else if !Services.Replay(was).busy {
      ServesKeeps(d, was, answers[1..], notes, outcomes[1..]);
    } else {
      Services.ReplayMore(was, notes[0]);
      ServesKeeps(d, was + [notes[0]], answers[1..], notes[1..], outcomes[1..]);
      assert was + notes == was + [notes[0]] + notes[1..];
    }
  }

  lemma FairMore(was: seq<Services.Note>, n: Services.Note)
    requires FairNotes(was) && FairNote(Services.Replay(was), n)
    ensures FairNotes(was + [n])
  {
    hide FairNote, Services.Replay;
    assert (was + [n])[..|was|] == was;
  }

  lemma {:induction false} ServesFair(d: Directory, was: seq<Services.Note>, answers: seq<Services.Answer>,
      notes: seq<Services.Note>, outcomes: seq<Outcome>)
    requires FairNotes(was) && Services.Serves(d, Services.Replay(was), answers, notes, outcomes)
    requires Services.Replay(was).requests != []
    requires var requests := Services.Replay(was).requests; var q := requests[|requests|-1];
      forall a <- answers :: Services.Checked(d, q.name, a).Success? ==> FairAnswer(q.flags, Services.Intended(a))
    ensures FairNotes(was + notes)
    decreases answers
  {
    hide Services.Replay, Services.Checked, FairNotes, FairAnswer, ResponseText, Room, OneWay, Services.Continued;
    if answers == [] {
      assert was + notes == was;
    } else if !Services.Replay(was).busy {
      ServesFair(d, was, answers[1..], notes, outcomes[1..]);
    } else {
      var n := notes[0];
      OneWayFair(Services.Replay(was), n);
      FairMore(was, n);
      Services.ReplayMore(was, n);
      ServesFair(d, was + [n], answers[1..], notes[1..], outcomes[1..]);
      assert was + notes == was + [n] + notes[1..];
    }
  }

  lemma OneWayFair(s: Services.Server, n: Services.Note)
    requires s.busy && n.Tried?
    requires n.checked.Success? ==> FairAnswer(s.requests[|s.requests|-1].flags, Services.Intended(n.answer))
    ensures FairNote(s, n)
  {
    hide Unforgeable, More, OneWay, Services.Continued, ResponseText, Room;
  }

  /** What a handler of one request does. */
  lemma HandlesFair(d: Directory, was: seq<Services.Note>, handler: Message.Call -> Services.Plan,
      notes: seq<Services.Note>, ok: bool)
    requires Services.Handles(d, Services.Replay(was), handler, notes, ok)
    ensures notes != [] && notes[0].TookUp?
    ensures Services.Replay(was + notes).requests == Services.Replay(was).requests + [notes[0].request]
    ensures FairNotes(was) && FairPlan(d, notes[0].request, handler(notes[0].request)) ==> FairNotes(was + notes)
  {
    hide Services.Replay, Services.Checked, FairNotes, FairAnswer, Services.Serves;
    var n, q := notes[0], notes[0].request;
    var outcomes :| Services.Serves(d, Services.AfterNote(Services.Replay(was), n), handler(q).answers, notes[1..],
      outcomes);
    Services.ReplayMore(was, n);
    ServesKeeps(d, was + [n], handler(q).answers, notes[1..], outcomes);
    assert was + notes == was + [n] + notes[1..];
    if FairNotes(was) && FairPlan(d, q, handler(q)) {
      FairMore(was, n);
      ServesFair(d, was + [n], handler(q).answers, notes[1..], outcomes);
    }
  }

  /** Handlers whose plans are fair leave fair histories. */
  lemma {:induction false} HandledFair(d: Directory, was: seq<Services.Note>, handler: Message.Call -> Services.Plan,
      notes: seq<Services.Note>, ok: bool)
    requires FairNotes(was) && Services.Handled(d, was, handler, notes, ok)
    requires forall q <- Services.Replay(was + notes).requests :: FairPlan(d, q, handler(q))
    ensures FairNotes(was + notes)
    decreases |notes|
  {
    hide Services.Replay, FairNotes, FairPlan, Services.Handles;
    if notes == [] {
      assert was + notes == was;
    } else {
      var k :| 0 <= k < |notes| && Services.Handled(d, was, handler, notes[..k], true)
        && Services.Handles(d, Services.Replay(was + notes[..k]), handler, notes[k..], ok);
      var front, more := notes[..k], notes[k..];
      assert was + notes == was + front + more;
      HandlesFair(d, was + front, handler, more, ok);
      HandledFair(d, was, handler, front, true);
      var requests := Services.Replay(was + notes).requests;
      assert requests[|requests|-1] == more[0].request;
    }
  }

  // ---------------------------------------------------------------- a service

  /** The callbacks of the user give fair answers. */
  ghost predicate FairCallbacks(v: Service) {
    forall q: Message.Call :: !ByLibrary(v, q) ==> FairPlan(v.directory, q, Respond(v, q))
  }

  /** The service refuses the call with an error that is sent. */
  predicate Refused(v: Service, q: Message.Call) {
    !Served(v, q) && !Find(v, q.name).BadName?
  }

  /** One-way calls are made to methods only that the service has, and that are implemented. */
  ghost predicate Aware(v: Service, calls: seq<Connections.Entry>) {
    forall i :: 0 <= i < |calls| && calls[i].Calls? && OneWay(calls[i].call.request.flags) ==>
      !Refused(v, CallOf(calls[i].call.request))
  }

  lemma OwnUnforgeable(v: Service, q: Message.Call)
    requires ByLibrary(v, q)
    ensures var a := Services.Intended(OwnAnswer(v, q)); Unforgeable(a.parameters) && !Services.Continued(a)
  {
    hide Find, Printable, OneString, Info, FieldOf, FullName, AskedAbout, UpToNul;
    InfoPrintable(v);
    forall e: OwnError, s ensures Printable(Obj(OneString(FieldOf(e), s))) {
      FieldPlain(e);
      OnePrintable(FieldOf(e), s);
    }
    forall s ensures Printable(Obj(OneString("description", s))) {
      OnePrintable("description", s);
    }
  }

  lemma FieldPlain(e: OwnError)
    ensures Literals.Unquoted(FieldOf(e))
  {
  }

  lemma OnePrintable(name: CString, s: string)
    requires Literals.Unquoted(name)
    ensures Printable(Obj(OneString(name, s)))
  {
  }

  lemma InfoPrintable(v: Service)
    ensures Printable(Obj(Info(v)))
  {
    hide SetAll, InfoFields;
    SetAllFrom(InfoFields(v));
    forall i | 0 <= i < |Info(v)| ensures Literals.Unquoted(Info(v)[i].name) && Printable(Info(v)[i].value) {
      InfoField(v, Info(v)[i]);
    }
  }

  /** A service is fair to a call unless the call is one-way and is refused. */
  lemma RespondFair(v: Service, q: Message.Call)
    requires Complete(v) && FairCallbacks(v) && (OneWay(q.flags) ==> !Refused(v, q))
    ensures FairPlan(v.directory, q, Respond(v, q))
  {
    hide Complete, OwnAnswer, Served, Find, ByLibrary, Unforgeable, OneWay, More, Services.Checked;
    if ByLibrary(v, q) {
      OwnUnforgeable(v, q);
      ErrorIffNotServed(v, q);
    }
  }

  /** When a service handles what has arrived, the server stays fair, if the client has made no one-way call that the
      service refuses. The client can tell from the service's description of its interfaces, before the call. */
  method ServeEvents(x: Session, v: Service, ready: set<Event>) returns (r: Outcome)
    requires x.Valid() && !x.server.closed && x.server.directory == v.directory
    requires Complete(v) && FairCallbacks(v)
    modifies x.server.Repr()
    ensures x.Valid() && x.client.history == old(x.client.history) && old(x.server.history) <= x.server.history
    ensures if old(Services.FlushFails(x.server, ready)) then !r.Success? && x.server.history == old(x.server.history)
      else if EPOLLIN !in ready then r.Success? && x.server.history == old(x.server.history)
      else Services.Dispatched(x.server, ready, old(x.server.history), Dispatcher(v),
             Interruption(old(x.server.stream.fd.incoming)), r)
    ensures Fair(x.client.history, old(x.server.history)) && Aware(v, x.client.history) ==>
              Fair(x.client.history, x.server.history)
  {
    hide Complete, FairCallbacks, Session.Valid, Fair, Services.Handled, Interruption, Services.StopsReading;
    ghost var was := x.server.history;
    r := x.ServerEvents(ready, Dispatcher(v));
    Services.HandledNone(x.server.directory, was, Dispatcher(v));
    assert x.server.history == was ==> x.server.history[|was|..] == [];
    if Fair(x.client.history, was) && Aware(v, x.client.history) {
      ServedFair(x, v, was);
    }
  }

  lemma ServedFair(x: Session, v: Service, was: seq<Services.Note>)
    requires x.Valid() && x.server.directory == v.directory && Complete(v) && FairCallbacks(v)
    requires was <= x.server.history
    requires var notes := x.server.history[|was|..];
      || Services.Handled(x.server.directory, was, Dispatcher(v), notes, true)
      || Services.Handled(x.server.directory, was, Dispatcher(v), notes, false)
    requires Fair(x.client.history, was) && Aware(v, x.client.history)
    ensures Fair(x.client.history, x.server.history)
  {
    hide Complete, FairCallbacks, FairPlan, FairNotes, Services.Handled, FairEntry, Aware, Session.Valid, Session.Wired,
      Services.Replay, Dispatcher;
    var notes := x.server.history[|was|..];
    assert was + notes == x.server.history;
    FairRequests(x, v);
    if Services.Handled(v.directory, was, Dispatcher(v), notes, true) {
      HandledFair(v.directory, was, Dispatcher(v), notes, true);
    } else {
      HandledFair(v.directory, was, Dispatcher(v), notes, false);
    }
  }

  lemma FairRequests(x: Session, v: Service)
    requires x.Valid() && Complete(v) && FairCallbacks(v) && Aware(v, x.client.history)
    requires forall i :: 0 <= i < |x.client.history| ==> FairEntry(x.client.history[i])
    ensures forall q <- x.server.Now().requests :: FairPlan(v.directory, q, Dispatcher(v)(q))
  {
    hide Complete, FairCallbacks, FairPlan, FairEntry, CallOf, Respond, OneWay, Refused, Connections.Replay,
      Services.Replay;
    ServerHears(x.client, x.server);
    var c, requests := x.client.Now(), x.server.Now().requests;
    forall k | 0 <= k < |requests| ensures FairPlan(v.directory, requests[k], Respond(v, requests[k])) {
      var q := c.made[c.accepted[k]].request;
      MadeCalls(x.client.history, c.accepted[k]);
      OneWayArrives(q);
      RespondFair(v, requests[k]);
    }
  }

  lemma OneWayArrives(q: Request)
    ensures OneWay(CallOf(q).flags) == OneWay(q.flags)
  {
    FlagsSplit(q.flags);
  }

  // ---------------------------------------------------------------- what happens otherwise

  /** The condition is exact: from a good state, the library's own answer to a one-way call can lead to harm, although
      everyone keeps to what is allowed from then on, exactly when the service refuses the call and there is room for
      the error. */
  lemma OwnAnswerHarmsExactly(p: State, c: Connections.Client, s: Services.Server, v: Service, unsent: nat)
    requires Matches(p, c, s) && Inv(p) && s.busy && Complete(v)
    requires OneWay(LastOf(s).flags) && ByLibrary(v, LastOf(s))
    ensures p.current.Some?
    ensures var t := After(p, OwnStep(p.current.value, s, v, unsent));
      && Matches(t, c, Services.AfterNote(s, OwnNote(s, v, unsent)))
      && (Harmful(t) <==> Refused(v, LastOf(s)) && Room(unsent, |OwnText(s, v)|).Success?)
  {
    hide Matches, Inv, Complete, OwnAnswer, Find, Served, Harmful, After, Services.AfterNote, OneWay, More, Room,
      ResponseText, ByLibrary, ErrorCheck, Services.Continued;
    var q := LastOf(s);
    ErrorIffNotServed(v, q);
    OwnUnforgeable(v, q);
    ServerTries(p, c, s, OwnNote(s, v, unsent));
    CurrentCall(p, c, s);
    HarmExactly(p, OwnStep(p.current.value, s, v, unsent));
  }

  function LastOf(s: Services.Server): Message.Call
    requires s.busy
  {
    s.requests[|s.requests|-1]
  }

  function OwnText(s: Services.Server, v: Service): string
    requires s.busy && ByLibrary(v, LastOf(s))
  {
    ResponseText(Services.Intended(OwnAnswer(v, LastOf(s))))
  }

  function OwnNote(s: Services.Server, v: Service, unsent: nat): Services.Note
    requires s.busy && ByLibrary(v, LastOf(s))
  {
    var q, answer := LastOf(s), OwnAnswer(v, LastOf(s));
    Services.Tried(answer, Services.Checked(v.directory, q.name, answer), unsent)
  }

  /** The step of the protocol that the library takes when it answers by itself. */
  ghost function OwnStep(call: Protocol.Call, s: Services.Server, v: Service, unsent: nat): Step
    requires s.busy && ByLibrary(v, LastOf(s))
  {
    var n := OwnNote(s, v, unsent);
    Services.Answers(call, Services.Intended(n.answer), Services.OutcomeOf(s, n).Success?)
  }

  /** A call whose method has a malformed name gets no answer, and its handler fails: the connection is closed. */
  lemma BadNameFails(v: Service, s: Services.Server, notes: seq<Services.Note>, ok: bool)
    requires Complete(v) && Services.Handles(v.directory, s, Dispatcher(v), notes, ok)
    requires Find(v, notes[0].request.name).BadName?
    ensures !ok && |notes| == 2 && notes[1].Tried?
    ensures var t := Services.AfterNote(s, notes[0]); Services.AfterNote(t, notes[1]) == t
  {
    hide Complete, Find, ResponseText, Room, Services.Checked, OneWay, OwnAnswer, Services.OutcomeOf;
    var q := notes[0].request;
    ErrorIffNotServed(v, q);
    var t := Services.AfterNote(s, notes[0]);
    var outcomes :| Services.Serves(v.directory, t, [OwnAnswer(v, q)], notes[1..], outcomes)
      && ok == Last(outcomes).Success?;
    RefusedOutcome(t, notes[1]);
    assert [OwnAnswer(v, q)][1..] == [];
    assert Services.Serves(v.directory, Services.AfterNote(t, notes[1]), [], notes[1..][1..], outcomes[1..]);
    assert |outcomes| == 1;
  }

  /** An error that the checks refuse is not sent. */
  lemma RefusedOutcome(s: Services.Server, n: Services.Note)
    requires n.Tried? && n.answer.DoError? && !n.checked.Success?
    ensures !Services.OutcomeOf(s, n).Success?
  {
    hide ResponseText, Room;
  }
}
