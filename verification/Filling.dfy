/** How a buffer of input is filled, up to the end of the next message, and a buffer of output emptied, as functions of
    what the descriptor will answer (lib/stream.c). */
module Filling {
  import opened Text
  import opened Descriptors
  import opened Framing

  // ---------------------------------------------------------------- input

  /** What a reader holds when it stops, what is still to come, and why it stops. */
  datatype Filled = Filled(unread: string, incoming: seq<ReadEvent>, stop: Stop)

  function Fill(unread: string, incoming: seq<ReadEvent>): Filled
    requires |unread| <= BUFFER_SIZE
    decreases Weight(incoming)
  {
    if NulAt(unread, 0) < |unread| then Filled(unread, incoming, Whole)
    else if |unread| == BUFFER_SIZE then Filled(unread, incoming, Full)
    else
      ReadThroughTakes(incoming, BUFFER_SIZE - |unread|);
      var (r, rest) := ReadThrough(incoming, BUFFER_SIZE - |unread|);
      match r
      case Fails(e) => Filled(unread, rest, Cause(ReadError(e)))
      case Bytes(k) =>
        if k == 0 then Filled(unread, rest, HungUp) else Fill(unread + Arriving(incoming)[..k], rest)
  }

  /** One step of filling. */
  lemma FillStep(unread: string, incoming: seq<ReadEvent>)
    requires |unread| <= BUFFER_SIZE
    ensures NulAt(unread, 0) < |unread| ==> Fill(unread, incoming) == Filled(unread, incoming, Whole)
    ensures NulAt(unread, 0) == |unread| == BUFFER_SIZE ==> Fill(unread, incoming) == Filled(unread, incoming, Full)
    ensures NulAt(unread, 0) == |unread| < BUFFER_SIZE ==>
              var (n, rest) := ReadThrough(incoming, BUFFER_SIZE - |unread|);
              if n.Bytes? && n.n > 0 then
                && n.n <= |Arriving(incoming)| && n.n <= BUFFER_SIZE - |unread| && Weight(rest) < Weight(incoming)
                && Fill(unread, incoming) == Fill(unread + Arriving(incoming)[..n.n], rest)
              else
                Fill(unread, incoming) ==
                  Filled(unread, rest, if n.Bytes? then HungUp else Cause(ReadError(n.errno)))
  {
    hide Arriving, Weight, ReadThrough, Cause;
    if NulAt(unread, 0) == |unread| < BUFFER_SIZE {
      ReadThroughTakes(incoming, BUFFER_SIZE - |unread|);
      match ReadThrough(incoming, BUFFER_SIZE - |unread|).0 {
        case Fails(e) =>
        case Bytes(k) =>
      }
    }
  }

  /** What has been read and what is still to come are what was there, and only what does not depend on the messages
      stops a reader otherwise. */
  lemma {:induction false} FillKeeps(unread: string, incoming: seq<ReadEvent>)
    requires |unread| <= BUFFER_SIZE
    ensures var f := Fill(unread, incoming);
      && |f.unread| <= BUFFER_SIZE && unread <= f.unread
      && f.unread + Arriving(f.incoming) == unread + Arriving(incoming)
      && Weight(f.incoming) + |f.unread| <= Weight(incoming) + |unread|
      && (if f.stop in {Whole, Full} then Interruption(f.incoming) == Interruption(incoming)
          else (f.stop, f.incoming) == Interruption(incoming) && Weight(f.incoming) <= Weight(incoming))
      && (f.stop.Whole? <==> NulAt(f.unread, 0) < |f.unread|)
      && (f.stop.Full? ==> |f.unread| == BUFFER_SIZE) && (f.stop !in {Whole, Full} ==> |f.unread| < BUFFER_SIZE)
    decreases Weight(incoming)
  {
    hide Arriving, Weight, Interruption, ReadThrough, Cause;
    var n := BUFFER_SIZE - |unread|;
    if NulAt(unread, 0) == |unread| && n > 0 {
      ReadThroughTakes(incoming, n);
      ReadMeets(incoming, n);
      CauseStops();
      var (r, rest) := ReadThrough(incoming, n);
      if r.Bytes? && r.n > 0 {
        var got := Arriving(incoming)[..r.n];
        FillKeeps(unread + got, rest);
        assert unread + got + Arriving(rest) == unread + (got + Arriving(rest));
      } else {
        assert Arriving(incoming)[..0] + Arriving(rest) == Arriving(rest);
      }
    }
  }

  lemma CauseStops()
    ensures forall e :: Cause(e) in {Dry, HungUp, Broken}
  {
  }

  /** Everything that arrives steadily from the front. */
  function Steadily(events: seq<ReadEvent>): string {
    Arriving(events[..SteadyLength(events)])
  }

  lemma {:induction false} ArrivingConcat(a: seq<ReadEvent>, b: seq<ReadEvent>)
    ensures Arriving(a + b) == Arriving(a) + Arriving(b)
  {
    if a == [] {
      assert a + b == b;
    } else {
      assert (a + b)[0] == a[0] && (a + b)[1..] == a[1..] + b;
      ArrivingConcat(a[1..], b);
    }
  }

  /** What an interruption leaves behind. */
  lemma InterruptionLeaves(events: seq<ReadEvent>)
    ensures Arriving(events) == Steadily(events) + Arriving(Interruption(events).1)
  {
    hide Arriving;
    var k := SteadyLength(events);
    assert events == events[..k] + events[k..];
    ArrivingConcat(events[..k], events[k..]);
    if k < |events| {
      assert events[k..] == [events[k]] + events[k + 1..];
      ArrivingConcat([events[k]], events[k + 1..]);
      UnsteadyBringsNothing(events[k]);
    } else {
      assert events[k..] == [];
    }
  }

  lemma UnsteadyBringsNothing(e: ReadEvent)
    requires !Steady(e)
    ensures Arriving([e]) == ""
  {
    assert [e][1..] == [];
  }

  lemma NulAtPrefix(a: string, b: string)
    ensures NulAt(a, 0) < |a| ==> NulAt(a + b, 0) == NulAt(a, 0)
    ensures NulAt(a, 0) == |a| ==> NulAt(a + b, 0) >= |a|
  {
    var n := NulAt(a, 0);
    if n < |a| {
      NulAtIs(a + b, 0, n);
    } else {
      NulAtBehind(a + b, 0, |a|);
    }
  }

  /** What a reader comes to, however its input is chopped: with the bytes that arrive steadily behind those it holds,
      the first message in them if it ends inside the buffer; a full buffer if it does not; and if no message ends
      there, it has got all those bytes and has met the interruption behind them. */
  lemma FillExactly(unread: string, incoming: seq<ReadEvent>)
    requires |unread| <= BUFFER_SIZE
    ensures var f, all := Fill(unread, incoming), unread + Steadily(incoming);
      var n := NulAt(all, 0);
      if n < |all| && n < BUFFER_SIZE then
        f.stop.Whole? && NulAt(f.unread, 0) == n < |f.unread| && f.unread[..n] == all[..n]
      else if n >= BUFFER_SIZE then f.stop.Full? && |f.unread| == BUFFER_SIZE && f.unread == all[..BUFFER_SIZE]
      else f.unread == all && (f.stop, f.incoming) == Interruption(incoming)
  {
    hide Arriving, Steadily, Interruption, Fill;
    var f, all := Fill(unread, incoming), unread + Steadily(incoming);
    FillKeeps(unread, incoming);
    InterruptionLeaves(incoming);
    if f.stop in {Whole, Full} {
      InterruptionLeaves(f.incoming);
      Within(unread, f.unread, Steadily(incoming), Steadily(f.incoming), Arriving(Interruption(incoming).1));
      assert all == f.unread + Steadily(f.incoming);
      NulAtPrefix(f.unread, Steadily(f.incoming));
    } else {
      Same(unread, f.unread, Steadily(incoming), Arriving(f.incoming));
    }
  }

  lemma Within(a: string, b: string, x: string, y: string, rest: string)
    requires a + (x + rest) == b + (y + rest)
    ensures a + x == b + y
  {
    assert a + (x + rest) == a + x + rest && b + (y + rest) == b + y + rest;
    assert |a + x| == |b + y|;
    assert a + x == (a + x + rest)[..|a + x|] == (b + y + rest)[..|b + y|] == b + y;
  }

  lemma Same(a: string, b: string, x: string, rest: string)
    requires a + (x + rest) == b + rest
    ensures b == a + x
  {
    assert a + (x + rest) == a + x + rest;
    assert |a + x| == |b|;
    assert a + x == (a + x + rest)[..|a + x|] == (b + rest)[..|b|] == b;
  }

  /** When nothing disturbs what arrives, a reader that holds no more than it can gets the next message of the whole, or
      has read everything. */
  lemma FillDelivers(frames: seq<string>, unread: string, incoming: seq<ReadEvent>)
    requires AllNulFree(frames) && |unread| <= BUFFER_SIZE && AllSteady(incoming)
    ensures var f, whole := Fill(unread, incoming), Frames(Framed(frames) + unread + Arriving(incoming));
      && frames <= whole
      && (|whole| > |frames| && |whole[|frames|]| < BUFFER_SIZE ==>
            f.stop.Whole? && f.unread[..NulAt(f.unread, 0)] == whole[|frames|])
      && (|whole| == |frames| && |unread + Arriving(incoming)| < BUFFER_SIZE ==>
            f.stop.Dry? && f.incoming == [] && f.unread == unread + Arriving(incoming))
  {
    hide Arriving, Fill, Framed, Split;
    var all := unread + Arriving(incoming);
    SteadyAll(incoming);
    FillExactly(unread, incoming);
    assert Framed(frames) + unread + Arriving(incoming) == Framed(frames) + all;
    SplitFramed(frames, all);
    FirstFrame(all);
  }

  lemma FirstFrame(s: string)
    ensures var n := NulAt(s, 0);
      if n == |s| then Split(s) == ([], s) else |Split(s).0| > 0 && Split(s).0[0] == s[..n]
  {
  }

  lemma SteadyAll(events: seq<ReadEvent>)
    requires AllSteady(events)
    ensures Steadily(events) == Arriving(events) && Interruption(events) == (Dry, [])
  {
    var k := SteadyLength(events);
    assert forall i :: 0 <= i < |events| ==> Steady(events[i]);
    assert events[..|events|] == events;
  }

  /** What a read means for the messages on the stream: nothing is lost; the message that is handed on is the next one;
      and if there is none, then no message is complete. */
  lemma ReadMeans(frames: seq<string>, unread: string, incoming: seq<ReadEvent>)
    requires AllNulFree(frames) && |unread| <= BUFFER_SIZE
    ensures var f := Fill(unread, incoming);
      var n, got := NulAt(f.unread, 0), Framed(frames) + f.unread;
      && got + Arriving(f.incoming) == Framed(frames) + unread + Arriving(incoming)
      && if f.stop.Whole? then
           && n < |f.unread| && NulFree(f.unread[..n]) && Framed(frames + [f.unread[..n]]) + f.unread[n + 1..] == got
           && |frames| < |Frames(got)| && Frames(got)[|frames|] == f.unread[..n]
           && Interruption(f.incoming) == Interruption(incoming)
           && |f.unread[n + 1..]| + Weight(f.incoming) < |unread| + Weight(incoming)
         else
           && NulFree(f.unread) && Frames(got) == frames
           && if f.stop.Full? then |f.unread| == BUFFER_SIZE && Interruption(f.incoming) == Interruption(incoming)
              else |f.unread| < BUFFER_SIZE && (f.stop, f.incoming) == Interruption(incoming)
  {
    hide Arriving, Weight, Fill, Framed, Frames, Interruption;
    var f := Fill(unread, incoming);
    var n := NulAt(f.unread, 0);
    FillKeeps(unread, incoming);
    assert Framed(frames) + (unread + Arriving(incoming)) == Framed(frames) + unread + Arriving(incoming);
    assert Framed(frames) + (f.unread + Arriving(f.incoming)) == Framed(frames) + f.unread + Arriving(f.incoming);
    if f.stop.Whole? {
      NextFrame(frames, f.unread);
    } else {
      FramesSoFar(frames, f.unread);
    }
  }

  lemma NextFrame(frames: seq<string>, unread: string)
    requires AllNulFree(frames) && NulAt(unread, 0) < |unread|
    ensures var n, got := NulAt(unread, 0), Framed(frames) + unread;
      && NulFree(unread[..n]) && Framed(frames + [unread[..n]]) + unread[n + 1..] == got
      && |frames| < |Frames(got)| && Frames(got)[|frames|] == unread[..n]
  {
    hide Framed, Split;
    var n := NulAt(unread, 0);
    var frame, rest := unread[..n], unread[n + 1..];
    assert unread == frame + "\0" + rest;
    FramedOne(frames, frame);
    assert Framed(frames) + (frame + "\0" + rest) == Framed(frames) + frame + "\0" + rest;
    SplitFramed(frames, unread);
    FirstFrame(unread);
  }

  // ---------------------------------------------------------------- output

  /** What a writer has sent, what it has left, and what it has met. */
  datatype Emptied = Emptied(sent: string, unsent: string, outgoing: seq<WriteEvent>, met: Result)

  function Empty(unsent: string, outgoing: seq<WriteEvent>): Emptied {
    var (r, rest) := WriteThrough(outgoing, |unsent|);
    var k := if r.Bytes? then Min(r.n, |unsent|) else 0;
    Emptied(unsent[..k], unsent[k..], rest, r)
  }

  lemma EmptyKeeps(unsent: string, outgoing: seq<WriteEvent>)
    ensures var e := Empty(unsent, outgoing); e.sent + e.unsent == unsent
  {
  }

  /** A writer is interrupted any number of times, and then sends as much as is taken, or nothing on an error. */
  lemma {:induction false} EmptyExactly(unsent: string, outgoing: seq<WriteEvent>, k: nat)
    requires k <= |outgoing| && (forall i :: 0 <= i < k ==> outgoing[i] == WriteError(EINTR))
    requires k < |outgoing| ==> outgoing[k] != WriteError(EINTR)
    ensures var e := Empty(unsent, outgoing);
      && e.sent + e.unsent == unsent
      && if k == |outgoing| then e.sent == "" && e.outgoing == [] && e.met == Fails(EAGAIN)
         else e.outgoing == outgoing[k + 1..] && match outgoing[k]
           case Takes(n) => |e.sent| == Min(n, |unsent|) && e.met == Bytes(|e.sent|)
           case WriteError(x) => e.sent == "" && e.met == Fails(x)
  {
    if k > 0 {
      EmptyExactly(unsent, outgoing[1..], k - 1);
      assert k < |outgoing| ==> outgoing[1..][k - 1] == outgoing[k] && outgoing[1..][k..] == outgoing[k + 1..];
    }
  }
}
