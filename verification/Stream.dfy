/** The buffered byte stream under a connection (lib/stream.c). */
module Streams {
  import opened Errors
  import opened Text
  import opened Json
  import opened JsonRoundTrip
  import opened JsonText
  import opened Containers
  import opened JsonWriter
  import opened Descriptors
  import opened Framing
  import opened Filling
  import Utf8

  // ---------------------------------------------------------------- buffers

  /** Moves what is left in a buffer to its front. */
  method MoveRest(buffer: array<char>, start: nat, end: nat) returns (newStart: nat, newEnd: nat)
    requires start <= end <= buffer.Length
    modifies buffer
    ensures newStart == 0 && newEnd == end - start
    ensures buffer[newStart..newEnd] == old(buffer[start..end])
  {
    var rest := end - start;
    if rest > 0 {
      forall i | 0 <= i < rest {
        buffer[i] := buffer[start + i];
      }
    }
    return 0, rest;
  }

  /** Copies a string with its NUL. */
  method CopyString(s: string, buffer: array<char>, at: nat)
    requires at + |s| + 1 <= buffer.Length
    modifies buffer
    ensures buffer[..at + |s| + 1] == old(buffer[..at]) + s + "\0"
  {
    forall i | 0 <= i < |s| {
      buffer[at + i] := s[i];
    }
    buffer[at + |s|] := '\0';
  }

  method FindNul(buffer: array<char>, start: nat, end: nat) returns (r: Option<nat>)
    requires start <= end <= buffer.Length
    ensures r.None? ==> NulFree(buffer[start..end])
    ensures r.Some? ==> start <= r.value < end && buffer[r.value] == '\0' && NulFree(buffer[start..r.value])
  {
    for i := start to end
      invariant NulFree(buffer[start..i])
    {
      if buffer[i] == '\0' {
        return Some(i);
      }
    }
    r := None;
  }

  /** Every accepted message leaves room for its NUL and one more byte. */
  ghost predicate AllShort(messages: seq<string>) {
    forall m <- messages :: |m| + 1 < BUFFER_SIZE
  }

  /** Whether a text of `n` bytes can be accepted behind `unsent` ones. */
  function Room(unsent: nat, n: nat): (r: Outcome)
    ensures r in {Success, InvalidMessage, SendingMessage}
    ensures r.Success? <==> unsent + (n + 1) < BUFFER_SIZE
    ensures r.InvalidMessage? <==> n + 1 >= BUFFER_SIZE
  {
    if n >= BUFFER_SIZE - 1 then InvalidMessage
    else if unsent + n + 1 >= BUFFER_SIZE then SendingMessage
    else Success
  }

  /** Only messages that are JSON objects are cut off. */
  ghost predicate AllParse(frames: seq<string>) {
    forall f <- frames :: Parse(f).Some?
  }

  /** What a flush makes of the answer to its write. */
  function FlushOutcome(met: Result): Outcome {
    match met
    case Fails(EPIPE) => ConnectionClosed
    case Fails(EAGAIN) => Success
    case Fails(_) => SendingMessage
    case Bytes(_) => Success
  }

  class Stream {
    const fd: Descriptor
    const input: array<char>
    var inStart: nat
    var inEnd: nat
    const output: array<char>
    var outStart: nat
    var outEnd: nat
    var hup: bool
    ghost var frames: seq<string>
    ghost var accepted: seq<string>

    /** Received bytes that have not been handed on as part of a message. */
    ghost function Unread(): string
      reads this, input
      requires inStart <= inEnd <= input.Length
    {
      input[inStart..inEnd]
    }

    /** Bytes of accepted messages that the descriptor has not taken yet. */
    ghost function Unsent(): string
      reads this, output
      requires outStart <= outEnd <= output.Length
    {
      output[outStart..outEnd]
    }

    ghost predicate Valid()
      reads this, fd, input, output
    {
      && input != output && input.Length == BUFFER_SIZE && output.Length == BUFFER_SIZE
      && inStart <= inEnd <= BUFFER_SIZE
      && outStart == 0 && outEnd < BUFFER_SIZE
      && AllNulFree(frames) && AllParse(frames) && fd.delivered == Framed(frames) + Unread()
      && AllNulFree(accepted) && AllShort(accepted) && fd.taken + Unsent() == Framed(accepted)
      && Utf8.AllBytes(fd.delivered + Arriving(fd.incoming))
    }

    /** What has become of output, with all that a write was asked for. */
    ghost predicate Flushed(unsent: string, taken: string, outgoing: seq<WriteEvent>, wasHup: bool)
      reads this, fd, output
    {
      var e := Empty(unsent, outgoing);
      && outStart <= outEnd <= output.Length && Unsent() == e.unsent && fd.taken == taken + e.sent
      && fd.outgoing == e.outgoing && hup == (wasHup || e.met == Fails(EPIPE))
    }

    constructor (fd: Descriptor)
      requires fd.delivered == "" && fd.taken == "" && Utf8.AllBytes(Arriving(fd.incoming))
      ensures Valid() && this.fd == fd && fresh(input) && fresh(output) && frames == [] && accepted == [] && !hup
    {
      this.fd := fd;
      input := new char[BUFFER_SIZE];
      output := new char[BUFFER_SIZE];
      inStart, inEnd, outStart, outEnd, hup := 0, 0, 0, 0, false;
      frames, accepted := [], [];
    }

    /** Hands the output to the descriptor and moves the rest to the front; an error leaves all as it was. */
    method Flush() returns (r: Outcome, left: nat)
      requires Valid()
      modifies this`outStart, this`outEnd, this`hup, fd`outgoing, fd`taken, output
      ensures Valid()
      ensures Flushed(old(Unsent()), old(fd.taken), old(fd.outgoing), old(hup))
      ensures r == FlushOutcome(Empty(old(Unsent()), old(fd.outgoing)).met)
      ensures r.Success? ==> left == |Unsent()|
    {
      hide Framed, Arriving, AllNulFree, AllShort, AllParse, Utf8.AllBytes, WriteThrough;
      left := 0;
      ghost var taken, unsent := fd.taken, Unsent();
      var n := WriteAgain(fd, output, outStart, outEnd - outStart);
      assert unsent[..0] == "" && unsent[0..] == unsent && taken + "" == taken;
      match n {
        case Fails(EAGAIN) =>
        case Fails(EPIPE) =>
          hup := true;
          r := ConnectionClosed;
          return;
        case Fails(_) =>
          r := SendingMessage;
          return;
        case Bytes(k) =>
          assert unsent == unsent[..k] + unsent[k..];
          assert fd.taken == taken + unsent[..k];
          assert taken + (unsent[..k] + unsent[k..]) == taken + unsent[..k] + unsent[k..];
          outStart := outStart + k;
          assert output[outStart..outEnd] == unsent[k..];
      }
      assert fd.taken + output[outStart..outEnd] == taken + unsent;
      outStart, outEnd := MoveRest(output, outStart, outEnd);
      r, left := Success, outEnd;
    }

    /** Appends the text of a message with its NUL. */
    method Append(json: string)
      requires Valid() && NulFree(json) && outEnd + |json| + 1 < BUFFER_SIZE
      modifies this`outEnd, this`accepted, output
      ensures Valid() && accepted == old(accepted) + [json]
      ensures Unsent() == old(Unsent()) + json + "\0"
    {
      hide Framed, AllParse;
      FramedOne(accepted, json);
      CopyString(json, output, outEnd);
      outEnd := outEnd + |json| + 1;
      accepted := accepted + [json];
      assert fd.taken + (old(Unsent()) + json + "\0") == fd.taken + old(Unsent()) + json + "\0";
    }

    /** Accepts the text of a message and starts sending it. */
    method Send(json: string) returns (r: Outcome, whole: bool)
      requires Valid() && NulFree(json)
      modifies this`outStart, this`outEnd, this`hup, this`accepted, fd`outgoing, fd`taken, output
      ensures Valid()
      ensures r == Room(|old(Unsent())|, |json|)
      ensures accepted == if r.Success? then old(accepted) + [json] else old(accepted)
      ensures r.Success? ==> Flushed(old(Unsent()) + json + "\0", old(fd.taken), old(fd.outgoing), old(hup))
      ensures !r.Success? ==>
        Unsent() == old(Unsent()) && fd.taken == old(fd.taken) && fd.outgoing == old(fd.outgoing) && hup == old(hup)
      ensures r.Success? ==> whole == (Unsent() == "")
    {
      whole := false;
      if |json| >= BUFFER_SIZE - 1 {
        return InvalidMessage, false;
      }
      if outEnd + |json| + 1 >= BUFFER_SIZE {
        return SendingMessage, false;
      }
      Append(json);
      var flushed, left := Flush();
      r := Success;
      whole := flushed.Success? && left == 0;
    }

    /** Writes a message: the answer is positive when all output has been sent. Errors of the descriptor do not
        show, because the unsigned result of flushing is compared with zero. */
    method Write(message: VarlinkObject) returns (r: Outcome, whole: bool)
      requires Valid() && message.Valid() && forall f <- message.Fields() :: WellFormedField(f)
      requires this !in message.Repr() && fd !in message.Repr() && output !in message.Repr()
      modifies this`outStart, this`outEnd, this`hup, this`accepted, fd`outgoing, fd`taken, output
      ensures Valid()
      ensures var json := PrintObject(old(message.Fields()), -1);
        && r == Room(|old(Unsent())|, |json|)
        && accepted == (if r.Success? then old(accepted) + [json] else old(accepted))
        && (r.Success? ==> Flushed(old(Unsent()) + json + "\0", old(fd.taken), old(fd.outgoing), old(hup)))
      ensures !r.Success? ==>
        Unsent() == old(Unsent()) && fd.taken == old(fd.taken) && fd.outgoing == old(fd.outgoing) && hup == old(hup)
      ensures r.Success? ==> whole == (Unsent() == "")
    {
      hide VarlinkObject.Valid, PrintObject, Framed, Arriving, AllParse, WellFormedField;
      var json := ToJson(message, -1);
      PrintObjectNulFree(message.Fields(), -1);
      r, whole := Send(json);
    }

    /** Reads once more into the free part of the input. */
    method ReadMore() returns (n: Result)
      requires Valid() && inStart == 0 && inEnd < BUFFER_SIZE
      modifies this`inEnd, fd`incoming, fd`delivered, input
      ensures Valid() && (n, fd.incoming) == ReadThrough(old(fd.incoming), BUFFER_SIZE - old(inEnd))
      ensures var k := if n.Bytes? then n.n else 0;
        k <= |Arriving(old(fd.incoming))| && Unread() == old(Unread()) + Arriving(old(fd.incoming))[..k]
    {
      hide Framed, Arriving, Weight, Utf8.AllBytes, AllNulFree, AllShort, AllParse;
      ghost var was, incoming := Unread(), fd.incoming;
      ReadThroughTakes(incoming, BUFFER_SIZE - inEnd);
      n := ReadAgain(fd, input, inEnd, BUFFER_SIZE - inEnd);
      ghost var got := Arriving(incoming)[..if n.Bytes? then n.n else 0];
      assert fd.delivered == old(fd.delivered) + got;
      assert old(fd.delivered) + (got + Arriving(fd.incoming)) == old(fd.delivered) + got + Arriving(fd.incoming);
      assert Framed(frames) + (was + got) == Framed(frames) + was + got;
      if n.Bytes? {
        assert input[..inEnd + n.n] == was + got;
        inEnd := inEnd + n.n;
      }
    }

    /** The message that ends in front of the NUL at `nul`. */
    method TakeMessage(nul: nat) returns (r: Outcome, message: VarlinkObject?)
      requires Valid() && inStart <= nul < inEnd && input[nul] == '\0' && NulFree(input[inStart..nul])
      modifies this`inStart, this`frames
      ensures Valid() && r == ReadOutcome(Whole, message != null)
      ensures message != null <==> Parse(input[old(inStart)..nul]).Some?
      ensures if message != null
        then frames == old(frames) + [input[old(inStart)..nul]] && Unread() == input[nul + 1..inEnd]
        else frames == old(frames) && Unread() == old(Unread())
      ensures message != null ==>
        message.Valid() && fresh(message.Repr()) && Parse(frames[|frames|-1]) == Some(message.Fields())
    {
      hide Parse, Framed, VarlinkObject.Valid, Arriving, AllShort;
      ghost var frame, rest := input[inStart..nul], input[nul+1..inEnd];
      assert Unread() == frame + "\0" + rest;
      assert Framed(frames) + Unread() == Framed(frames) + frame + "\0" + rest;
      FramedOne(frames, frame);
      assert frame == (fd.delivered + Arriving(fd.incoming))[|Framed(frames)|..|Framed(frames)| + |frame|];
      message := FromJson(input[inStart..nul]);
      if message == null {
        return InvalidJson, null;
      }
      frames := frames + [frame];
      inStart := nul + 1;
      r := Success;
    }

    /** The next message, if it is complete. */
    method TakeNext() returns (found: bool, r: Outcome, message: VarlinkObject?)
      requires Valid()
      modifies this`inStart, this`frames
      ensures Valid()
      ensures var unread := old(Unread());
        var n := NulAt(unread, 0);
        && found == (n < |unread|) && (message != null <==> found && Parse(unread[..n]).Some?)
        && (if message != null then frames == old(frames) + [unread[..n]] && Unread() == unread[n + 1..]
            else frames == old(frames) && inStart == old(inStart))
        && (found ==> r == ReadOutcome(Whole, message != null))
      ensures message != null ==>
        message.Valid() && fresh(message.Repr()) && Parse(frames[|frames|-1]) == Some(message.Fields())
    {
      hide Parse, Frames, Framed, VarlinkObject.Valid, Arriving, AllNulFree, AllShort, AllParse, Utf8.AllBytes, NulFree;
      ghost var unread := Unread();
      var nul := FindNul(input, inStart, inEnd);
      assert nul.Some? ==> unread[..nul.value - inStart] == input[inStart..nul.value]
                           && unread[nul.value - inStart + 1..] == input[nul.value + 1..inEnd];
      NulFound(unread, if nul.Some? then Some(nul.value - inStart) else None);
      if nul.None? {
        return false, Success, null;
      }
      r, message := TakeMessage(nul.value);
      found := true;
    }

    /** Moves the input that is left to the front. */
    method Compact()
      requires Valid()
      modifies this`inStart, this`inEnd, input
      ensures Valid() && inStart == 0 && inEnd <= BUFFER_SIZE && Unread() == old(Unread())
    {
      inStart, inEnd := MoveRest(input, inStart, inEnd);
    }

    /** Nothing arrives, and no message is complete. */
    ghost predicate Silent()
      reads this, fd, input
    {
      !hup && fd.incoming == [] && inStart <= inEnd <= input.Length && NulFree(Unread()) && |Unread()| < BUFFER_SIZE
    }

    /** Gets more input, and notices when there is none or the other side has hung up. */
    method Refill() returns (r: Outcome, more: bool)
      requires Valid() && inStart == 0 && inEnd < BUFFER_SIZE
      modifies this`inEnd, this`hup, fd`incoming, fd`delivered, input
      ensures Valid()
      ensures var (n, rest) := ReadThrough(old(fd.incoming), BUFFER_SIZE - old(inEnd));
        && fd.incoming == rest && more == (n.Bytes? && n.n > 0)
        && (if more then n.n <= |Arriving(old(fd.incoming))|
              && Unread() == old(Unread()) + Arriving(old(fd.incoming))[..n.n] && hup == old(hup)
            else
              var stop := if n.Bytes? then HungUp else Cause(ReadError(n.errno));
              Unread() == old(Unread()) && r == ReadOutcome(stop, false) && hup == (old(hup) || stop.HungUp?))
    {
      hide Framed, Arriving, Weight, AllNulFree, AllShort, AllParse, Utf8.AllBytes, NulFree, ReadThrough;
      assert old(Unread()) + "" == old(Unread());
      var n := ReadMore();
      match n {
        case Fails(EAGAIN) => return Success, false;
        case Fails(ECONNRESET) =>
          hup := true;
          return Success, false;
        case Fails(_) => return ReceivingMessage, false;
        case Bytes(k) =>
          if k == 0 {
            hup := true;
            return Success, false;
          }
          return Success, true;
      }
    }

    /** Reads the next message; null when none is complete yet. A message that is no JSON stays where it is. */
    method Read() returns (r: Outcome, message: VarlinkObject?)
      requires Valid()
      modifies this`inStart, this`inEnd, this`hup, this`frames, fd`incoming, fd`delivered, input
      ensures Valid()
      ensures var f := Fill(old(Unread()), old(fd.incoming));
        var n := NulAt(f.unread, 0);
        && fd.incoming == f.incoming && hup == (old(hup) || f.stop.HungUp?)
        && (message != null <==> f.stop.Whole? && n < |f.unread| && Parse(f.unread[..n]).Some?)
        && (if message != null then frames == old(frames) + [f.unread[..n]] && Unread() == f.unread[n + 1..]
            else frames == old(frames) && Unread() == f.unread)
        && r == ReadOutcome(f.stop, message != null)
      ensures message != null ==>
        message.Valid() && fresh(message.Repr()) && Parse(frames[|frames|-1]) == Some(message.Fields())
    {
      hide Parse, Frames, Framed, VarlinkObject.Valid, Arriving, Weight, AllNulFree, AllShort, AllParse, Utf8.AllBytes,
        ReadThrough, Interruption, Fill, Cause, NulFree, Valid;
      Buffers(this);
      message := null;
      while true
        invariant Valid() && frames == old(frames) && hup == old(hup) && inStart <= inEnd <= BUFFER_SIZE == input.Length
        invariant Fill(Unread(), fd.incoming) == Fill(old(Unread()), old(fd.incoming))
        decreases Weight(fd.incoming)
      {
        ghost var unread := Unread();
        FillStep(unread, fd.incoming);
        var found;
        found, r, message := TakeNext();
        if found {
          return;
        }
        Compact();
        if inEnd == BUFFER_SIZE {
          return InvalidMessage, null;
        }
        var more;
        r, more := Refill();
        Buffers(this);
        if !more {
          return r, null;
        }
      }
    }
  }

  /** What a reader returns when it stops. */
  function ReadOutcome(stop: Stop, read: bool): Outcome {
    match stop
    case Whole => if read then Success else InvalidJson
    case Full => InvalidMessage
    case Broken => ReceivingMessage
    case _ => Success
  }

  /** Why a reader has stopped without a message and without having hung up. */
  function StopOf(r: Outcome): Stop {
    match r
    case InvalidJson => Whole
    case InvalidMessage => Full
    case ReceivingMessage => Broken
    case _ => Dry
  }

  lemma NulFound(s: string, n: Option<nat>)
    requires if n.Some? then n.value < |s| && s[n.value] == '\0' && NulFree(s[..n.value]) else NulFree(s)
    ensures NulAt(s, 0) == if n.Some? then n.value else |s|
  {
    if n.Some? {
      assert forall i :: 0 <= i < n.value ==> s[i] == s[..n.value][i];
      NulAtIs(s, 0, n.value);
    }
  }

  // ---------------------------------------------------------------- for the users of streams

  datatype Event = EPOLLIN | EPOLLOUT | EPOLLHUP

  /** Nothing has been read, and what was sent stays sent. */
  twostate predicate SameInput(s: Stream)
    reads s, s.fd, s.input
  {
    unchanged(s`frames, s`inStart, s`inEnd, s.fd`incoming, s.fd`delivered, s.input) && old(s.fd.taken) <= s.fd.taken
  }

  /** What was on its way still is or has arrived, and what was sent stays sent. */
  twostate predicate Flows(s: Stream)
    reads s.fd
  {
    s.fd.delivered + Arriving(s.fd.incoming) == old(s.fd.delivered + Arriving(s.fd.incoming))
      && old(s.fd.taken) <= s.fd.taken
  }

  lemma Buffers(s: Stream)
    requires s.Valid()
    ensures s.input != s.output && s.inStart <= s.inEnd <= s.input.Length && s.outStart <= s.outEnd <= s.output.Length
    ensures s.input.Length == s.output.Length == BUFFER_SIZE
  {
  }

  /** Why a stream hands on no message: the next one is no JSON, or does not fit the buffer, or none is complete and the
      descriptor has answered so. `meets` is what the descriptor would answer to someone who reads on. */
  ghost predicate StoppedBy(s: Stream, meets: (Stop, seq<ReadEvent>), stop: Stop)
    reads s, s.fd, s.input
  {
    && s.inStart <= s.inEnd <= s.input.Length
    && match stop
       case Whole =>
         && |s.frames| < |Frames(s.fd.delivered)| && Parse(Frames(s.fd.delivered)[|s.frames|]) == None
         && Interruption(s.fd.incoming) == meets
       case Full =>
         && s.frames == Frames(s.fd.delivered) && NulFree(s.Unread()) && |s.Unread()| == BUFFER_SIZE
         && Interruption(s.fd.incoming) == meets
       case _ =>
         && s.frames == Frames(s.fd.delivered) && NulFree(s.Unread()) && |s.Unread()| < BUFFER_SIZE
         && (stop, s.fd.incoming) == meets
  }

  lemma InputSoFar(s: Stream)
    requires s.Valid()
    ensures AllNulFree(s.frames) && s.fd.delivered == Framed(s.frames) + s.Unread()
  {
  }

  /** What users of a stream may rely on after a read, with what there was before: what was on its way still is or has
      arrived; whoever reads on meets the same; and a stream that has not handed on a message was stopped. */
  lemma AfterRead(s: Stream, frames: seq<string>, unread: string, incoming: seq<ReadEvent>, r: Outcome, read: bool)
    requires s.Valid() && AllNulFree(frames) && |unread| <= BUFFER_SIZE
    requires var f := Fill(unread, incoming);
      var n := NulAt(f.unread, 0);
      && s.fd.incoming == f.incoming && (read <==> f.stop.Whole? && n < |f.unread| && Parse(f.unread[..n]).Some?)
      && (if read then s.frames == frames + [f.unread[..n]] && s.Unread() == f.unread[n + 1..]
          else s.frames == frames && s.Unread() == f.unread)
      && r == ReadOutcome(f.stop, read)
    ensures s.fd.delivered + Arriving(s.fd.incoming) == Framed(frames) + unread + Arriving(incoming)
    ensures read ==> Left(s) < |unread| + Weight(incoming) && Interruption(s.fd.incoming) == Interruption(incoming)
    ensures !read ==> StoppedBy(s, Interruption(incoming), Fill(unread, incoming).stop)
  {
    hide Arriving, Weight, Fill, Framed, Frames, Interruption, NulFree, Parse, AllNulFree, AllShort, AllParse,
      Utf8.AllBytes;
    ReadMeans(frames, unread, incoming);
  }

  lemma NothingArrives(s: Stream)
    requires s.Silent()
    ensures Fill(s.Unread(), s.fd.incoming) == Filled(s.Unread(), [], Dry)
  {
    NulFound(s.Unread(), None);
  }

  /** How a round of the loop over the messages ends. */
  datatype Verdict = Again | Break | Return

  /** The bytes that can still become messages. */
  ghost function Left(s: Stream): nat
    reads s, s.fd
  {
    Weight(s.fd.incoming) + if s.inStart <= s.inEnd then s.inEnd - s.inStart else 0
  }
}
