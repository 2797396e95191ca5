/** File descriptors: what a socket answers to reads and writes, as a list of what its calls will meet. */
module Descriptors {
  const BUFFER_SIZE: nat := 16 * 1024 * 1024

  datatype Errno = EINTR | EAGAIN | ECONNRESET | EPIPE | EOTHER

  /** What the next system calls will meet: bytes that arrive together (none at the end of the stream) or an error. */
  datatype ReadEvent = Chunk(bytes: string) | ReadError(errno: Errno)

  /** The most bytes a write takes, or an error. */
  datatype WriteEvent = Takes(n: nat) | WriteError(errno: Errno)

  datatype Result = Bytes(n: nat) | Fails(errno: Errno)

  function Min(a: nat, b: nat): nat { if a < b then a else b }

  // ---------------------------------------------------------------- what arrives

  function Arriving(events: seq<ReadEvent>): string {
    if events == [] then ""
    else (if events[0].Chunk? then events[0].bytes else "") + Arriving(events[1..])
  }

  function Weight(events: seq<ReadEvent>): nat {
    if events == [] then 0
    else 1 + (if events[0].Chunk? then |events[0].bytes| else 0) + Weight(events[1..])
  }

  /** What is still to come when `k` of the bytes that arrived first have been read. */
  function Remaining(events: seq<ReadEvent>, k: nat): seq<ReadEvent>
    requires events != [] && events[0].Chunk? && k <= |events[0].bytes|
  {
    if k < |events[0].bytes| then [Chunk(events[0].bytes[k..])] + events[1..] else events[1..]
  }

  lemma FirstChunk(b: string, rest: seq<ReadEvent>)
    ensures Arriving([Chunk(b)] + rest) == b + Arriving(rest) && Weight([Chunk(b)] + rest) == 1 + |b| + Weight(rest)
  {
    assert ([Chunk(b)] + rest)[1..] == rest;
  }

  lemma AfterTaking(events: seq<ReadEvent>, k: nat)
    requires events != [] && events[0].Chunk? && k <= |events[0].bytes|
    ensures Arriving(events) == events[0].bytes[..k] + Arriving(Remaining(events, k))
    ensures Weight(Remaining(events, k)) + k <= Weight(events)
    ensures k > 0 || events[0].bytes == "" ==> Weight(Remaining(events, k)) < Weight(events)
  {
    hide Arriving, Weight;
    var b, rest := events[0].bytes, events[1..];
    assert events == [Chunk(b)] + rest;
    FirstChunk(b, rest);
    if k < |b| {
      FirstChunk(b[k..], rest);
      assert b == b[..k] + b[k..];
      assert b[..k] + (b[k..] + Arriving(rest)) == b[..k] + b[k..] + Arriving(rest);
    } else {
      assert b[..k] == b;
    }
  }

  lemma AfterError(events: seq<ReadEvent>)
    requires events != [] && events[0].ReadError?
    ensures Arriving(events) == Arriving(events[1..]) && Weight(events) == 1 + Weight(events[1..])
  {
    assert "" + Arriving(events[1..]) == Arriving(events[1..]);
  }

  /** The answer to a read of at most `n` bytes, and what is still to come. */
  function ReadCall(events: seq<ReadEvent>, n: nat): (Result, seq<ReadEvent>) {
    if events == [] then (Fails(EAGAIN), [])
    else
      match events[0]
      case ReadError(e) => (Fails(e), events[1..])
      case Chunk(b) => (Bytes(Min(|b|, n)), Remaining(events, Min(|b|, n)))
  }

  /** The bytes that a read takes are the first that arrive. */
  lemma ReadCallTakes(events: seq<ReadEvent>, n: nat)
    ensures var (r, rest) := ReadCall(events, n);
      var k := if r.Bytes? then r.n else 0;
      && k <= n && k <= |Arriving(events)| && Arriving(events) == Arriving(events)[..k] + Arriving(rest)
      && Weight(rest) + k <= Weight(events)
      && ((r.Bytes? && n > 0) || r == Fails(EINTR) ==> Weight(rest) < Weight(events))
  {
    hide Arriving, Weight, Remaining;
    if events != [] && events[0].Chunk? {
      var k := Min(|events[0].bytes|, n);
      AfterTaking(events, k);
      assert Arriving(events)[..k] == events[0].bytes[..k];
    } else if events != [] {
      AfterError(events);
    }
  }

  /** The answer to a read that is tried again when it is interrupted. */
  function ReadThrough(events: seq<ReadEvent>, n: nat): (Result, seq<ReadEvent>) {
    if events != [] && events[0] == ReadError(EINTR) then ReadThrough(events[1..], n) else ReadCall(events, n)
  }

  lemma {:induction false} ReadThroughTakes(events: seq<ReadEvent>, n: nat)
    ensures var (r, rest) := ReadThrough(events, n);
      var k := if r.Bytes? then r.n else 0;
      && k <= n && k <= |Arriving(events)| && Arriving(events) == Arriving(events)[..k] + Arriving(rest)
      && Weight(rest) + k <= Weight(events) && r != Fails(EINTR)
      && (r.Bytes? && n > 0 ==> Weight(rest) < Weight(events))
  {
    hide Arriving, Weight, ReadCall;
    if events != [] && events[0] == ReadError(EINTR) {
      AfterError(events);
      ReadThroughTakes(events[1..], n);
    } else {
      ReadCallTakes(events, n);
      NotInterrupted(events, n);
    }
  }

  lemma NotInterrupted(events: seq<ReadEvent>, n: nat)
    requires events == [] || events[0] != ReadError(EINTR)
    ensures ReadCall(events, n).0 != Fails(EINTR)
  {
  }

  /** The answer to a write of `n` bytes that is tried again when it is interrupted, and what is still to come. */
  function WriteThrough(events: seq<WriteEvent>, n: nat): (Result, seq<WriteEvent>) {
    if events == [] then (Fails(EAGAIN), [])
    else
      match events[0]
      case WriteError(EINTR) => WriteThrough(events[1..], n)
      case WriteError(e) => (Fails(e), events[1..])
      case Takes(k) => (Bytes(Min(k, n)), events[1..])
  }

  // ---------------------------------------------------------------- the descriptor

  method CopyBytes(bytes: string, buffer: array<char>, at: nat)
    requires at + |bytes| <= buffer.Length
    modifies buffer
    ensures buffer[..at] == old(buffer[..at]) && buffer[at..at + |bytes|] == bytes
  {
    forall i | 0 <= i < |bytes| {
      buffer[at + i] := bytes[i];
    }
  }

  /** A socket: what it will answer to reads and writes is fixed beforehand but arbitrary. */
  class Descriptor {
    var incoming: seq<ReadEvent>
    var outgoing: seq<WriteEvent>
    ghost var delivered: string
    ghost var taken: string

    constructor (incoming: seq<ReadEvent>, outgoing: seq<WriteEvent>)
      ensures this.incoming == incoming && this.outgoing == outgoing && delivered == "" && taken == ""
    {
      this.incoming, this.outgoing, delivered, taken := incoming, outgoing, "", "";
    }

    method Read(buffer: array<char>, at: nat, n: nat) returns (r: Result)
      requires at + n <= buffer.Length
      modifies `incoming, `delivered, buffer
      ensures (r, incoming) == ReadCall(old(incoming), n) && buffer[..at] == old(buffer[..at])
      ensures if r.Bytes?
        then r.n <= n && buffer[at..at + r.n] == Arriving(old(incoming))[..r.n]
          && delivered == old(delivered) + buffer[at..at + r.n]
        else delivered == old(delivered) && buffer[..] == old(buffer[..])
    {
      hide Arriving, Remaining;
      ReadCallTakes(incoming, n);
      if |incoming| == 0 {
        return Fails(EAGAIN);
      }
      match incoming[0] {
        case ReadError(e) =>
          r := Fails(e);
          incoming := incoming[1..];
        case Chunk(b) =>
          var k := Min(|b|, n);
          AfterTaking(incoming, k);
          assert Arriving(incoming)[..k] == b[..k];
          CopyBytes(b[..k], buffer, at);
          delivered := delivered + b[..k];
          incoming := Remaining(incoming, k);
          r := Bytes(k);
      }
    }

    method Write(buffer: array<char>, from: nat, n: nat) returns (r: Result)
      requires from + n <= buffer.Length
      modifies `outgoing, `taken
      ensures r != Fails(EINTR) ==> (r, outgoing) == WriteThrough(old(outgoing), n)
      ensures r == Fails(EINTR) ==>
        |outgoing| < |old(outgoing)| && WriteThrough(outgoing, n) == WriteThrough(old(outgoing), n)
      ensures if r.Bytes? then r.n <= n && taken == old(taken) + buffer[from..from + r.n] else taken == old(taken)
      ensures |outgoing| <= |old(outgoing)|
    {
      if |outgoing| == 0 {
        return Fails(EAGAIN);
      }
      match outgoing[0] {
        case WriteError(e) => r := Fails(e);
        case Takes(k) =>
          r := Bytes(Min(k, n));
          taken := taken + buffer[from..from + r.n];
      }
      outgoing := outgoing[1..];
    }
  }

  /** Reads until the call is not interrupted. */
  method ReadAgain(fd: Descriptor, buffer: array<char>, at: nat, n: nat) returns (r: Result)
    requires at + n <= buffer.Length
    modifies fd`incoming, fd`delivered, buffer
    ensures (r, fd.incoming) == ReadThrough(old(fd.incoming), n) && buffer[..at] == old(buffer[..at])
    ensures if r.Bytes?
      then r.n <= n <= buffer.Length - at && r.n <= |Arriving(old(fd.incoming))|
        && buffer[at..at + r.n] == Arriving(old(fd.incoming))[..r.n]
        && fd.delivered == old(fd.delivered) + buffer[at..at + r.n]
      else fd.delivered == old(fd.delivered)
  {
    hide Arriving, Weight;
    ghost var was := fd.incoming;
    ReadThroughTakes(was, n);
    r := Fails(EINTR);
    while r == Fails(EINTR)
      invariant if r == Fails(EINTR)
        then ReadThrough(fd.incoming, n) == ReadThrough(was, n) && Arriving(fd.incoming) == Arriving(was)
        else (r, fd.incoming) == ReadThrough(was, n)
      invariant buffer[..at] == old(buffer[..at])
      invariant if r.Bytes?
        then r.n <= n && r.n <= |Arriving(was)| && buffer[at..at + r.n] == Arriving(was)[..r.n]
          && fd.delivered == old(fd.delivered) + buffer[at..at + r.n]
        else fd.delivered == old(fd.delivered)
      decreases Weight(fd.incoming), if r == Fails(EINTR) then 1 else 0
    {
      ghost var before := fd.incoming;
      ReadCallTakes(before, n);
      r := fd.Read(buffer, at, n);
      Interrupted(before, n);
    }
  }

  lemma Interrupted(events: seq<ReadEvent>, n: nat)
    ensures var (r, rest) := ReadCall(events, n);
      if r == Fails(EINTR) then ReadThrough(events, n) == ReadThrough(rest, n) && Arriving(rest) == Arriving(events)
        && Weight(rest) < Weight(events)
      else ReadThrough(events, n) == (r, rest)
  {
    hide Arriving, Weight;
    if ReadCall(events, n).0 == Fails(EINTR) {
      AfterError(events);
    }
  }

  /** Writes until the call is not interrupted. */
  method WriteAgain(fd: Descriptor, buffer: array<char>, from: nat, n: nat) returns (r: Result)
    requires from + n <= buffer.Length
    modifies fd`outgoing, fd`taken
    ensures (r, fd.outgoing) == WriteThrough(old(fd.outgoing), n) && r != Fails(EINTR)
    ensures if r.Bytes? then r.n <= n && fd.taken == old(fd.taken) + buffer[from..from + r.n]
      else fd.taken == old(fd.taken)
  {
    hide WriteThrough;
    r := fd.Write(buffer, from, n);
    while r == Fails(EINTR)
      invariant if r == Fails(EINTR) then WriteThrough(fd.outgoing, n) == WriteThrough(old(fd.outgoing), n)
        else (r, fd.outgoing) == WriteThrough(old(fd.outgoing), n)
      invariant if r.Bytes? then r.n <= n && fd.taken == old(fd.taken) + buffer[from..from + r.n]
        else fd.taken == old(fd.taken)
      decreases |fd.outgoing|, if r == Fails(EINTR) then 1 else 0
    {
      r := fd.Write(buffer, from, n);
    }
  }

  // ---------------------------------------------------------------- interruptions

  /** What a reader goes on after: bytes, and interrupted calls. */
  predicate Steady(e: ReadEvent) {
    e == ReadError(EINTR) || (e.Chunk? && e.bytes != "")
  }

  predicate AllSteady(events: seq<ReadEvent>) {
    forall e <- events :: Steady(e)
  }

  /** How many calls a reader may go on after. */
  function SteadyLength(events: seq<ReadEvent>): (k: nat)
    ensures k <= |events| && AllSteady(events[..k]) && (k < |events| ==> !Steady(events[k]))
  {
    if events == [] || !Steady(events[0]) then 0
    else
      var k := 1 + SteadyLength(events[1..]);
      assert events[..k] == [events[0]] + events[1..][..k - 1];
      k
  }

  /** Why a reader stops: a whole message is there, or its buffer is full; or there is nothing more for now, the other
      side has hung up, or something is wrong with the descriptor. */
  datatype Stop = Whole | Full | Dry | HungUp | Broken

  function Cause(e: ReadEvent): Stop {
    match e
    case ReadError(EAGAIN) => Dry
    case ReadError(ECONNRESET) => HungUp
    case Chunk("") => HungUp
    case _ => Broken
  }

  /** What stops a reader that does not stop by itself, and what is still to come then. */
  function Interruption(events: seq<ReadEvent>): (Stop, seq<ReadEvent>) {
    var k := SteadyLength(events);
    if k == |events| then (Dry, []) else (Cause(events[k]), events[k + 1..])
  }

  lemma InterruptionBehind(events: seq<ReadEvent>)
    requires events != [] && Steady(events[0])
    ensures Interruption(events) == Interruption(events[1..])
  {
    var k := SteadyLength(events[1..]);
    if k < |events| - 1 {
      assert events[1..][k] == events[k + 1] && events[1..][k + 1..] == events[k + 2..];
    }
  }

  lemma InterruptionRemaining(events: seq<ReadEvent>, k: nat)
    requires events != [] && events[0].Chunk? && 0 < k <= |events[0].bytes|
    ensures Interruption(Remaining(events, k)) == Interruption(events)
  {
    hide Interruption;
    InterruptionBehind(events);
    if k < |events[0].bytes| {
      var now := Remaining(events, k);
      assert now[1..] == events[1..];
      InterruptionBehind(now);
    }
  }

  /** A read either goes on or meets the interruption. */
  lemma {:induction false} ReadMeets(events: seq<ReadEvent>, n: nat)
    requires n > 0
    ensures var (r, rest) := ReadThrough(events, n);
      match r
      case Bytes(k) =>
        if k > 0 then Interruption(rest) == Interruption(events) else (HungUp, rest) == Interruption(events)
      case Fails(e) => (Cause(ReadError(e)), rest) == Interruption(events)
  {
    hide Interruption, Remaining;
    if events == [] {
      NoInterruption();
    } else if events[0] == ReadError(EINTR) {
      InterruptionBehind(events);
      ReadMeets(events[1..], n);
    } else if events[0].Chunk? && events[0].bytes != "" {
      InterruptionRemaining(events, Min(|events[0].bytes|, n));
    } else {
      InterruptionNow(events);
      RemainingNone(events);
    }
  }

  lemma NoInterruption()
    ensures Interruption([]) == (Dry, [])
  {
  }

  lemma InterruptionNow(events: seq<ReadEvent>)
    requires events != [] && !Steady(events[0])
    ensures Interruption(events) == (Cause(events[0]), events[1..])
  {
  }

  lemma RemainingNone(events: seq<ReadEvent>)
    requires events != [] && (events[0].Chunk? ==> events[0].bytes == "")
    ensures events[0].Chunk? ==> Remaining(events, 0) == events[1..]
  {
  }
}
