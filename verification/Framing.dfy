/** Messages on a byte stream: each is followed by one NUL. */
module Framing {
  import opened Text

  function Framed(messages: seq<string>): string {
    if messages == [] then "" else messages[0] + "\0" + Framed(messages[1..])
  }

  /** Where the first NUL at or behind `i` is, or the end of the string. */
  function NulAt(s: string, i: nat): (n: nat)
    requires i <= |s|
    ensures i <= n <= |s| && (n < |s| ==> s[n] == '\0')
    ensures forall j :: i <= j < n ==> s[j] != '\0'
    decreases |s| - i
  {
    if i == |s| || s[i] == '\0' then i else NulAt(s, i + 1)
  }

  /** The complete frames of a byte string, and what follows the last NUL. */
  function Split(s: string): (seq<string>, string) {
    var n := NulAt(s, 0);
    if n == |s| then ([], s)
    else
      var (frames, rest) := Split(s[n+1..]);
      ([s[..n]] + frames, rest)
  }

  function Frames(s: string): seq<string> {
    Split(s).0
  }

  ghost predicate AllNulFree(messages: seq<string>) {
    forall m <- messages :: NulFree(m)
  }

  lemma {:induction false} FramedConcat(a: seq<string>, b: seq<string>)
    ensures Framed(a + b) == Framed(a) + Framed(b)
  {
    if a == [] {
      assert a + b == b;
    } else {
      assert (a + b)[0] == a[0] && (a + b)[1..] == a[1..] + b;
      FramedConcat(a[1..], b);
    }
  }

  lemma FramedOne(messages: seq<string>, m: string)
    ensures Framed(messages + [m]) == Framed(messages) + m + "\0"
  {
    FramedConcat(messages, [m]);
    assert Framed([m]) == m + "\0";
  }

  lemma NulAtIs(s: string, i: nat, n: nat)
    requires i <= n < |s| && s[n] == '\0' && forall j :: i <= j < n ==> s[j] != '\0'
    ensures NulAt(s, i) == n
  {
  }

  lemma FirstNul(m: string, rest: string)
    requires NulFree(m)
    ensures NulAt(m + "\0" + rest, 0) == |m|
  {
    var s := m + "\0" + rest;
    assert s[|m|] == '\0' && forall j :: 0 <= j < |m| ==> s[j] == m[j];
    NulAtIs(s, 0, |m|);
  }

  lemma SplitOne(m: string, rest: string)
    requires NulFree(m)
    ensures Split(m + "\0" + rest) == ([m] + Split(rest).0, Split(rest).1)
  {
    var s := m + "\0" + rest;
    FirstNul(m, rest);
    assert s[..|m|] == m && s[|m|+1..] == rest;
  }

  /** Splitting undoes framing: the frames are the messages, in order. */
  lemma {:induction false} SplitFramed(messages: seq<string>, rest: string)
    requires AllNulFree(messages)
    ensures Split(Framed(messages) + rest) == (messages + Split(rest).0, Split(rest).1)
  {
    hide Split;
    if messages == [] {
      assert Framed(messages) + rest == rest && messages + Split(rest).0 == Split(rest).0;
    } else {
      var m, more := messages[0], Framed(messages[1..]) + rest;
      assert Framed(messages) + rest == m + "\0" + more;
      SplitOne(m, more);
      SplitFramed(messages[1..], rest);
      assert [m] + (messages[1..] + Split(rest).0) == messages + Split(rest).0;
    }
  }

  lemma SplitNulFree(rest: string)
    requires NulFree(rest)
    ensures Split(rest) == ([], rest)
  {
  }

  /** What has been cut off the front so far is a prefix of all frames, and all of them when no NUL is left. */
  lemma FramesSoFar(frames: seq<string>, unread: string)
    requires AllNulFree(frames)
    ensures frames <= Frames(Framed(frames) + unread)
    ensures NulFree(unread) ==> Frames(Framed(frames) + unread) == frames
  {
    SplitFramed(frames, unread);
    if NulFree(unread) {
      SplitNulFree(unread);
    }
  }

  /** A receiver that has got a part of what was sent has cut off some of the messages, and what it is left with
      is the beginning of the others. */
  lemma {:induction false} Received(messages: seq<string>, frames: seq<string>, unread: string, later: string)
    requires AllNulFree(messages) && AllNulFree(frames)
    requires Framed(frames) + unread + later == Framed(messages)
    ensures frames <= messages
    ensures unread + later == Framed(messages[|frames|..])
  {
    if frames == [] {
      assert Framed(frames) + unread + later == unread + later && messages[0..] == messages;
    } else {
      var s := Framed(messages);
      var m, rest := frames[0], Framed(frames[1..]) + unread + later;
      assert s == m + "\0" + rest;
      FirstNul(m, rest);
      assert messages != [];
      assert s == messages[0] + "\0" + Framed(messages[1..]);
      FirstNul(messages[0], Framed(messages[1..]));
      assert m == s[..|m|] == messages[0];
      assert rest == s[|m|+1..] == Framed(messages[1..]);
      Received(messages[1..], frames[1..], unread, later);
      assert messages == [m] + messages[1..] && frames == [m] + frames[1..];
      assert messages[1..][|frames|-1..] == messages[|frames|..];
    }
  }

  lemma NulAtBehind(s: string, i: nat, k: nat)
    requires i <= k <= |s| && forall j :: i <= j < k ==> s[j] != '\0'
    ensures NulAt(s, i) >= k
  {
  }

  /** Bytes without a NUL that start a sequence of messages are at most the first message. */
  lemma UnreadIsShort(messages: seq<string>, unread: string, later: string)
    requires AllNulFree(messages) && NulFree(unread) && unread + later == Framed(messages)
    ensures messages == [] ==> unread == ""
    ensures messages != [] ==> unread <= messages[0]
  {
    if messages != [] {
      var s := Framed(messages);
      FirstNul(messages[0], Framed(messages[1..]));
      assert forall j :: 0 <= j < |unread| ==> s[j] == unread[j];
      NulAtBehind(s, 0, |unread|);
      assert unread == s[..|unread|];
      assert s[..|messages[0]|] == messages[0];
    }
  }
}
