/** From a call on one side to the call on the other: packing, printing, framing, the wire, cutting, parsing and
    unpacking (lib/message.c, lib/object.c, lib/stream.c). */
module EndToEnd {
  import opened Text
  import opened Json
  import opened Message
  import opened Framing
  import opened Descriptors
  import opened Streams
  import Utf8

  /** Everything the receiver has got was taken from the sender, in that order. */
  ghost predicate Connected(sender: Stream, receiver: Stream)
    reads sender, sender.fd, receiver, receiver.fd
  {
    receiver.fd.delivered <= sender.fd.taken
  }

  /** However reads and writes chop the bytes, the receiver cuts off the messages the sender accepted, in order;
      and it never has to hold a part of a message that fills its buffer. */
  lemma MessagesArriveInOrder(sender: Stream, receiver: Stream)
    requires sender.Valid() && receiver.Valid() && Connected(sender, receiver)
    ensures receiver.frames <= sender.accepted
    ensures NulFree(receiver.Unread()) ==> |receiver.Unread()| + 1 < BUFFER_SIZE
    ensures NulFree(receiver.Unread()) && receiver.fd.delivered == sender.fd.taken && sender.Unsent() == "" ==>
      receiver.frames == sender.accepted
  {
    hide Framed, Split, Arriving;
    var frames, unread := receiver.frames, receiver.Unread();
    var later := sender.fd.taken[|receiver.fd.delivered|..] + sender.Unsent();
    assert Framed(frames) + unread + later == Framed(sender.accepted);
    Received(sender.accepted, frames, unread, later);
    var others := sender.accepted[|frames|..];
    if NulFree(unread) {
      UnreadIsShort(others, unread, later);
      if others != [] {
        assert others[0] in sender.accepted;
        if later == "" {
          NoWholeMessage(others, unread);
        }
      }
    }
  }

  lemma NoWholeMessage(messages: seq<string>, unread: string)
    requires messages != [] && NulFree(unread)
    ensures Framed(messages) != unread
  {
    var s := Framed(messages);
    assert s[|messages[0]|] == '\0';
  }

  /** The calls the receiver unpacks are the requests that were made, one for one and exactly when they are such as the
      scanner accepts; a request in whose parameters no name has a quote or backslash is unpacked as it is or not at
      all. */
  lemma CallsArrive(sender: Stream, receiver: Stream, requests: seq<Request>, i: nat)
    requires sender.Valid() && receiver.Valid() && Connected(sender, receiver)
    requires |requests| == |sender.accepted|
    requires forall j :: 0 <= j < |requests| ==> sender.accepted[j] == RequestText(requests[j])
    requires i < |receiver.frames|
    ensures i < |requests|
    ensures RequestIn(receiver.frames[i]) == Some(CallOf(requests[i])) <==>
              Utf8.Valid(requests[i].name) && Receivable(requests[i].parameters)
    ensures Unforgeable(requests[i].parameters) ==> RequestIn(receiver.frames[i]) == Some(CallOf(requests[i]))
  {
    hide RequestText, RequestIn, Parse, Unforgeable, Receivable, Utf8.Valid;
    MessagesArriveInOrder(sender, receiver);
    CutOff(receiver, i);
    assert receiver.frames[i] == sender.accepted[i];
    RequestArrives(requests[i]);
  }

  /** The replies the receiver unpacks are the responses that were made, in the same way. */
  lemma RepliesArrive(sender: Stream, receiver: Stream, responses: seq<Response>, i: nat)
    requires sender.Valid() && receiver.Valid() && Connected(sender, receiver)
    requires |responses| == |sender.accepted|
    requires forall j :: 0 <= j < |responses| ==> sender.accepted[j] == ResponseText(responses[j])
    requires i < |receiver.frames|
    ensures i < |responses|
    ensures ReplyIn(receiver.frames[i]) == Some(ReplyOf(responses[i])) <==>
              (responses[i].Failure? ==> Utf8.Valid(responses[i].error)) && Receivable(responses[i].parameters)
    ensures Unforgeable(responses[i].parameters) ==> ReplyIn(receiver.frames[i]) == Some(ReplyOf(responses[i]))
  {
    hide ResponseText, ReplyIn, Parse, Unforgeable, Receivable, Utf8.Valid;
    MessagesArriveInOrder(sender, receiver);
    CutOff(receiver, i);
    assert receiver.frames[i] == sender.accepted[i];
    ResponseArrives(responses[i]);
  }

  lemma CutOff(receiver: Stream, i: nat)
    requires receiver.Valid() && i < |receiver.frames|
    ensures Parse(receiver.frames[i]).Some?
  {
    hide Parse;
  }
}
