/** Qualified names of methods and errors as addresses (lib/uri.c), read with an interface and a member. */
module Uris {
  import opened Errors
  import opened Text
  import opened Tokens

  datatype Identified = Named(interfaceName: string, member: string) | Rejected(error: Outcome)

  // ---------------------------------------------------------------- splitting

  /** Where `c` is first found, or the end of the string. */
  function FirstAt(s: string, c: char): (n: nat)
    ensures n <= |s| && (n < |s| ==> s[n] == c) && forall i :: 0 <= i < n ==> s[i] != c
  {
    if s == "" || s[0] == c then 0 else 1 + FirstAt(s[1..], c)
  }

  /** Where `c` is last found, if anywhere. */
  function LastAt(s: string, c: char): (n: Option<nat>)
    ensures n.None? ==> c !in s
    ensures n.Some? ==> n.value < |s| && s[n.value] == c && forall i :: n.value < i < |s| ==> s[i] != c
  {
    if s == "" then None
    else if s[|s|-1] == c then Some(|s| - 1)
    else LastAt(s[..|s|-1], c)
  }

  datatype Protocol = NoProtocol | Device | Unix | Tcp

  function ProtocolOf(address: string): (Protocol, nat) {
    if "device:" <= address then (Device, 7)
    else if "unix:" <= address then (Unix, 5)
    else if "tcp:" <= address then (Tcp, 4)
    else (NoProtocol, 0)
  }

  /** `sscanf` with "%02lx": blanks, a sign, and digits, of which the sign and the digits are two characters at most. */
  predicate HexFollows(s: string, p: nat)
    requires p <= |s|
  {
    var q := SkipSpace(s, p);
    HexDigit(At(s, q)).Some? || (IsSign(At(s, q)) && HexDigit(At(s, q + 1)).Some?)
  }

  /** Whether all escapes of a path can be decoded. */
  predicate Decodable(s: string, p: nat)
    requires p <= |s|
    decreases |s| - p
  {
    if p == |s| then true
    else if s[p] != '%' then Decodable(s, p + 1)
    else p + 3 <= |s| && HexFollows(s, p + 1) && Decodable(s, p + 3)
  }

  /** An address without its fragment and its query. */
  function Plain(s: string): string {
    var t := s[..FirstAt(s, '#')];
    t[..FirstAt(t, '?')]
  }

  /** A name, split at its last dot. */
  function Split(name: string): (id: Identified)
    ensures id.Rejected? ==> id.error == InvalidIdentifier
  {
    var dot := LastAt(name, '.');
    if dot.None? then Rejected(InvalidIdentifier) else Named(name[..dot.value], name[dot.value + 1..])
  }

  function Identify(address: string): (id: Identified)
    ensures id.Rejected? ==> id.error in {InvalidIdentifier, InvalidAddress}
  {
    var (protocol, n) := ProtocolOf(address);
    var s := Plain(address[n..]);
    var slash := LastAt(s, '/');
    var id := Split(if slash.Some? then s[slash.value + 1..] else s);
    if id.Rejected? || protocol.NoProtocol? then id
    else if slash.None? then Rejected(InvalidAddress)
    else
      var path := s[..slash.value];
      if (protocol.Tcp? && '/' in path) || !Decodable(path, 0) then Rejected(InvalidAddress) else id
  }

  /** A name without any of the characters that split an address is split at its last dot. */
  lemma PlainName(interfaceName: string, member: string)
    requires forall c <- ":#?/" :: c !in interfaceName && c !in member
    requires '.' !in member
    ensures Identify(interfaceName + "." + member) == Named(interfaceName, member)
  {
    hide ProtocolOf, Decodable, FirstAt, LastAt;
    var s := interfaceName + "." + member;
    assert ":#?/" == [':', '#', '?', '/'];
    assert ':' !in s && '#' !in s && '?' !in s;
    NoProtocolIn(s);
    FirstNone(s, '#');
    FirstNone(s, '?');
    assert s[0..] == s && s[..|s|] == s && '/' !in s;
    LastIs(s, '.', |interfaceName|);
    assert LastAt(s, '/') == None;
  }

  lemma NoProtocolIn(s: string)
    requires ':' !in s
    ensures ProtocolOf(s) == (NoProtocol, 0)
  {
    assert "device:"[6] == ':' && "unix:"[4] == ':' && "tcp:"[3] == ':';
  }

  lemma FirstNone(s: string, c: char)
    requires c !in s
    ensures FirstAt(s, c) == |s|
  {
  }

  lemma LastIs(s: string, c: char, n: nat)
    requires n < |s| && s[n] == c && forall i :: n < i < |s| ==> s[i] != c
    ensures LastAt(s, c) == Some(n)
  {
  }

  lemma FirstIs(s: string, c: char, n: nat)
    requires n < |s| && s[n] == c && forall i :: 0 <= i < n ==> s[i] != c
    ensures FirstAt(s, c) == n
  {
  }

  /** What stands behind a number sign or a question mark does not matter. */
  lemma PlainBefore(x: string, c: char, rest: string)
    requires ':' !in x && '#' !in x && '?' !in x && c in {'#', '?'} && (c == '?' ==> '#' !in rest)
    ensures Plain(x + [c] + rest) == x && ProtocolOf(x + [c] + rest) == (NoProtocol, 0)
  {
    hide FirstAt;
    var s := x + [c] + rest;
    assert s[|x|] == c && forall i :: 0 <= i < |x| ==> s[i] == x[i];
    assert "device:"[6] == ':' && "unix:"[4] == ':' && "tcp:"[3] == ':';
    if c == '#' {
      FirstIs(s, '#', |x|);
      FirstNone(x, '?');
    } else {
      FirstNone(s, '#');
      FirstIs(s, '?', |x|);
    }
    assert s[..|x|] == x && s[..|s|] == s && x[..|x|] == x;
  }

  lemma PlainItself(x: string)
    requires ':' !in x && '#' !in x && '?' !in x
    ensures Plain(x) == x && ProtocolOf(x) == (NoProtocol, 0)
  {
    NoProtocolIn(x);
    FirstNone(x, '#');
    FirstNone(x, '?');
    assert x[..|x|] == x;
  }

  /** An address without a protocol: the name is what stands behind the last slash, and in front of a number sign or a
      question mark. */
  lemma NameInAddress(path: string, name: string, rest: string, c: char)
    requires forall x <- ":#?/" :: x !in name
    requires ':' !in path && '#' !in path && '?' !in path
    requires c in {'#', '?'} && (c == '?' ==> '#' !in rest)
    ensures Identify(path + "/" + name + [c] + rest) == Identify(name)
    ensures Identify(name + [c] + rest) == Identify(name) && Identify(path + "/" + name) == Identify(name)
  {
    hide Plain, ProtocolOf, LastAt, Decodable;
    var x := path + "/" + name;
    assert '/' in ":#?/" && ':' in ":#?/" && '#' in ":#?/" && '?' in ":#?/" by {
      assert ":#?/" == [':', '#', '?', '/'];
    }
    PlainItself(name);
    PlainItself(x);
    PlainBefore(name, c, rest);
    PlainBefore(x, c, rest);
    forall i | |path| < i < |x| ensures x[i] != '/' {
      assert x[i] == name[i - |path| - 1];
    }
    LastIs(x, '/', |path|);
    NoSlash(name);
    assert x[|path| + 1..] == name;
    assert x[0..] == x && name[0..] == name && (x + [c] + rest)[0..] == x + [c] + rest;
    assert (name + [c] + rest)[0..] == name + [c] + rest;
  }

  lemma NoSlash(s: string)
    requires '/' !in s
    ensures LastAt(s, '/') == None
  {
  }

  /** An address with a protocol must have a path that can be decoded and, for TCP, has no slash; the name is what
      stands behind the last slash, as without a protocol. */
  lemma NameBehindProtocol(protocol: string, path: string, name: string)
    requires protocol in {"device:", "unix:", "tcp:"} && '#' !in path && '?' !in path
    requires ':' !in name && '#' !in name && '?' !in name && '/' !in name && '.' in name
    ensures Identify(protocol + (path + "/" + name)) ==
      if Decodable(path, 0) && (protocol == "tcp:" ==> '/' !in path) then Identify(name) else Rejected(InvalidAddress)
    ensures Identify(protocol + name) == Rejected(InvalidAddress)
  {
    hide Plain, ProtocolOf, LastAt, Decodable, Identify, Split;
    PlainJoined(path, name);
    BehindProtocol(protocol, path + "/" + name);
    BehindProtocol(protocol, name);
    NoSlash(name);
    LastSlash(path, name);
    HasDot(name);
    NoProtocolSplit(name);
  }

  lemma LastSlash(path: string, name: string)
    requires '/' !in name
    ensures var x := path + "/" + name;
      LastAt(x, '/') == Some(|path|) && x[|path| + 1..] == name && x[..|path|] == path
  {
    hide LastAt;
    var x := path + "/" + name;
    forall i | |path| < i < |x| ensures x[i] != '/' {
      assert x[i] == name[i - |path| - 1];
    }
    LastIs(x, '/', |path|);
  }

  lemma PlainJoined(path: string, name: string)
    requires '#' !in path && '?' !in path && '#' !in name && '?' !in name
    ensures Plain(path + "/" + name) == path + "/" + name && Plain(name) == name
  {
    hide Plain;
    PlainPath(path + "/" + name);
    PlainPath(name);
  }

  lemma NoProtocolSplit(name: string)
    requires ':' !in name && '#' !in name && '?' !in name && '/' !in name
    ensures Identify(name) == Split(name)
  {
    hide Plain, ProtocolOf, LastAt, Decodable;
    PlainItself(name);
    NoSlash(name);
    assert name[0..] == name;
  }

  lemma BehindProtocol(protocol: string, s: string)
    requires protocol in {"device:", "unix:", "tcp:"} && Plain(s) == s
    ensures var slash := LastAt(s, '/');
      Identify(protocol + s) ==
        var name := if slash.Some? then s[slash.value + 1..] else s;
        if LastAt(name, '.').None? then Rejected(InvalidIdentifier)
        else if slash.Some? && Decodable(s[..slash.value], 0) && (protocol == "tcp:" ==> '/' !in s[..slash.value]) then
          Split(name)
        else Rejected(InvalidAddress)
  {
    hide Plain, ProtocolOf, LastAt, Decodable;
    ProtocolIs(protocol, s);
  }

  lemma PlainPath(x: string)
    requires '#' !in x && '?' !in x
    ensures Plain(x) == x
  {
    FirstNone(x, '#');
    FirstNone(x, '?');
    assert x[..|x|] == x;
  }

  lemma ProtocolIs(protocol: string, x: string)
    requires protocol in {"device:", "unix:", "tcp:"}
    ensures var (which, n) := ProtocolOf(protocol + x);
      !which.NoProtocol? && (which.Tcp? <==> protocol == "tcp:") && n == |protocol| && (protocol + x)[n..] == x
  {
    assert (protocol + x)[..|protocol|] == protocol && (protocol + x)[0] == protocol[0];
    assert (protocol + x)[|protocol|..] == x;
    assert "device:"[0] == 'd' && "unix:"[0] == 'u' && "tcp:"[0] == 't';
  }

  lemma HasDot(s: string)
    requires '.' in s
    ensures LastAt(s, '.').Some?
  {
  }
}
