/** The two negotiation loops over a stream object, and the scan that finds a handler. */
module MultistreamLoop {
  import opened Basics
  import opened Multistream

  /** A stream as one side sees it: the messages still to arrive, after which the stream is at its end, the
      messages written, and the negotiated protocol. */
  class Stream {
    var inbound: seq<string>
    var outbound: seq<string>
    var protocol: string

    constructor (messages: seq<string>)
      ensures inbound == messages && outbound == [] && protocol == ""
    {
      inbound, outbound, protocol := messages, [], "";
    }

    method Write(message: string)
      modifies this`outbound
      ensures outbound == old(outbound) + [message]
    {
      outbound := outbound + [message];
    }

    /** A read at the end of the stream fails. */
    method Read() returns (r: Outcome)
      modifies this`inbound
      ensures r == if old(inbound) == [] then Err(StreamFailed) else ReadMessage(old(inbound)[0])
      ensures inbound == if old(inbound) == [] then [] else old(inbound)[1..]
    {
      if inbound == [] {
        return Err(StreamFailed);
      }
      r := ReadMessage(inbound[0]);
      inbound := inbound[1..];
    }
  }

  /** A message that is read: within the size limit, and a line. */
  predicate Whole(data: string) {
    0 < |data| <= 1024 && data[|data| - 1] == '\n'
  }

  function Text(data: string): string
    requires Whole(data)
  {
    data[..|data| - 1]
  }

  /** How a message that is not read fails. */
  function Fault(data: string): Failure {
    if |data| > 1024 then StreamFailed else MalformedMessage
  }

  lemma {:induction false} ReadIs(data: string)
    ensures ReadMessage(data) == if Whole(data) then Ok(Text(data)) else Err(Fault(data))
  {
  }

  /** What one side has done by the end of its loop. */
  datatype Finish = Finish(outcome: Outcome, sent: seq<string>, left: seq<string>, protocol: Option<string>)

  predicate Placed(p: seq<string>, d: Dialer) {
    match d
    case SendFirst => p != []
    case ReadReply(i) => i < |p|
    case SendNext(i) => i < |p|
    case _ => true
  }

  function Ahead(p: seq<string>, d: Dialer): nat
    requires Placed(p, d)
  {
    match d
    case SendHeader => 2 * |p| + 3
    case SendFirst => 2 * |p| + 2
    case ReadHeader => 2 * |p| + 1
    case ReadReply(i) => 2 * (|p| - i) - 1
    case SendNext(i) => 2 * (|p| - i)
    case Selected(_, _) => 0
  }

  /** The dialer of the negotiation model, stepped to its end against the given messages. */
  function DialerRun(p: seq<string>, d: Dialer, input: seq<string>): Finish
    requires Placed(p, d)
    decreases Ahead(p, d)
  {
    if d.Selected? then Finish(d.outcome, [], input, None)
    else if Sends(p, d).Some? then
      var rest := DialerRun(p, AfterSend(p, d), input);
      rest.(sent := [Sends(p, d).value] + rest.sent)
    else if input == [] then Finish(Err(StreamFailed), [], [], None)
    else if d.ReadReply? && ReadMessage(input[0]) == Ok(p[d.i]) then Finish(Ok(p[d.i]), [], input[1..], Some(p[d.i]))
    else DialerRun(p, AfterRead(p, d, input[0]), input[1..])
  }

  /** The listener of the negotiation model, stepped to its end against the given messages. */
  function ListenerRun(l: Support, handshaked: bool, input: seq<string>): Finish
    decreases |input|
  {
    if input == [] then Finish(Ok(""), [], [], None)
    else
      var next := Heard(l, handshaked, input[0]);
      if next.Handled? then Finish(next.outcome, [], input[1..], None)
      else if next.taken.Some? then Finish(Ok(next.taken.value), [next.message], input[1..], next.taken)
      else Behind([next.message], ListenerRun(l, true, input[1..]))
  }

  /** The rest of a run behind the messages already sent. */
  function Behind(sent: seq<string>, rest: Finish): Finish {
    rest.(sent := sent + rest.sent)
  }

  lemma {:induction false} BehindBoth(a: seq<string>, b: seq<string>, rest: Finish)
    ensures Behind(a, Behind(b, rest)) == Behind(a + b, rest)
  {
    Assoc(a, b, rest.sent);
  }

  /** The side's stream after its loop. */
  predicate Finished(s: Stream, r: Outcome, f: Finish, sent: seq<string>, protocol: string)
    reads s
  {
    && r == f.outcome
    && s.inbound == f.left
    && s.outbound == sent + f.sent
    && s.protocol == if f.protocol.Some? then f.protocol.value else protocol
  }

  function Opening(p: seq<string>): seq<string> {
    if |p| > 0 then [Line(CODEC), Line(p[0])] else [Line(CODEC)]
  }

  lemma {:induction false} DialerOpens(p: seq<string>, input: seq<string>)
    ensures DialerRun(p, SendHeader, input) == Behind(Opening(p), DialerRun(p, ReadHeader, input))
  {
    hide Line;
    var rest := DialerRun(p, ReadHeader, input);
    if |p| > 0 {
      assert DialerRun(p, SendFirst, input) == Behind([Line(p[0])], rest);
      BehindBoth([Line(CODEC)], [Line(p[0])], rest);
    }
  }

  lemma {:induction false} HeaderRuns(p: seq<string>, input: seq<string>, header: Outcome)
    requires header == if input == [] then Err(StreamFailed) else ReadMessage(input[0])
    ensures var left := if input == [] then [] else input[1..];
            DialerRun(p, ReadHeader, input) ==
            if header.Err? then Finish(header, [], left, None)
            else if header.value != CODEC then Finish(Err(HandshakeFailed), [], left, None)
            else if p == [] then Finish(Ok(CODEC), [], left, None)
            else DialerRun(p, ReadReply(0), left)
  {
    hide ReadMessage;
  }

  /** The run from the i-th proposal on. */
  function FromProposal(p: seq<string>, i: nat, input: seq<string>): Finish {
    if i < |p| then DialerRun(p, SendNext(i), input) else Finish(Ok(""), [], input, None)
  }

  lemma {:induction false} ReplyRuns(p: seq<string>, i: nat, input: seq<string>, reply: Outcome)
    requires i < |p|
    requires reply == if input == [] then Err(StreamFailed) else ReadMessage(input[0])
    ensures var left := if input == [] then [] else input[1..];
            DialerRun(p, ReadReply(i), input) ==
            if reply.Err? then Finish(reply, [], left, None)
            else if reply.value == p[i] then Finish(Ok(p[i]), [], left, Some(p[i]))
            else FromProposal(p, i + 1, left)
  {
    hide ReadMessage;
  }

  lemma {:induction false} ProposalRuns(p: seq<string>, i: nat, input: seq<string>)
    requires i < |p|
    ensures FromProposal(p, i, input) == Behind([Line(p[i])], DialerRun(p, ReadReply(i), input))
  {
    hide Line;
  }

  /** `trySelect`: `f` is what it did, and `n` how many proposals were answered with something else. */
  method TrySelect(stream: Stream, proto: seq<string>) returns (r: Outcome, ghost f: Finish, ghost n: nat)
    modifies stream
    ensures Finished(stream, r, f, old(stream.outbound), old(stream.protocol))
    ensures Selects(proto, old(stream.inbound), f, n)
    ensures f == DialerRun(proto, SendHeader, old(stream.inbound))
  {
    hide DialerRun, Selects;
    f := DialerRun(proto, SendHeader, stream.inbound);
    n := DialerRunSelects(proto, stream.inbound);
    r := SelectLoop(stream, proto);
  }

  method SelectLoop(stream: Stream, proto: seq<string>) returns (r: Outcome)
    modifies stream
    ensures Finished(stream, r, DialerRun(proto, SendHeader, old(stream.inbound)),
                     old(stream.outbound), old(stream.protocol))
  {
    hide ReadMessage, Line, DialerRun, FromProposal;
    stream.Write(Line(CODEC));
    if |proto| > 0 {
      stream.Write(Line(proto[0]));
    }
    ghost var all := DialerRun(proto, SendHeader, stream.inbound);
    DialerOpens(proto, stream.inbound);
    assert stream.outbound == old(stream.outbound) + Opening(proto);
    ghost var input := stream.inbound;
    var header := stream.Read();
    HeaderRuns(proto, input, header);
    if header.Err? {
      return header;
    }
    if header.value != CODEC {
      return Err(HandshakeFailed);
    }
    if |proto| == 0 {
      return Ok(CODEC);
    }
    input := stream.inbound;
    var response := stream.Read();
    ReplyRuns(proto, 0, input, response);
    if response.Err? {
      return response;
    }
    if response.value == proto[0] {
      stream.protocol := proto[0];
      return Ok(proto[0]);
    }
    ghost var sent := Opening(proto);
    var i := 1;
    while i < |proto|
      invariant 1 <= i <= |proto|
      invariant stream.outbound == old(stream.outbound) + sent
      invariant stream.protocol == old(stream.protocol)
      invariant all == Behind(sent, FromProposal(proto, i, stream.inbound))
    {
      stream.Write(Line(proto[i]));
      input := stream.inbound;
      ProposalRuns(proto, i, input);
      BehindBoth(sent, [Line(proto[i])], DialerRun(proto, ReadReply(i), input));
      Assoc(old(stream.outbound), sent, [Line(proto[i])]);
      sent := sent + [Line(proto[i])];
      var alternative := stream.Read();
      ReplyRuns(proto, i, input, alternative);
      if alternative.Err? {
        return alternative;
      }
      if alternative.value == proto[i] {
        stream.protocol := proto[i];
        return Ok(proto[i]);
      }
      i := i + 1;
    }
    r := Ok("");
    assert FromProposal(proto, i, stream.inbound) == Finish(r, [], stream.inbound, None) by {
      NoProposal(proto, i, stream.inbound);
    }
  }

  lemma {:induction false} NoProposal(p: seq<string>, i: nat, input: seq<string>)
    requires i >= |p|
    ensures FromProposal(p, i, input) == Finish(Ok(""), [], input, None)
  {
  }

  /** One turn of the listener's loop. */
  lemma {:induction false} ListenerTurn(l: Support, h: bool, input: seq<string>, sent: seq<string>, all: Finish)
    requires input != []
    requires all == Behind(sent, ListenerRun(l, h, input))
    ensures var next := Heard(l, h, input[0]);
            all == if next.Handled? then Finish(next.outcome, sent, input[1..], None)
                   else if next.taken.Some? then Finish(Ok(next.taken.value), sent + [next.message], input[1..], next.taken)
                   else Behind(sent + [next.message], ListenerRun(l, true, input[1..]))
  {
    hide Heard;
    var next := Heard(l, h, input[0]);
    if next.Writing? && next.taken.None? {
      BehindBoth(sent, [next.message], ListenerRun(l, true, input[1..]));
    }
  }

  /** `tryHandle`, started with or without the handshake behind it: `f` is what it did, and `n` how many
      messages it answered before the one it ended on. */
  method TryHandle(stream: Stream, l: Support, active: bool) returns (r: Outcome, ghost f: Finish, ghost n: nat)
    modifies stream
    ensures Finished(stream, r, f, old(stream.outbound), old(stream.protocol))
    ensures Handles(l, active, old(stream.inbound), f, n)
    ensures f == ListenerRun(l, active, old(stream.inbound))
  {
    hide ReadMessage, ListenerRun, Line, Lines, Handles;
    f := ListenerRun(l, active, stream.inbound);
    n := ListenerRunHandles(l, active, stream.inbound);
    r := HandleLoop(stream, l, active);
  }

  method HandleLoop(stream: Stream, l: Support, active: bool) returns (r: Outcome)
    modifies stream
    ensures Finished(stream, r, ListenerRun(l, active, old(stream.inbound)),
                     old(stream.outbound), old(stream.protocol))
  {
    hide ReadMessage, ListenerRun, Line, Lines;
    var handshaked := active;
    ghost var all := ListenerRun(l, active, stream.inbound);
    ghost var sent: seq<string> := [];
    while stream.inbound != []
      invariant stream.outbound == old(stream.outbound) + sent
      invariant stream.protocol == old(stream.protocol)
      invariant all == Behind(sent, ListenerRun(l, handshaked, stream.inbound))
      decreases |stream.inbound|
    {
      ListenerTurn(l, handshaked, stream.inbound, sent, all);
      ghost var next := Heard(l, handshaked, stream.inbound[0]);
      var message := stream.Read();
      if message.Err? {
        return message;
      }
      var ms := message.value;
      if !handshaked && ms != CODEC {
        return Err(InvalidFirstMessage);
      }
      var answer;
      if ms == "ls" {
        answer := Line(Lines(l.protos));
      } else if ms == CODEC {
        answer := if handshaked then NA else Line(CODEC);
      } else if Supports(l, ms) {
        stream.Write(Line(ms));
        stream.protocol := ms;
        return Ok(ms);
      } else {
        answer := NA;
      }
      stream.Write(answer);
      handshaked := true;
      sent := sent + [answer];
    }
    r := Ok("");
    NoMessage(l, handshaked);
  }

  lemma {:induction false} NoMessage(l: Support, handshaked: bool)
    ensures ListenerRun(l, handshaked, []) == Finish(Ok(""), [], [], None)
  {
  }

  /** A message the listener answers and reads on: the header at first, then whatever is not taken. */
  predicate Answers(l: Support, first: bool, data: string, reply: string) {
    && Whole(data)
    && (if first then Text(data) == "/multistream/1.0.0" && reply == data
        else if Text(data) == "ls" then reply == Lines(l.protos) + "\n"
        else (Text(data) == "/multistream/1.0.0" || !Supports(l, Text(data))) && reply == "na\n")
  }

  /** The message the listener ends on. */
  predicate Ends(l: Support, first: bool, data: string, outcome: Outcome, sent: seq<string>, protocol: Option<string>) {
    if !Whole(data) then outcome == Err(Fault(data)) && sent == [] && protocol == None
    else if first then
      Text(data) != "/multistream/1.0.0" && outcome == Err(InvalidFirstMessage) && sent == [] && protocol == None
    else
      && Text(data) != "ls" && Text(data) != "/multistream/1.0.0" && Supports(l, Text(data))
      && outcome == Ok(Text(data)) && sent == [data] && protocol == Some(Text(data))
  }

  /** What a listener does with its messages: `n` of them are answered in turn; then it ends on the next, or
      with nothing at the end of the stream. */
  predicate Handles(l: Support, active: bool, input: seq<string>, f: Finish, n: nat) {
    && n <= |input| && n <= |f.sent|
    && (forall i :: 0 <= i < n ==> Answers(l, i == 0 && !active, input[i], f.sent[i]))
    && if n == |input| then f.outcome == Ok("") && |f.sent| == n && f.left == [] && f.protocol == None
       else f.left == input[n + 1..] && Ends(l, n == 0 && !active, input[n], f.outcome, f.sent[n..], f.protocol)
  }

  /** One message, by what it says. */
  lemma {:induction false} HeardIs(l: Support, handshaked: bool, data: string)
    ensures var next := Heard(l, handshaked, data);
            if next.Handled? then Ends(l, !handshaked, data, next.outcome, [], None)
            else if next.taken.None? then Answers(l, !handshaked, data, next.message)
            else Ends(l, !handshaked, data, Ok(next.taken.value), [next.message], next.taken)
  {
    hide Lines;
    ReadIs(data);
    if Whole(data) {
      assert Line(Text(data)) == data;
    }
  }

  lemma {:induction false} ListenerRunHandles(l: Support, active: bool, input: seq<string>) returns (n: nat)
    ensures Handles(l, active, input, ListenerRun(l, active, input), n)
    decreases |input|
  {
    hide Heard, Answers, Ends;
    n := 0;
    if input != [] {
      HeardIs(l, active, input[0]);
      var f, next := ListenerRun(l, active, input), Heard(l, active, input[0]);
      if next.Handled? || next.taken.Some? {
        assert f.sent[0..] == f.sent;
      } else {
        var rest := ListenerRun(l, true, input[1..]);
        n := ListenerRunHandles(l, true, input[1..]);
        assert f.sent == [next.message] + rest.sent && f.sent[n + 1..] == rest.sent[n..];
        assert input[1..][n..] == input[n + 1..];
        n := n + 1;
      }
    }
  }

  /** What the dialer has sent once it asked for `k` proposals. */
  function Asked(p: seq<string>, k: nat): seq<string>
    requires k <= |p|
  {
    ["/multistream/1.0.0\n"] + seq(k, i requires 0 <= i < k => p[i] + "\n")
  }

  /** What a dialer does with its messages: the first must be the header; then `n` replies are something else
      than the proposal asked for, and the next one ends it. */
  predicate Selects(p: seq<string>, input: seq<string>, f: Finish, n: nat) {
    if input == [] then n == 0 && f == Finish(Err(StreamFailed), Asked(p, if p == [] then 0 else 1), [], None)
    else if !Whole(input[0]) then
      n == 0 && f == Finish(Err(Fault(input[0])), Asked(p, if p == [] then 0 else 1), input[1..], None)
    else if Text(input[0]) != "/multistream/1.0.0" then
      n == 0 && f == Finish(Err(HandshakeFailed), Asked(p, if p == [] then 0 else 1), input[1..], None)
    else if p == [] then n == 0 && f == Finish(Ok("/multistream/1.0.0"), Asked(p, 0), input[1..], None)
    else
      && n <= |p| && n < |input|
      && (forall i :: 0 <= i < n ==> Whole(input[1 + i]) && Text(input[1 + i]) != p[i])
      && (if n == |p| then f == Finish(Ok(""), Asked(p, n), input[1 + n..], None)
          else if 1 + n == |input| then f == Finish(Err(StreamFailed), Asked(p, n + 1), [], None)
          else if !Whole(input[1 + n]) then f == Finish(Err(Fault(input[1 + n])), Asked(p, n + 1), input[2 + n..], None)
          else Text(input[1 + n]) == p[n] && f == Finish(Ok(p[n]), Asked(p, n + 1), input[2 + n..], Some(p[n])))
  }

  /** The run from the i-th reply on, by what the replies say; `n` counts from the first reply. */
  predicate Follows(p: seq<string>, i: nat, input: seq<string>, f: Finish, n: nat) {
    && i <= n <= |p| && n - i <= |input|
    && (forall k :: 0 <= k < n - i ==> Whole(input[k]) && Text(input[k]) != p[i + k])
    && (if n == |p| then f.outcome == Ok("") && f.left == input[n - i..] && f.protocol == None
        else if n - i == |input| then f.outcome == Err(StreamFailed) && f.left == [] && f.protocol == None
        else if !Whole(input[n - i]) then
          f.outcome == Err(Fault(input[n - i])) && f.left == input[n - i + 1..] && f.protocol == None
        else Text(input[n - i]) == p[n] && f.outcome == Ok(p[n]) && f.left == input[n - i + 1..] && f.protocol == Some(p[n]))
    && |f.sent| == (if n == |p| then n else n + 1) - (i + 1)
    && forall k :: 0 <= k < |f.sent| ==> f.sent[k] == Line(p[i + 1 + k])
  }

  lemma {:induction false} RepliesFollow(p: seq<string>, i: nat, input: seq<string>) returns (n: nat)
    requires i < |p|
    ensures Follows(p, i, input, DialerRun(p, ReadReply(i), input), n)
    decreases |p| - i
  {
    hide DialerRun, Line, ReadMessage;
    var reply := if input == [] then Err(StreamFailed) else ReadMessage(input[0]);
    ReplyRuns(p, i, input, reply);
    n := i;
    if input != [] {
      ReadIs(input[0]);
      if Whole(input[0]) && Text(input[0]) != p[i] {
        n := i + 1;
        if i + 1 < |p| {
          ProposalRuns(p, i + 1, input[1..]);
          var rest := DialerRun(p, ReadReply(i + 1), input[1..]);
          n := RepliesFollow(p, i + 1, input[1..]);
          FollowsOn(p, i, input, rest, n);
        }
      }
    }
  }

  lemma {:induction false} FollowsOn(p: seq<string>, i: nat, input: seq<string>, rest: Finish, n: nat)
    requires i + 1 < |p| && input != [] && Whole(input[0]) && Text(input[0]) != p[i]
    requires Follows(p, i + 1, input[1..], rest, n)
    ensures Follows(p, i, input, Behind([Line(p[i + 1])], rest), n)
  {
    hide Line, Text, Whole;
    assert forall k :: 0 <= k < |input| - 1 ==> input[1..][k] == input[k + 1];
    assert input[1..][n - i - 1..] == input[n - i..];
    if n - i < |input| {
      assert input[1..][n - i..] == input[n - i + 1..];
    }
    forall k | 0 <= k < n - i
      ensures Whole(input[k]) && Text(input[k]) != p[i + k]
    {
      if k > 0 {
        assert input[k] == input[1..][k - 1];
      }
    }
  }

  lemma {:induction false} DialerRunSelects(p: seq<string>, input: seq<string>) returns (n: nat)
    ensures Selects(p, input, DialerRun(p, SendHeader, input), n)
  {
    hide DialerRun, Line, ReadMessage, Asked, Whole, Text;
    n := 0;
    DialerOpens(p, input);
    var header := if input == [] then Err(StreamFailed) else ReadMessage(input[0]);
    HeaderRuns(p, input, header);
    OpeningIs(p);
    if input != [] {
      ReadIs(input[0]);
      if Whole(input[0]) && Text(input[0]) == CODEC && p != [] {
        n := RepliesFollow(p, 0, input[1..]);
        SelectsOn(p, input, DialerRun(p, ReadReply(0), input[1..]), n);
      }
    }
  }

  lemma {:induction false} OpeningIs(p: seq<string>)
    ensures Opening(p) == Asked(p, if p == [] then 0 else 1)
  {
    assert Line(CODEC) == "/multistream/1.0.0\n";
  }

  /** What is sent after the opening. */
  lemma {:induction false} AskedOn(p: seq<string>, sent: seq<string>)
    requires p != [] && |sent| < |p|
    requires forall k :: 0 <= k < |sent| ==> sent[k] == Line(p[1 + k])
    ensures Opening(p) + sent == Asked(p, |sent| + 1)
  {
    assert Line(CODEC) == "/multistream/1.0.0\n";
  }

  lemma {:induction false} SelectsOn(p: seq<string>, input: seq<string>, rest: Finish, n: nat)
    requires p != [] && input != [] && Whole(input[0]) && Text(input[0]) == CODEC
    requires Follows(p, 0, input[1..], rest, n)
    ensures Selects(p, input, Behind(Opening(p), rest), n)
  {
    hide Line, Text, Whole, Asked, Opening;
    AskedOn(p, rest.sent);
    assert forall k :: 0 <= k < |input| - 1 ==> input[1..][k] == input[1 + k];
    assert input[1..][n..] == input[1 + n..];
    if n + 1 < |input| {
      assert input[1..][n + 1..] == input[2 + n..];
    }
  }

  /** A registered handler: the protocols it names, what it runs, and an optional matcher. */
  datatype Holder<P> = Holder(protos: seq<string>, protocol: P, match_: Option<string -> bool>)

  predicate Serves<P>(h: Holder<P>, ms: string) {
    (h.match_.Some? && h.match_.value(ms)) || ms in h.protos
  }

  /** `lookupProtocol`: the first handler that serves the protocol. */
  method LookupProtocol<P>(handlers: seq<Holder<P>>, ms: string) returns (r: Option<P>)
    ensures r.Some? <==> exists i :: 0 <= i < |handlers| && Serves(handlers[i], ms)
    ensures r.Some? ==>
              exists i :: 0 <= i < |handlers| && Serves(handlers[i], ms) && r.value == handlers[i].protocol &&
                          forall j :: 0 <= j < i ==> !Serves(handlers[j], ms)
  {
    for i := 0 to |handlers|
      invariant forall j :: 0 <= j < i ==> !Serves(handlers[j], ms)
    {
      if Serves(handlers[i], ms) {
        return Some(handlers[i].protocol);
      }
    }
    r := None;
  }

  /** The protocol names of all handlers, in the order they are registered. */
  function AllProtos<P>(handlers: seq<Holder<P>>): seq<string> {
    if handlers == [] then []
    else AllProtos(handlers[..|handlers| - 1]) + handlers[|handlers| - 1].protos
  }

  /** `allProtosAndMatchers`: the protocols are listed in the order of registration; the listener supports
      exactly what some handler serves, and never the empty name. */
  method AllProtosAndMatchers<P>(handlers: seq<Holder<P>>) returns (l: Support)
    ensures l.protos == AllProtos(handlers)
    ensures forall ms :: Supports(l, ms) <==> ms != "" && exists i :: 0 <= i < |handlers| && Serves(handlers[i], ms)
  {
    var protos: seq<string>, matchers: seq<string -> bool> := [], [];
    for i := 0 to |handlers|
      invariant protos == AllProtos(handlers[..i])
      invariant forall ms :: Gathered(protos, matchers, ms) <==> exists j :: 0 <= j < i && Serves(handlers[j], ms)
    {
      assert handlers[..i + 1][..i] == handlers[..i];
      ghost var p0, m0 := protos, matchers;
      if handlers[i].match_.Some? {
        matchers := matchers + [handlers[i].match_.value];
      }
      for k := 0 to |handlers[i].protos|
        invariant protos == p0 + handlers[i].protos[..k]
      {
        protos := protos + [handlers[i].protos[k]];
      }
      forall ms
        ensures Gathered(protos, matchers, ms) <==> Gathered(p0, m0, ms) || Serves(handlers[i], ms)
      {
        GatheredMore(p0, m0, handlers[i], protos, matchers, ms);
      }
    }
    assert handlers[..|handlers|] == handlers;
    l := Support(protos, matchers);
    forall ms
      ensures Supports(l, ms) <==> ms != "" && Gathered(protos, matchers, ms)
    {
    }
  }

  predicate Gathered(protos: seq<string>, matchers: seq<string -> bool>, ms: string) {
    ms in protos || exists i :: 0 <= i < |matchers| && matchers[i](ms)
  }

  lemma {:induction false} GatheredMore<P>(
    p0: seq<string>, m0: seq<string -> bool>, h: Holder<P>, p1: seq<string>, m1: seq<string -> bool>, ms: string)
    requires p1 == p0 + h.protos
    requires m1 == if h.match_.Some? then m0 + [h.match_.value] else m0
    ensures Gathered(p1, m1, ms) <==> Gathered(p0, m0, ms) || Serves(h, ms)
  {
    if Gathered(p0, m0, ms) && ms !in p0 {
      var i :| 0 <= i < |m0| && m0[i](ms);
      assert m1[i](ms);
    }
    if h.match_.Some? && h.match_.value(ms) {
      assert m1[|m0|](ms);
    }
  }
}
