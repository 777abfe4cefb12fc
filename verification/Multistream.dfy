/** multistream-select negotiation of `libp2p/multistream.nim`: a dialer and a listener over two ordered
    channels of length-prefixed messages. */
module Multistream {
  import opened Basics

  const MSG_SIZE := 1024
  const CODEC := "/multistream/1.0.0"
  const NA := "na\n"

  datatype Failure = MalformedMessage | HandshakeFailed | InvalidFirstMessage | StreamFailed

  type Outcome = Result<string, Failure>

  /** A message as it goes over the wire. */
  function Line(s: string): (m: string)
    ensures |m| == |s| + 1 && m[|s|] == '\n' && m[..|s|] == s
  {
    s + "\n"
  }

  /** `decodeMessage`. */
  function DecodeMessage(data: string): Outcome {
    if data == "" || data[|data| - 1] != '\n' then Err(MalformedMessage) else Ok(data[..|data| - 1])
  }

  /** `readMessage`: a message over the size limit fails the stream. */
  function ReadMessage(data: string): Outcome {
    if |data| > MSG_SIZE then Err(StreamFailed) else DecodeMessage(data)
  }

  /** Decoding undoes framing, and only a framed message decodes. */
  lemma {:induction false} DecodeIff(data: string, s: string)
    ensures DecodeMessage(data) == Ok(s) <==> data == Line(s)
  {
    if DecodeMessage(data) == Ok(s) {
      assert data == data[..|data| - 1] + [data[|data| - 1]];
    }
  }

  /** What a listener supports. */
  datatype Support = Support(protos: seq<string>, matchers: seq<string -> bool>)

  predicate Supports(l: Support, ms: string) {
    |ms| > 0 && (ms in l.protos || exists i :: 0 <= i < |l.matchers| && l.matchers[i](ms))
  }

  /** The proposals the listener ends on. */
  predicate Takes(l: Support, ms: string) {
    ms != "ls" && ms != CODEC && Supports(l, ms)
  }

  function Lines(protos: seq<string>): string {
    if protos == [] then ""
    else if |protos| == 1 then protos[0]
    else protos[0] + "\n" + Lines(protos[1..])
  }

  /** What the listener sends back for a message after the handshake. */
  function Answer(l: Support, ms: string): string {
    if ms == "ls" then Line(Lines(l.protos))
    else if Takes(l, ms) then Line(ms)
    else NA
  }

  datatype Dialer =
    | SendHeader
    | SendFirst
    | ReadHeader
    | ReadReply(i: nat)
    | SendNext(i: nat)
    | Selected(outcome: Outcome, asked: nat)

  datatype Listener =
    | Reading(handshaked: bool)
    | Writing(message: string, taken: Option<string>)
    | Handled(outcome: Outcome)

  datatype State = State(
    dialer: Dialer,
    listener: Listener,
    toListener: seq<string>,
    toDialer: seq<string>,
    closed: bool)

  const START := State(SendHeader, Reading(false), [], [], false)

  /** What the dialer is about to send, if its next step is a write. */
  function Sends(p: seq<string>, d: Dialer): Option<string> {
    match d
    case SendHeader => Some(Line(CODEC))
    case SendFirst => if p == [] then None else Some(Line(p[0]))
    case SendNext(i) => if i < |p| then Some(Line(p[i])) else None
    case _ => None
  }

  function AfterSend(p: seq<string>, d: Dialer): Dialer {
    match d
    case SendHeader => if |p| > 0 then SendFirst else ReadHeader
    case SendFirst => ReadHeader
    case SendNext(i) => ReadReply(i)
    case other => other
  }

  predicate Reads(d: Dialer) {
    d.ReadHeader? || d.ReadReply?
  }

  /** The dialer with the next message of the listener. */
  function AfterRead(p: seq<string>, d: Dialer, data: string): Dialer
    requires Reads(d)
  {
    var asked := if d.ReadHeader? then 0 else d.i + 1;
    match ReadMessage(data)
    case Err(f) => Selected(Err(f), asked)
    case Ok(ms) =>
      match d
      case ReadHeader =>
        if ms != CODEC then Selected(Err(HandshakeFailed), 0)
        else if p == [] then Selected(Ok(CODEC), 0)
        else ReadReply(0)
      case ReadReply(i) =>
        if i < |p| && ms == p[i] then Selected(Ok(p[i]), i + 1)
        else if i + 1 < |p| then SendNext(i + 1)
        else Selected(Ok(""), i + 1)
  }

  /** The listener with the next message of the dialer. */
  function Heard(l: Support, handshaked: bool, data: string): (r: Listener)
    ensures !r.Reading?
  {
    match ReadMessage(data)
    case Err(f) => Handled(Err(f))
    case Ok(ms) =>
      if !handshaked && ms != CODEC then Handled(Err(InvalidFirstMessage))
      else if ms == CODEC && !handshaked then Writing(Line(CODEC), None)
      else Writing(Answer(l, ms), if Takes(l, ms) then Some(ms) else None)
  }

  /** The listener once its answer is written. */
  function Told(taken: Option<string>): Listener {
    match taken
    case Some(ms) => Handled(Ok(ms))
    case None => Reading(true)
  }

  /** A step of either side. The dialer's side closes the stream after it is done; the listener meets that
      end either before it reads, or in the middle of a read. */
  datatype Event = DialerMoves | ListenerMoves | Close | MeetEnd(clean: bool)

  predicate Enabled(p: seq<string>, s: State, e: Event) {
    match e
    case DialerMoves => Sends(p, s.dialer).Some? || (Reads(s.dialer) && s.toDialer != [])
    case ListenerMoves => s.listener.Writing? || (s.listener.Reading? && s.toListener != [])
    case Close => s.dialer.Selected? && !s.closed
    case MeetEnd(_) => s.closed && s.listener.Reading? && s.toListener == []
  }

  function Apply(p: seq<string>, l: Support, s: State, e: Event): State
    requires Enabled(p, s, e)
  {
    match e
    case DialerMoves =>
      if Sends(p, s.dialer).Some? then
        s.(dialer := AfterSend(p, s.dialer), toListener := s.toListener + [Sends(p, s.dialer).value])
      else
        s.(dialer := AfterRead(p, s.dialer, s.toDialer[0]), toDialer := s.toDialer[1..])
    case ListenerMoves =>
      if s.listener.Writing? then
        s.(listener := Told(s.listener.taken), toDialer := s.toDialer + [s.listener.message])
      else
        s.(listener := Heard(l, s.listener.handshaked, s.toListener[0]), toListener := s.toListener[1..])
    case Close => s.(closed := true)
    case MeetEnd(clean) => s.(listener := Handled(if clean then Ok("") else Err(StreamFailed)))
  }

  ghost predicate Runs(p: seq<string>, l: Support, s: State, events: seq<Event>, end: State)
    decreases events
  {
    if events == [] then s == end
    else Enabled(p, s, events[0]) && Runs(p, l, Apply(p, l, s, events[0]), events[1..], end)
  }

  /** Negotiations whose messages fit the size limit. */
  predicate Fits(p: seq<string>, l: Support) {
    && (forall i :: 0 <= i < |p| ==> |p[i]| + 1 <= MSG_SIZE)
    && ("ls" in p ==> |Lines(l.protos)| + 1 <= MSG_SIZE)
  }

  /** The proposals whose answer reads like an agreement. */
  predicate Echoed(l: Support, ms: string) {
    Answer(l, ms) == Line(ms)
  }

  /** The first proposal from `i` on that is echoed, or the end of the list. */
  function FirstEchoed(l: Support, p: seq<string>, i: nat): (k: nat)
    requires i <= |p|
    ensures i <= k <= |p|
    ensures forall j :: i <= j < k ==> !Echoed(l, p[j])
    ensures k < |p| ==> Echoed(l, p[k])
    decreases |p| - i
  {
    if i == |p| || Echoed(l, p[i]) then i else FirstEchoed(l, p, i + 1)
  }

  /** The first proposal from `i` on that the listener takes, or the end of the list. */
  function FirstTaken(l: Support, p: seq<string>, i: nat): (k: nat)
    requires i <= |p|
    ensures i <= k <= |p|
    ensures forall j :: i <= j < k ==> !Takes(l, p[j])
    ensures k < |p| ==> Takes(l, p[k])
    decreases |p| - i
  {
    if i == |p| || Takes(l, p[i]) then i else FirstTaken(l, p, i + 1)
  }

  /** An echo that is not an agreement: `na` unsupported, or `ls` to a listener of exactly `ls`. */
  lemma {:induction false} FalseEcho(l: Support, ms: string)
    ensures Takes(l, ms) ==> Echoed(l, ms)
    ensures Echoed(l, ms) <==> Takes(l, ms) || ms == "na" || (ms == "ls" && Lines(l.protos) == "ls")
    ensures Echoed(l, ms) ==> ms != ""
  {
    assert Line("na") == NA;
    if Echoed(l, ms) {
      assert Line(ms)[..|ms|] == ms;
      if ms == "ls" {
        assert Line(Lines(l.protos))[..|Lines(l.protos)|] == Lines(l.protos);
      } else if !Takes(l, ms) {
        assert NA[..2] == "na";
      }
    }
  }
}
