/**
 The exchange between AFL, the proxy that stands in for its fork server, and the peer
 that runs the target: three parties, four channels and the shared trace map.
 */
module ForkServer {
  import opened Wrappers
  import CoverageIndex
  import opened Bits
  import opened Serialize

  const MAP_SIZE: nat := CoverageIndex.MAP_SIZE
  /** No process identifier on Linux is larger. */
  const PID_MAX_LIMIT: nat := 0x40_0000
  const PROXY_PID: nat := PID_MAX_LIMIT + 1

  /** Lengths are sent as non-negative 32-bit integers. */
  const TWO31: nat := 0x8000_0000

  /** The peer's answer to one HELO. */
  datatype Answer = Answer(status: word, trace: seq<byte>)

  /** A four-byte word to AFL; what it means and which request it answers is history only. */
  datatype Kind = Hello | Pid | Status
  datatype Msg = Msg(kind: Kind, round: nat, value: nat)

  /** In `Disarming` AFL has read the status and has not stopped its timer yet. */
  datatype AflPc = AwaitHello | Ready | AwaitPid | AwaitStatus | Disarming | Misbehaving

  datatype ProxyPc =
    | Start
    | Idle
    | Requested
    | Announced
    | ReadStatus(got: seq<byte>)
    | ReadLength(got: seq<byte>)
    | Copying(at: nat, n: nat)

  datatype State = State(
    afl: AflPc, proxy: ProxyPc,
    requests: nat, childPid: nat, timedOut: bool, status: nat, kills: set<nat>,
    ctl: seq<nat>, st: seq<Msg>, toPeer: nat, fromPeer: seq<byte>, pending: seq<byte>,
    proxyStatus: nat, trace: seq<byte>, answers: seq<Answer>)

  datatype Event =
    | AflHello
    | AflRequest
    | AflPid
    | AflTimeout
    | AflStatus
    | AflDisarm
    | ProxyHello
    | ProxyRequest
    | ProxyPid
    | ProxyHelo
    | ProxyByte
    | ProxyReply
    | PeerAnswer(answer: Answer)
    | PeerSend

  function Zeros(n: nat): (s: seq<byte>)
    ensures |s| == n
  {
    seq<byte>(n, i => 0)
  }

  function Init(garbage: seq<byte>): State {
    State(AwaitHello, Start, 0, 0, false, 0, {}, [], [], 0, [], [], 0, garbage, [])
  }

  /** How many bytes of a trace the proxy takes. */
  function Clamp(n: nat): nat {
    if MAP_SIZE < n then MAP_SIZE else n
  }

  /** `WIFSTOPPED`. */
  predicate Stopped(status: nat) {
    status % 256 == 0x7f
  }

  function AflStep(s: State, e: Event): Option<State>
    requires e.AflHello? || e.AflRequest? || e.AflPid? || e.AflTimeout? || e.AflStatus? || e.AflDisarm?
  {
    match e
    case AflHello =>
      if s.afl != AwaitHello || s.st == [] then None
      else Some(s.(afl := Ready, st := s.st[1..]))
    case AflRequest =>
      if s.afl != Ready then None
      else Some(s.(afl := AwaitPid, requests := s.requests + 1, timedOut := false,
                   trace := Zeros(MAP_SIZE), ctl := s.ctl + [if s.timedOut then 1 else 0]))
    case AflPid =>
      if s.afl != AwaitPid || s.st == [] then None
      else
        var v := s.st[0].value;
        Some(s.(afl := if v > 0 then AwaitStatus else Misbehaving, childPid := v, st := s.st[1..]))
    case AflTimeout =>
      if (s.afl != AwaitStatus && s.afl != Disarming) || s.childPid == 0 then None
      else Some(s.(timedOut := true, kills := s.kills + {s.childPid}))
    case AflStatus =>
      if s.afl != AwaitStatus || s.st == [] then None
      else
        var v := s.st[0].value;
        Some(s.(afl := Disarming, status := v, childPid := if Stopped(v) then s.childPid else 0, st := s.st[1..]))
    case AflDisarm =>
      if s.afl != Disarming then None
      else Some(s.(afl := Ready))
  }

  function ProxyStep(s: State, e: Event): Option<State>
    requires e.ProxyHello? || e.ProxyRequest? || e.ProxyPid? || e.ProxyHelo? || e.ProxyByte? || e.ProxyReply?
  {
    match e
    case ProxyHello =>
      if s.proxy != Start then None
      else Some(s.(proxy := Idle, st := s.st + [Msg(Hello, 0, FromBytes([72, 69, 76, 79]))]))
    case ProxyRequest =>
      if s.proxy != Idle || s.ctl == [] then None
      else Some(s.(proxy := Requested, ctl := s.ctl[1..]))
    case ProxyPid =>
      if s.proxy != Requested then None
      else Some(s.(proxy := Announced, st := s.st + [Msg(Pid, s.requests, PROXY_PID)]))
    case ProxyHelo =>
      if s.proxy != Announced then None
      else Some(s.(proxy := ReadStatus([]), toPeer := s.toPeer + 1))
    case ProxyByte =>
      if s.fromPeer == [] then None
      else
        var r := s.(fromPeer := s.fromPeer[1..]);
        ProxyTakes(r, s.fromPeer[0])
    case ProxyReply =>
      if !s.proxy.Copying? || s.proxy.at < s.proxy.n then None
      else Some(s.(proxy := Idle, st := s.st + [Msg(Status, |s.answers|, s.proxyStatus)]))
  }

  /** The proxy reads one byte of the answer: of the status, of the length, or of the trace, which goes to the map. */
  function ProxyTakes(s: State, b: byte): Option<State> {
    match s.proxy
    case ReadStatus(got) =>
      var g := got + [b];
      if |g| < 4 then Some(s.(proxy := ReadStatus(g)))
      else Some(s.(proxy := ReadLength([]), proxyStatus := FromBytes(g)))
    case ReadLength(got) =>
      var g := got + [b];
      if |g| < 4 then Some(s.(proxy := ReadLength(g)))
      else Some(s.(proxy := Copying(0, Clamp(FromBytes(g)))))
    case Copying(at, n) =>
      if at >= n || at >= |s.trace| then None
      else Some(s.(proxy := Copying(at + 1, n), trace := s.trace[at := b]))
    case _ => None
  }

  /** What the peer sends for an answer: status, length and trace. */
  function Wire(a: Answer): seq<byte> {
    ToBytes(a.status, 4) + ToBytes(|a.trace|, 4) + a.trace
  }

  function PeerStep(s: State, e: Event): Option<State>
    requires e.PeerAnswer? || e.PeerSend?
  {
    match e
    case PeerAnswer(a) =>
      if s.toPeer == 0 || |a.trace| >= TWO31 then None
      else Some(s.(toPeer := s.toPeer - 1, pending := s.pending + Wire(a), answers := s.answers + [a]))
    case PeerSend =>
      if s.pending == [] then None
      else Some(s.(fromPeer := s.fromPeer + [s.pending[0]], pending := s.pending[1..]))
  }

  function Step(s: State, e: Event): Option<State> {
    if e.PeerAnswer? || e.PeerSend? then PeerStep(s, e)
    else if e.AflHello? || e.AflRequest? || e.AflPid? || e.AflTimeout? || e.AflStatus? || e.AflDisarm? then
      AflStep(s, e)
    else ProxyStep(s, e)
  }

  function After(s: State, es: seq<Event>): Option<State>
    decreases |es|
  {
    if |es| == 0 then Some(s)
    else match Step(s, es[0])
      case None => None
      case Some(t) => After(t, es[1..])
  }

  // ---------------------------------------------------------------- the invariant

  /** The answer fits the map. */
  predicate Fits(a: Answer) {
    |a.trace| <= MAP_SIZE
  }

  /** Every answer to a request before the current one fitted. */
  ghost predicate EarlierFit(s: State) {
    forall i :: 0 <= i < |s.answers| && i + 1 < s.requests ==> Fits(s.answers[i])
  }

  /** The map after n bytes of a trace. */
  function Padded(t: seq<byte>, n: nat): seq<byte>
    requires n <= |t| && n <= MAP_SIZE
  {
    t[..n] + Zeros(MAP_SIZE - n)
  }

  /** The bytes under way from the peer to the proxy. */
  function Stream(s: State): seq<byte> {
    s.fromPeer + s.pending
  }

  /** The proxy is waiting for, or reading, the answer to the current request. */
  ghost predicate Answering(s: State) {
    && s.ctl == [] && s.requests > 0
    && match s.proxy
       case ReadStatus(got) =>
         && |got| < 4 && s.trace == Zeros(MAP_SIZE)
         && ((s.toPeer == 1 && |s.answers| + 1 == s.requests && got == [] && Stream(s) == [])
             || (s.toPeer == 0 && |s.answers| == s.requests && |Last(s).trace| < TWO31 &&
               got + Stream(s) == Wire(Last(s))))
       case ReadLength(got) =>
         && |got| < 4 && s.trace == Zeros(MAP_SIZE)
         && s.toPeer == 0 && |s.answers| == s.requests && s.proxyStatus == Last(s).status
         && |Last(s).trace| < TWO31 && got + Stream(s) == ToBytes(|Last(s).trace|, 4) + Last(s).trace
       case Copying(at, n) =>
         && s.toPeer == 0 && |s.answers| == s.requests && s.proxyStatus == Last(s).status
         && at <= n == Clamp(|Last(s).trace|)
         && Stream(s) == Last(s).trace[at..] && s.trace == Padded(Last(s).trace, at)
       case _ => false
  }

  function Last(s: State): Answer
    requires |s.answers| > 0
  {
    s.answers[|s.answers| - 1]
  }

  /** The answer to the current request has been read in full, up to what did not fit. */
  ghost predicate Answered(s: State) {
    && s.ctl == [] && s.toPeer == 0 && s.proxy == Idle
    && s.requests == |s.answers| > 0 && s.proxyStatus == Last(s).status
    && Stream(s) == Last(s).trace[Clamp(|Last(s).trace|)..]
    && s.trace == Padded(Last(s).trace, Clamp(|Last(s).trace|))
  }

  /** Nothing of the current request has reached the peer. */
  ghost predicate Fresh(s: State) {
    && s.toPeer == 0 && Stream(s) == [] && |s.answers| + 1 == s.requests && s.trace == Zeros(MAP_SIZE)
  }

  /** What is on the way to AFL, and where the three parties are. */
  ghost predicate Sync(s: State) {
    match s.afl
    case AwaitHello =>
      && s.requests == 0 && s.answers == [] && s.ctl == [] && s.toPeer == 0 && Stream(s) == []
      && (|| (s.proxy == Start && s.st == [])
          || (s.proxy == Idle && |s.st| == 1 && s.st[0] == Msg(Hello, 0, FromBytes([72, 69, 76, 79]))))
    case Ready =>
      && s.st == []
      && if s.requests == 0 then s.proxy == Idle && s.answers == [] && s.ctl == [] && s.toPeer == 0 && Stream(s) == []
         else Answered(s) && s.status == Last(s).status
    case Disarming =>
      && s.st == [] && Answered(s) && s.status == Last(s).status
      && (s.childPid == 0 || s.childPid == PROXY_PID)
    case AwaitPid =>
      || (|s.ctl| == 1 && s.st == [] && s.proxy == Idle && Fresh(s))
      || (s.ctl == [] && s.st == [] && s.proxy == Requested && Fresh(s))
      || (s.ctl == [] && |s.st| == 1 && IsPid(s, 0) && s.proxy == Announced && Fresh(s))
      || (|s.st| == 1 && IsPid(s, 0) && Answering(s))
      || (|s.st| == 2 && IsPid(s, 0) && IsStatus(s, 1) && Answered(s))
    case AwaitStatus =>
      && s.childPid == PROXY_PID
      && (|| (s.ctl == [] && s.st == [] && s.proxy == Announced && Fresh(s))
          || (s.st == [] && Answering(s))
          || (|s.st| == 1 && IsStatus(s, 0) && Answered(s)))
    case Misbehaving => false
  }

  predicate IsPid(s: State, i: nat)
    requires i < |s.st|
  {
    s.st[i] == Msg(Pid, s.requests, PROXY_PID)
  }

  predicate IsStatus(s: State, i: nat)
    requires i < |s.st|
  {
    s.st[i] == Msg(Status, s.requests, s.proxyStatus)
  }

  ghost predicate Inv(s: State) {
    EarlierFit(s) ==> Sync(s) && s.kills <= {PROXY_PID}
  }

  lemma EarlierFitBack(s: State, e: Event, r: State)
    requires Step(s, e) == Some(r) && EarlierFit(r)
    ensures EarlierFit(s)
  {
    hide FromBytes, ToBytes, Zeros, Wire;
    forall i | 0 <= i < |s.answers| && i + 1 < s.requests ensures Fits(s.answers[i]) {
      assert r.answers[i] == s.answers[i];
    }
  }

  lemma InitInv(garbage: seq<byte>)
    ensures Inv(Init(garbage))
  {
  }

  lemma AflKeeps(s: State, e: Event, r: State)
    requires e.AflHello? || e.AflPid? || e.AflTimeout? || e.AflStatus? || e.AflDisarm?
    requires Sync(s) && s.kills <= {PROXY_PID} && Step(s, e) == Some(r)
    ensures Sync(r) && r.kills <= {PROXY_PID}
  {
    hide FromBytes, ToBytes, Zeros, Wire, Padded, Stopped;
    SameProxySide(s, r);
    hide Answering, Answered, Fresh, Stream;
  }

  /** AFL's steps, apart from a request, leave what the proxy and the peer are doing. */
  lemma SameProxySide(s: State, r: State)
    requires r.proxy == s.proxy && r.requests == s.requests && r.ctl == s.ctl && r.toPeer == s.toPeer
    requires r.fromPeer == s.fromPeer && r.pending == s.pending && r.proxyStatus == s.proxyStatus
    requires r.trace == s.trace && r.answers == s.answers
    ensures Answering(r) == Answering(s) && Answered(r) == Answered(s) && Fresh(r) == Fresh(s)
    ensures Stream(r) == Stream(s)
  {
    hide FromBytes, ToBytes, Zeros, Wire, Padded, Clamp;
  }

  /** A new request starts from an empty stream, because the last answer fitted. */
  lemma RequestKeeps(s: State, r: State)
    requires Sync(s) && s.kills <= {PROXY_PID} && Step(s, AflRequest) == Some(r) && EarlierFit(r)
    ensures Sync(r) && r.kills <= {PROXY_PID}
  {
    hide FromBytes, ToBytes, Zeros, Wire, Padded;
    if s.requests > 0 {
      assert Fits(s.answers[|s.answers| - 1]);
      assert Stream(s) == [];
    }
    assert Fresh(r);
  }

  lemma ProxyKeeps(s: State, e: Event, r: State)
    requires e.ProxyHello? || e.ProxyRequest? || e.ProxyPid?
    requires Sync(s) && s.kills <= {PROXY_PID} && Step(s, e) == Some(r)
    ensures Sync(r) && r.kills <= {PROXY_PID}
  {
    hide FromBytes, ToBytes, Zeros, Wire, Padded, Clamp;
  }

  lemma HeloKeeps(s: State, r: State)
    requires Sync(s) && s.kills <= {PROXY_PID} && Step(s, ProxyHelo) == Some(r)
    ensures Sync(r) && r.kills <= {PROXY_PID}
  {
    hide FromBytes, ToBytes, Zeros, Wire, Padded, Clamp;
    assert Fresh(s);
    assert Answering(r);
    hide Answering, Answered, Fresh;
  }

  lemma ReplyKeeps(s: State, r: State)
    requires Sync(s) && s.kills <= {PROXY_PID} && Step(s, ProxyReply) == Some(r)
    ensures Sync(r) && r.kills <= {PROXY_PID}
  {
    hide FromBytes, ToBytes, Zeros, Wire, Padded, Clamp;
    assert Answering(s);
    assert Answered(r);
    hide Answering, Answered, Fresh;
  }

  lemma SendKeeps(s: State, r: State)
    requires Sync(s) && s.kills <= {PROXY_PID} && Step(s, PeerSend) == Some(r)
    ensures Sync(r) && r.kills <= {PROXY_PID}
  {
    hide FromBytes, ToBytes, Zeros, Wire, Padded, Clamp;
    assert Stream(r) == Stream(s);
    hide Stream;
  }

  lemma AnswerKeeps(s: State, a: Answer, r: State)
    requires Sync(s) && s.kills <= {PROXY_PID} && Step(s, PeerAnswer(a)) == Some(r)
    ensures Sync(r) && r.kills <= {PROXY_PID}
  {
    hide FromBytes, ToBytes, Zeros, Wire, Padded, Clamp;
    assert Answering(s);
    AnswerStarts(s, a, r);
    hide Answering, Answered, Fresh;
  }

  lemma AnswerStarts(s: State, a: Answer, r: State)
    requires Answering(s) && s.toPeer > 0 && Step(s, PeerAnswer(a)) == Some(r)
    ensures Answering(r)
  {
    hide FromBytes, ToBytes, Zeros, Wire, Padded, Clamp;
    assert Stream(r) == Stream(s) + Wire(a);
    assert s.answers + [a] == r.answers;
    hide Stream;
    assert [] + ([] + Wire(a)) == Wire(a);
  }

  /** Reading a byte: a word is complete with its fourth byte, a byte of the trace goes to its place in the map. */
  lemma ByteKeeps(s: State, r: State)
    requires Sync(s) && s.kills <= {PROXY_PID} && Step(s, ProxyByte) == Some(r)
    ensures Sync(r) && r.kills <= {PROXY_PID}
  {
    hide FromBytes, ToBytes, Zeros, Wire, Padded;
    assert Stream(s) == [s.fromPeer[0]] + Stream(s.(fromPeer := s.fromPeer[1..]));
    assert Answering(s);
    AnsweringByte(s, r);
  }

  lemma AnsweringByte(s: State, r: State)
    requires Answering(s) && s.fromPeer != [] && Step(s, ProxyByte) == Some(r)
    ensures Answering(r) && r.st == s.st && r.afl == s.afl && r.childPid == s.childPid
    ensures r.requests == s.requests && r.kills == s.kills
  {
    hide FromBytes, ToBytes, Zeros, Wire, Padded, Clamp;
    var b := s.fromPeer[0];
    assert Stream(s) == [b] + Stream(r);
    match s.proxy
    case ReadStatus(got) =>
      StatusByte(s, r, got, b);
    case ReadLength(got) =>
      LengthByte(s, r, got, b);
    case Copying(at, n) =>
      CopyByte(s, r, at, n);
  }

  lemma StatusByte(s: State, r: State, got: seq<byte>, b: byte)
    requires Answering(s) && s.fromPeer != [] && b == s.fromPeer[0] && Step(s, ProxyByte) == Some(r)
    requires s.proxy == ReadStatus(got) && Stream(s) == [b] + Stream(r)
    ensures Answering(r)
  {
    hide FromBytes, ToBytes, Zeros, Wire, Padded, Clamp;
    assert (got + [b]) + Stream(r) == got + Stream(s);
    if |got| == 3 { StatusRead(Last(s), got + [b], Stream(r)); }
  }

  lemma LengthByte(s: State, r: State, got: seq<byte>, b: byte)
    requires Answering(s) && s.fromPeer != [] && b == s.fromPeer[0] && Step(s, ProxyByte) == Some(r)
    requires s.proxy == ReadLength(got) && Stream(s) == [b] + Stream(r)
    ensures Answering(r)
  {
    hide FromBytes, ToBytes, Zeros, Wire, Padded;
    assert (got + [b]) + Stream(r) == got + Stream(s);
    if |got| == 3 { LengthRead(Last(s), got + [b], Stream(r)); }
  }

  lemma CopyByte(s: State, r: State, at: nat, n: nat)
    requires Answering(s) && s.fromPeer != [] && Step(s, ProxyByte) == Some(r)
    requires s.proxy == Copying(at, n) && Stream(s) == [s.fromPeer[0]] + Stream(r)
    ensures Answering(r)
  {
    hide FromBytes, ToBytes, Zeros, Wire, Padded, Stream;
    var t := Last(s).trace;
    NextOf(t, at, s.fromPeer[0], Stream(r));
    PaddedNext(t, at);
  }

  lemma NextOf(t: seq<byte>, at: nat, b: byte, rest: seq<byte>)
    requires at < |t| && t[at..] == [b] + rest
    ensures b == t[at] && rest == t[at + 1..]
  {
    assert t[at..][0] == t[at] && t[at..][1..] == t[at + 1..];
  }

  lemma SameSplit(a: seq<byte>, b: seq<byte>, c: seq<byte>, d: seq<byte>)
    requires a + b == c + d && |a| == |c|
    ensures a == c && b == d
  {
    assert a == (a + b)[..|a|] && c == (c + d)[..|c|];
    assert b == (a + b)[|a|..] && d == (c + d)[|c|..];
  }

  lemma StatusRead(a: Answer, got: seq<byte>, rest: seq<byte>)
    requires |got| == 4 && got + rest == Wire(a)
    ensures FromBytes(got) == a.status && rest == ToBytes(|a.trace|, 4) + a.trace
  {
    hide FromBytes, ToBytes;
    assert Wire(a) == ToBytes(a.status, 4) + (ToBytes(|a.trace|, 4) + a.trace);
    SameSplit(got, rest, ToBytes(a.status, 4), ToBytes(|a.trace|, 4) + a.trace);
    Pow256At4();
    BytesRoundTrip(a.status, 4);
  }

  lemma LengthRead(a: Answer, got: seq<byte>, rest: seq<byte>)
    requires |got| == 4 && got + rest == ToBytes(|a.trace|, 4) + a.trace && |a.trace| < TWO32
    ensures FromBytes(got) == |a.trace| && rest == a.trace
    ensures Padded(a.trace, 0) == Zeros(MAP_SIZE)
  {
    hide FromBytes, ToBytes;
    SameSplit(got, rest, ToBytes(|a.trace|, 4), a.trace);
    Pow256At4();
    BytesRoundTrip(|a.trace|, 4);
  }

  lemma PaddedNext(t: seq<byte>, at: nat)
    requires at < |t| && at < MAP_SIZE
    ensures Padded(t, at)[at := t[at]] == Padded(t, at + 1)
  {
  }

  lemma SyncStep(s: State, e: Event, r: State)
    requires Sync(s) && s.kills <= {PROXY_PID} && Step(s, e) == Some(r) && EarlierFit(r)
    ensures Sync(r) && r.kills <= {PROXY_PID}
  {
    hide Sync, EarlierFit, Step;
    match e
    case AflRequest => RequestKeeps(s, r);
    case ProxyByte => ByteKeeps(s, r);
    case PeerAnswer(a) => AnswerKeeps(s, a, r);
    case PeerSend => SendKeeps(s, r);
    case AflHello => AflKeeps(s, e, r);
    case AflPid => AflKeeps(s, e, r);
    case AflTimeout => AflKeeps(s, e, r);
    case ProxyHelo => HeloKeeps(s, r);
    case ProxyReply => ReplyKeeps(s, r);
    case AflStatus => AflKeeps(s, e, r);
    case AflDisarm => AflKeeps(s, e, r);
    case _ => ProxyKeeps(s, e, r);
  }

  lemma {:induction false} InvAfter(s: State, es: seq<Event>, r: State)
    requires Inv(s) && After(s, es) == Some(r)
    ensures Inv(r)
    decreases |es|
  {
    if |es| > 0 {
      hide Sync, EarlierFit, Step;
      var m := Step(s, es[0]).value;
      if EarlierFit(m) {
        EarlierFitBack(s, es[0], m);
        SyncStep(s, es[0], m);
      }
      InvAfter(m, es[1..], r);
    }
  }

  // ---------------------------------------------------------------- what holds in every run

  /** A state some run reaches. */
  ghost predicate Reached(s: State) {
    exists garbage, es :: After(Init(garbage), es) == Some(s)
  }

  lemma ReachedInv(s: State)
    requires Reached(s)
    ensures Inv(s)
  {
    var garbage, es :| After(Init(garbage), es) == Some(s);
    InitInv(garbage);
    InvAfter(Init(garbage), es, s);
  }

  /** AFL never takes one kind of word for another: a hello, a process identifier and the status of its own request. */
  lemma WordsNotConfused(s: State)
    requires Reached(s) && EarlierFit(s) && s.st != []
    ensures s.afl == AwaitHello ==> s.st[0] == Msg(Hello, 0, 0x4f4c_4548)
    ensures s.afl == AwaitPid ==> s.st[0] == Msg(Pid, s.requests, 0x40_0001)
    ensures s.afl == AwaitStatus ==>
      |s.answers| == s.requests > 0 && s.st[0] == Msg(Status, s.requests, Last(s).status)
    ensures s.afl == AwaitHello || s.afl == AwaitPid || s.afl == AwaitStatus
  {
    HelloWord();
    hide FromBytes;
    ReachedInv(s);
    hide Padded, Zeros;
  }

  /** When AFL goes on after a request, it has the status and the trace of the answer to that request. */
  lemma OwnAnswer(s: State)
    requires Reached(s) && EarlierFit(s) && (s.afl == Ready || s.afl == Disarming) && s.requests > 0
    ensures |s.answers| == s.requests && s.status == Last(s).status
    ensures |s.trace| == MAP_SIZE
    ensures forall k :: 0 <= k < MAP_SIZE ==> s.trace[k] == if k < |Last(s).trace| then Last(s).trace[k] else 0
  {
    ReachedInv(s);
    PaddedSlots(Last(s).trace);
    hide Padded, Zeros, Clamp;
  }

  lemma PaddedSlots(t: seq<byte>)
    ensures Clamp(|t|) <= |t| && Clamp(|t|) <= MAP_SIZE && |Padded(t, Clamp(|t|))| == MAP_SIZE
    ensures forall k :: 0 <= k < MAP_SIZE ==> Padded(t, Clamp(|t|))[k] == if k < |t| then t[k] else 0
  {
  }

  /** A request finds the map cleared and tells the proxy whether the run before it timed out. */
  lemma RequestClears(s: State, r: State)
    requires Step(s, AflRequest) == Some(r)
    ensures |r.trace| == MAP_SIZE && forall k :: 0 <= k < MAP_SIZE ==> r.trace[k] == 0
    ensures r.ctl == s.ctl + [if s.timedOut then 1 else 0] && !r.timedOut
  {
  }

  lemma HelloWord()
    ensures FromBytes([72, 69, 76, 79]) == 0x4f4c_4548
  {
    var a, b, c := [69, 76, 79], [76, 79], [79];
    assert [72, 69, 76, 79][1..] == a && a[1..] == b && b[1..] == c && c[1..] == [];
    assert FromBytes(c) == 79;
    assert FromBytes(b) == 76 + 256 * 79;
    assert FromBytes(a) == 69 + 256 * (76 + 256 * 79);
  }

  /** The proxy writes the map only after it has taken AFL's request and before it has sent the status. */
  lemma MapWrittenInside(s: State)
    requires Reached(s) && EarlierFit(s) && s.proxy.Copying?
    ensures (s.afl == AwaitPid || s.afl == AwaitStatus) && s.ctl == []
    ensures forall i :: 0 <= i < |s.st| ==> s.st[i].kind == Pid
  {
    ReachedInv(s);
    hide Padded, Zeros;
  }

  /** Every map change is AFL clearing it or the proxy copying into it. */
  lemma OnlyCopyingWrites(s: State, e: Event, r: State)
    requires Step(s, e) == Some(r) && r.trace != s.trace
    ensures e.AflRequest? || (e.ProxyByte? && s.proxy.Copying?)
  {
    hide FromBytes, ToBytes, Zeros;
  }

  /** Whatever the timer does, no process that can exist is signalled. */
  lemma NobodyKilled(s: State)
    requires Reached(s) && EarlierFit(s)
    ensures forall pid :: pid in s.kills ==> pid > 0x40_0000
    ensures s.afl != Misbehaving
  {
    ReachedInv(s);
    hide Padded, Zeros;
  }

  /** After an answer the stream from the peer is in step exactly when the answer fitted the map. */
  lemma InStepIfFits(s: State)
    requires Reached(s) && EarlierFit(s) && (s.afl == Ready || s.afl == Disarming) && s.requests > 0
    ensures |s.answers| == s.requests && (Stream(s) == [] <==> Fits(Last(s)))
    ensures Stream(s) == if |Last(s).trace| <= MAP_SIZE then [] else Last(s).trace[MAP_SIZE..]
  {
    ReachedInv(s);
    hide Padded, Zeros;
  }

  /** No deadlock: unless AFL itself is about to start a request, somebody other than the timer can go on. */
  lemma SomebodyCanStep(s: State)
    requires Reached(s) && EarlierFit(s)
    ensures exists e: Event :: !e.AflTimeout? && Step(s, e).Some?
  {
    ReachedInv(s);
    WhereTheyWait(s);
    hide Sync, Answering, Inv, Reached, Zeros, FromBytes, Step;
    if
      || s.afl == Ready || s.afl == Disarming
      || (s.afl == AwaitHello && s.proxy != Start) || (s.afl != AwaitHello && s.st != [])
    {
      AflCanStep(s);
    } else if s.afl == AwaitHello || !Answering(s) {
      ProxyCanStep(s);
    } else {
      AnsweringCanStep(s);
    }
  }

  /** How many requests wait for the peer's answer. */
  function Unanswered(s: State): int {
    s.requests - |s.answers|
  }

  /** What is left to do for the answers that are there: words to read and write, bytes to send and to take. */
  function LeftToDo(s: State): int {
    10 * |s.ctl| + 2 * |s.pending| + |s.fromPeer|
    + (match s.afl
       case AwaitHello => 1
       case Ready => 0
       case AwaitPid => 3
       case AwaitStatus => 2
       case Disarming => 1
       case Misbehaving => 0)
    + match s.proxy
      case Start => 1
      case Idle => 0
      case Requested => 9
      case Announced => 8
      case _ => 7
  }

  /** Every step but AFL's next request and the timer brings the answer nearer, so every request ends. */
  lemma Progress(s: State, e: Event, r: State)
    requires Reached(s) && EarlierFit(s) && Step(s, e) == Some(r) && !e.AflRequest? && !e.AflTimeout?
    ensures 0 <= Unanswered(s) && 0 <= LeftToDo(r)
    ensures Unanswered(r) < Unanswered(s) || (Unanswered(r) == Unanswered(s) && LeftToDo(r) < LeftToDo(s))
  {
    ReachedInv(s);
    Asked(s);
    hide Reached, Inv, Sync, EarlierFit, AflStep, ProxyStep, PeerStep, LeftToDo;
    LeftIsNat(r);
    if e.PeerAnswer? || e.PeerSend? {
      PeerProgress(s, e, r);
    } else if e.AflHello? || e.AflPid? || e.AflStatus? || e.AflDisarm? {
      AflProgress(s, e, r);
    } else {
      ProxyProgress(s, e, r);
    }
  }

  lemma LeftIsNat(s: State)
    ensures LeftToDo(s) >= 0
  {
  }

  lemma PeerProgress(s: State, e: Event, r: State)
    requires (e.PeerAnswer? || e.PeerSend?) && PeerStep(s, e) == Some(r)
    ensures Unanswered(r) < Unanswered(s) || (Unanswered(r) == Unanswered(s) && LeftToDo(r) < LeftToDo(s))
  {
    hide Wire;
  }

  lemma AflProgress(s: State, e: Event, r: State)
    requires (e.AflHello? || e.AflPid? || e.AflStatus? || e.AflDisarm?) && AflStep(s, e) == Some(r)
    ensures Unanswered(r) == Unanswered(s) && LeftToDo(r) < LeftToDo(s)
  {
  }

  lemma ProxyProgress(s: State, e: Event, r: State)
    requires e.ProxyHello? || e.ProxyRequest? || e.ProxyPid? || e.ProxyHelo? || e.ProxyByte? || e.ProxyReply?
    requires ProxyStep(s, e) == Some(r)
    ensures Unanswered(r) == Unanswered(s) && LeftToDo(r) < LeftToDo(s)
  {
    hide FromBytes, Clamp;
  }

  lemma Asked(s: State)
    requires Sync(s)
    ensures |s.answers| <= s.requests
  {
    hide Padded, Zeros, Wire, FromBytes, ToBytes;
  }

  /** What AFL can do next, by where it is. */
  lemma AflMay(s: State, e: Event)
    requires e.AflHello? || e.AflRequest? || e.AflPid? || e.AflTimeout? || e.AflStatus? || e.AflDisarm?
    ensures Step(s, e).Some? <==>
      match s.afl
      case AwaitHello => e.AflHello? && s.st != []
      case Ready => e.AflRequest?
      case AwaitPid => e.AflPid? && s.st != []
      case AwaitStatus => (e.AflStatus? && s.st != []) || (e.AflTimeout? && s.childPid != 0)
      case Disarming => e.AflDisarm? || (e.AflTimeout? && s.childPid != 0)
      case Misbehaving => false
  {
    hide Zeros;
  }

  /** The peer answers each HELO once, with a trace shorter than 2^31 bytes, and sends what it has to send. */
  lemma PeerMay(s: State, e: Event)
    requires e.PeerAnswer? || e.PeerSend?
    ensures Step(s, e).Some? <==>
      if e.PeerSend? then s.pending != [] else s.toPeer > 0 && |e.answer.trace| < 0x8000_0000
  {
  }

  /** Before the first run AFL has no timeout to tell of. */
  lemma {:induction false} NoEarlyTimeout(s: State, es: seq<Event>, r: State)
    requires After(s, es) == Some(r)
    requires (s.afl == AwaitHello || s.afl == Ready || s.requests > 0) && (s.timedOut ==> s.requests > 0)
    ensures (r.afl == AwaitHello || r.afl == Ready || r.requests > 0) && (r.timedOut ==> r.requests > 0)
    decreases |es|
  {
    if |es| > 0 {
      hide Step;
      var m := Step(s, es[0]).value;
      TimeoutStep(s, es[0], m);
      NoEarlyTimeout(m, es[1..], r);
    }
  }

  lemma TimeoutStep(s: State, e: Event, r: State)
    requires Step(s, e) == Some(r)
    requires (s.afl == AwaitHello || s.afl == Ready || s.requests > 0) && (s.timedOut ==> s.requests > 0)
    ensures (r.afl == AwaitHello || r.afl == Ready || r.requests > 0) && (r.timedOut ==> r.requests > 0)
  {
    hide FromBytes, ToBytes, Zeros, Wire, Clamp;
  }

  lemma FirstRequest(s: State, r: State)
    requires Reached(s) && s.requests == 0 && Step(s, AflRequest) == Some(r)
    ensures r.ctl == s.ctl + [0]
  {
    var garbage, es :| After(Init(garbage), es) == Some(s);
    NoEarlyTimeout(Init(garbage), es, s);
  }

  /** What the proxy can do next, by where it is. */
  lemma ProxyMay(s: State, e: Event)
    requires e.ProxyHello? || e.ProxyRequest? || e.ProxyPid? || e.ProxyHelo? || e.ProxyByte? || e.ProxyReply?
    ensures Step(s, e).Some? <==>
      match s.proxy
      case Start => e.ProxyHello?
      case Idle => e.ProxyRequest? && s.ctl != []
      case Requested => e.ProxyPid?
      case Announced => e.ProxyHelo?
      case ReadStatus(_) => e.ProxyByte? && s.fromPeer != []
      case ReadLength(_) => e.ProxyByte? && s.fromPeer != []
      case Copying(at, n) =>
        if at < n then e.ProxyByte? && s.fromPeer != [] && at < |s.trace| else e.ProxyReply?
  {
    hide FromBytes, Clamp;
  }

  /** The timer signals the process AFL was told of, and nothing else changes but its note of it. */
  lemma TimerSignals(s: State, r: State)
    requires Step(s, AflTimeout) == Some(r)
    ensures (s.afl == AwaitStatus || s.afl == Disarming) && s.childPid != 0
    ensures r == s.(timedOut := true, kills := s.kills + {s.childPid})
    ensures Reached(s) && EarlierFit(s) ==> r.kills == {PROXY_PID}
  {
    if Reached(s) && EarlierFit(s) { ReachedInv(s); }
    hide Reached, Answering, Answered, Fresh;
  }

  /** AFL gives up on a process identifier that is not positive. */
  lemma PidTaken(s: State, r: State)
    requires Step(s, AflPid) == Some(r)
    ensures s.st != [] && r.st == s.st[1..] && r.childPid == s.st[0].value
    ensures r.afl == if s.st[0].value == 0 then Misbehaving else AwaitStatus
  {
  }

  /** With the status AFL forgets the process, unless it only stopped. */
  lemma StatusTaken(s: State, r: State)
    requires Step(s, AflStatus) == Some(r)
    ensures s.st != [] && r.st == s.st[1..] && r.status == s.st[0].value && r.afl == Disarming
    ensures r.childPid == if s.st[0].value % 256 == 0x7f then s.childPid else 0
  {
  }

  lemma AflCanStep(s: State)
    requires s.afl == Ready || s.afl == Disarming || (s.afl != Misbehaving && s.st != [])
    ensures exists e: Event :: !e.AflTimeout? && Step(s, e).Some?
  {
    hide Zeros;
    var e := match s.afl
      case Ready => AflRequest
      case Disarming => AflDisarm
      case AwaitHello => AflHello
      case AwaitPid => AflPid
      case _ => AflStatus;
    assert Step(s, e).Some?;
  }

  lemma ProxyCanStep(s: State)
    requires s.proxy == Start || (s.proxy == Idle && s.ctl != []) || s.proxy == Requested || s.proxy == Announced
    ensures exists e: Event :: !e.AflTimeout? && Step(s, e).Some?
  {
    hide FromBytes;
    var e := match s.proxy
      case Start => ProxyHello
      case Idle => ProxyRequest
      case Requested => ProxyPid
      case _ => ProxyHelo;
    assert Step(s, e).Some?;
  }

  lemma WhereTheyWait(s: State)
    requires Sync(s)
    ensures s.afl != Misbehaving
    ensures s.afl == AwaitHello ==> s.proxy == Start || s.st != []
    ensures (s.afl == AwaitPid || s.afl == AwaitStatus) && s.st == [] ==>
      (s.proxy == Idle && s.ctl != []) || s.proxy == Requested || s.proxy == Announced || Answering(s)
  {
    hide Padded, Zeros, Wire, FromBytes, ToBytes;
  }

  lemma AnsweringCanStep(s: State)
    requires Answering(s)
    ensures exists e: Event :: !e.AflTimeout? && Step(s, e).Some?
  {
    if s.toPeer > 0 {
      assert Step(s, PeerAnswer(Answer(0, []))).Some?;
    } else if s.pending != [] {
      assert Step(s, PeerSend).Some?;
    } else if s.proxy.Copying? && s.proxy.at == s.proxy.n {
      assert Step(s, ProxyReply).Some?;
    } else {
      StreamLeft(s);
      assert Step(s, ProxyByte).Some?;
    }
  }

  lemma StreamLeft(s: State)
    requires Answering(s) && s.toPeer == 0 && s.pending == [] && !(s.proxy.Copying? && s.proxy.at == s.proxy.n)
    ensures s.fromPeer != []
    ensures s.proxy.Copying? ==> s.proxy.at < |s.trace|
  {
  }
}
