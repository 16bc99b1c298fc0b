/**
 The message queue of a multithreaded evaluation. Threads collect messages locally
 and flush them into one queue ordered by mtask; the main thread services it. The
 depth counter is tested and decremented outside the lock.
 */
module EvalMsgQueue {
  import opened Wrappers
  import opened Bits

  /** A message: the mtask that posted it and its callback. */
  datatype Msg = Msg(id: nat, cb: nat)

  /** A message with the thread that posted it. */
  datatype Sent = Sent(thread: nat, msg: Msg)

  /** `++` and `--` on an unsigned counter of modulus m. */
  function Up(x: nat, m: nat): nat
    requires m > 0
  {
    (x + 1) % m
  }

  function Down(x: nat, m: nat): nat
    requires m > 0
  {
    (x + m - 1) % m
  }

  /** Counting wraps like the counted number. */
  ghost predicate Counts(c: nat, n: nat, m: nat) {
    m > 0 && c == n % m
  }

  lemma CountsUp(c: nat, n: nat, m: nat)
    requires Counts(c, n, m)
    ensures Counts(Up(c, m), n + 1, m)
  {
    Euclid(n, m);
    if c + 1 == m {
      DivModUnique(m, m, 1, 0);
      DivModUnique(n + 1, m, n / m + 1, 0);
    } else {
      DivModUnique(c + 1, m, 0, c + 1);
      DivModUnique(n + 1, m, n / m, c + 1);
    }
  }

  lemma CountsNone(c: nat)
    requires Counts(c, 0, TWO32)
    ensures c == 0
  {
  }

  lemma CountsDown(c: nat, n: nat, m: nat)
    requires Counts(c, n, m) && n > 0
    ensures Counts(Down(c, m), n - 1, m)
  {
    Euclid(n, m);
    if c == 0 {
      DivModUnique(m - 1, m, 0, m - 1);
      DivModUnique(n - 1, m, n / m - 1, m - 1);
    } else {
      DivModUnique(c + m - 1, m, 1, c - 1);
      DivModUnique(n - 1, m, n / m, c - 1);
    }
  }

  // ---------------------------------------------------------------- the ordered queue

  /** `std::multiset::insert`: behind every message whose mtask is not larger. */
  function Insert(q: seq<Msg>, m: Msg): seq<Msg> {
    if |q| == 0 || m.id < q[0].id then [m] + q else [q[0]] + Insert(q[1..], m)
  }

  function InsertAll(q: seq<Msg>, ms: seq<Msg>): seq<Msg>
    decreases |ms|
  {
    if |ms| == 0 then q else InsertAll(Insert(q, ms[0]), ms[1..])
  }

  ghost predicate Sorted(q: seq<Msg>) {
    forall i, j :: 0 <= i < j < |q| ==> q[i].id <= q[j].id
  }

  /** The messages of one mtask, in order. */
  function OfTask(q: seq<Msg>, id: nat): seq<Msg> {
    if |q| == 0 then []
    else (if q[0].id == id then [q[0]] else []) + OfTask(q[1..], id)
  }

  lemma {:induction false} OfTaskConcat(a: seq<Msg>, b: seq<Msg>, id: nat)
    ensures OfTask(a + b, id) == OfTask(a, id) + OfTask(b, id)
  {
    if |a| == 0 {
      assert a + b == b;
    } else {
      assert (a + b)[0] == a[0] && (a + b)[1..] == a[1..] + b;
      OfTaskConcat(a[1..], b, id);
      var head := if a[0].id == id then [a[0]] else [];
      assert OfTask(a + b, id) == head + OfTask(a[1..] + b, id);
      assert OfTask(a, id) == head + OfTask(a[1..], id);
    }
  }

  lemma {:induction false} OfTaskNone(q: seq<Msg>, id: nat)
    ensures OfTask(q, id) == [] <==> forall i :: 0 <= i < |q| ==> q[i].id != id
  {
    if |q| > 0 {
      OfTaskNone(q[1..], id);
      assert forall i :: 1 <= i < |q| ==> q[i] == q[1..][i - 1];
    }
  }

  lemma OfTaskFirst(q: seq<Msg>)
    ensures |q| > 0 ==> OfTask(q, q[0].id) != []
  {
  }

  lemma {:induction false} InsertMembers(q: seq<Msg>, m: Msg)
    ensures |Insert(q, m)| == |q| + 1
    ensures forall x :: x in Insert(q, m) ==> x == m || x in q
  {
    if |q| > 0 && m.id >= q[0].id { InsertMembers(q[1..], m); }
  }

  lemma {:induction false} InsertSorted(q: seq<Msg>, m: Msg)
    requires Sorted(q)
    ensures Sorted(Insert(q, m))
  {
    if |q| > 0 && m.id >= q[0].id {
      var r := Insert(q[1..], m);
      InsertSorted(q[1..], m);
      InsertMembers(q[1..], m);
      forall j | 0 <= j < |r| ensures q[0].id <= r[j].id {
        assert r[j] in r;
      }
    }
  }

  lemma {:induction false} InsertTask(q: seq<Msg>, m: Msg, id: nat)
    requires Sorted(q)
    ensures OfTask(Insert(q, m), id) == OfTask(q, id) + if m.id == id then [m] else []
  {
    if |q| == 0 {
      assert Insert(q, m) == [m];
    } else if m.id < q[0].id {
      assert ([m] + q)[1..] == q;
      OfTaskNone(q, m.id);
    } else {
      InsertTask(q[1..], m, id);
      assert Insert(q, m)[1..] == Insert(q[1..], m);
    }
  }

  /** Insertion keeps the queue sorted and puts the message last among those of its mtask. */
  lemma InsertKeepsOrder(q: seq<Msg>, m: Msg)
    requires Sorted(q)
    ensures Sorted(Insert(q, m)) && |Insert(q, m)| == |q| + 1
    ensures forall id :: OfTask(Insert(q, m), id) == OfTask(q, id) + if m.id == id then [m] else []
  {
    InsertSorted(q, m);
    InsertMembers(q, m);
    forall id ensures OfTask(Insert(q, m), id) == OfTask(q, id) + if m.id == id then [m] else [] {
      InsertTask(q, m, id);
    }
  }

  lemma {:induction false} InsertAllKeepsOrder(q: seq<Msg>, ms: seq<Msg>)
    requires Sorted(q)
    ensures Sorted(InsertAll(q, ms)) && |InsertAll(q, ms)| == |q| + |ms|
    ensures forall id :: OfTask(InsertAll(q, ms), id) == OfTask(q, id) + OfTask(ms, id)
    decreases |ms|
  {
    if |ms| > 0 {
      InsertKeepsOrder(q, ms[0]);
      InsertAllKeepsOrder(Insert(q, ms[0]), ms[1..]);
    }
  }

  /** The mtask order and the order within each mtask leave no freedom. */
  lemma {:induction false} SortedUnique(a: seq<Msg>, b: seq<Msg>)
    requires Sorted(a) && Sorted(b) && forall id :: OfTask(a, id) == OfTask(b, id)
    ensures a == b
    decreases |a|
  {
    if |a| == 0 {
      OfTaskFirst(b);
    } else {
      var x := a[0].id;
      assert OfTask(a, x) == OfTask(b, x) && OfTask(a, x)[0] == a[0];
      OfTaskNone(b, x);
      assert OfTask(a, b[0].id) == OfTask(b, b[0].id);
      OfTaskNone(a, b[0].id);
      assert b[0].id == x && OfTask(b, x)[0] == b[0];
      forall id ensures OfTask(a[1..], id) == OfTask(b[1..], id) {
        assert OfTask(a, id) == OfTask(b, id);
        if id == x {
          assert OfTask(a, x)[1..] == OfTask(a[1..], x) && OfTask(b, x)[1..] == OfTask(b[1..], x);
        } else {
          assert OfTask(a, id) == OfTask(a[1..], id) && OfTask(b, id) == OfTask(b[1..], id);
        }
      }
      SortedUnique(a[1..], b[1..]);
      assert a == [a[0]] + a[1..] && b == [b[0]] + b[1..];
    }
  }

  // ---------------------------------------------------------------- one thread at a time

  /** `VerilatedEvalMsgQueue` when nothing else runs. */
  class EvalQueue {
    var depth: nat
    var queue: seq<Msg>

    ghost predicate Valid() reads this {
      depth == |queue| < TWO64 && Sorted(queue)
    }

    constructor ()
      ensures Valid() && queue == []
    {
      depth, queue := 0, [];
    }

    method Post(m: Msg)
      requires Valid() && |queue| + 1 < TWO64
      modifies this
      ensures Valid() && queue == Insert(old(queue), m)
    {
      InsertKeepsOrder(queue, m);
      queue := Insert(queue, m);
      depth := Up(depth, TWO64);
    }

    /** Services the queue until it is empty; `log` receives the callbacks in the order they run. */
    method Process(log: CallbackLog)
      requires Valid()
      modifies this, log
      ensures Valid() && queue == [] && depth == 0
      ensures log.ran == old(log.ran) + old(queue)
    {
      while depth != 0
        invariant Valid() && log.ran + queue == old(log.ran) + old(queue)
        decreases |queue|
      {
        assert queue != [];
        var msg := queue[0];
        assert queue == [msg] + queue[1..];
        queue := queue[1..];
        depth := Down(depth, TWO64);
        log.Run(msg);
      }
      assert log.ran + queue == log.ran;
    }
  }

  class CallbackLog {
    var ran: seq<Msg>

    constructor () ensures ran == [] { ran := []; }

    method Run(m: Msg)
      modifies this
      ensures ran == old(ran) + [m]
    {
      ran := ran + [m];
    }
  }

  /** `VerilatedThreadMsgQueue`: one thread's local queue, with its current mtask and its count of pending messages. */
  class ThreadQueue {
    var mtask: nat
    var reqd: nat
    var local: seq<Msg>

    ghost predicate Valid() reads this {
      Counts(reqd, |local|, TWO32)
    }

    constructor ()
      ensures Valid() && local == [] && mtask == 0
    {
      mtask, reqd, local := 0, 0, [];
    }

    /** Outside any mtask the callback runs at once. */
    method Post(m: Msg, log: CallbackLog)
      requires Valid()
      modifies this, log
      ensures Valid() && mtask == old(mtask)
      ensures mtask == 0 ==> log.ran == old(log.ran) + [m] && local == old(local)
      ensures mtask != 0 ==> log.ran == old(log.ran) && local == old(local) + [m]
    {
      if mtask == 0 {
        log.Run(m);
      } else {
        CountsUp(reqd, |local|, TWO32);
        reqd := Up(reqd, TWO32);
        local := local + [m];
      }
    }

    method Flush(q: EvalQueue)
      requires Valid() && q.Valid() && |q.queue| + |local| < TWO64
      modifies this, q
      ensures Valid() && local == [] && reqd == 0 && q.Valid() && mtask == old(mtask)
      ensures q.queue == InsertAll(old(q.queue), old(local))
    {
      hide Up, Down, Counts;
      while |local| > 0
        invariant Valid() && q.Valid() && |q.queue| + |local| < TWO64 && mtask == old(mtask)
        invariant InsertAll(q.queue, local) == InsertAll(old(q.queue), old(local))
        decreases |local|
      {
        InsertKeepsOrder(q.queue, local[0]);
        q.Post(local[0]);
        CountsDown(reqd, |local|, TWO32);
        local := local[1..];
        reqd := Down(reqd, TWO32);
      }
      CountsNone(reqd);
    }
  }

  // ---------------------------------------------------------------- all interleavings

  /** Where a producer thread is; from `Locked` to `Counted` it holds the mutex. */
  datatype ThreadPc = Outside | Flushing | Locked | Inserted | Counted | Released

  datatype Thread = Thread(mtask: nat, local: seq<Msg>, reqd: nat, pc: ThreadPc)

  /** Where the consumer is in `process`; in `Entered` and `Took` it holds the mutex. */
  datatype ConsumerPc =
    | Idle
    | Testing
    | Waiting
    | Entered
    | Took(msg: Msg)
    | Left(msg: Msg)
    | Running(msg: Msg)

  datatype Owner = Nobody | Producer(thread: nat) | Consumer

  /**
   The shared state, and what has happened so far: messages posted to local queues and
   flushed to the shared one, messages taken from it and run, callbacks run directly.
   */
  datatype State = State(
    threads: seq<Thread>, consumer: ConsumerPc, owner: Owner,
    queue: seq<Msg>, depth: nat, failed: bool,
    posted: seq<Sent>, flushed: seq<Sent>, taken: seq<Msg>, executed: seq<Msg>, direct: seq<Msg>)

  datatype Event =
    | Begin(thread: nat, id: nat)
    | Post(thread: nat, cb: nat)
    | EndTask(thread: nat)
    | Lock(thread: nat)
    | Put(thread: nat)
    | Count(thread: nat)
    | Unlock(thread: nat)
    | Pop(thread: nat)
    | EndFlush(thread: nat)
    | Process
    | Test
    | Enter
    | Take
    | Leave
    | Discount
    | Run

  predicate ByProducer(e: Event) {
    e.Begin? || e.Post? || e.EndTask? || e.Lock? || e.Put? || e.Count? || e.Unlock? || e.Pop? || e.EndFlush?
  }

  function Init(n: nat): State {
    State(seq(n, i => Thread(0, [], 0, Outside)), Idle, Nobody, [], 0, false, [], [], [], [], [])
  }

  function With(s: State, t: nat, th: Thread): State
    requires t < |s.threads|
  {
    s.(threads := s.threads[t := th])
  }

  /** One step of a producer thread, or None when it is not the thread's next step. */
  function ProducerStep(s: State, e: Event): Option<State>
    requires ByProducer(e)
  {
    var t := e.thread;
    if t >= |s.threads| then None else
      var th := s.threads[t];
      match e
      case Begin(_, id) =>
        if th.pc != Outside then None else Some(With(s, t, th.(mtask := id)))
      case Post(_, cb) =>
        var m := Msg(th.mtask, cb);
        if th.pc != Outside then None
        else if th.mtask == 0 then Some(s.(direct := s.direct + [m]))
        else
          var r := With(s, t, th.(local := th.local + [m], reqd := Up(th.reqd, TWO32)));
          Some(r.(posted := s.posted + [Sent(t, m)]))
      case EndTask(_) =>
        if th.pc != Outside then None
        else if th.reqd == 0 then Some(s)
        else Some(With(s, t, th.(pc := Flushing)))
      case Lock(_) =>
        if th.pc != Flushing || th.local == [] || s.owner != Nobody then None
        else Some(With(s, t, th.(pc := Locked)).(owner := Producer(t)))
      case Put(_) =>
        if th.pc != Locked || th.local == [] then None
        else Some(With(s, t, th.(pc := Inserted)).(
          queue := Insert(s.queue, th.local[0]), flushed := s.flushed + [Sent(t, th.local[0])]))
      case Count(_) =>
        if th.pc != Inserted then None
        else Some(With(s, t, th.(pc := Counted)).(depth := Up(s.depth, TWO64)))
      case Unlock(_) =>
        if th.pc != Counted then None
        else Some(With(s, t, th.(pc := Released)).(owner := Nobody))
      case Pop(_) =>
        if th.pc != Released || th.local == [] then None
        else Some(With(s, t, th.(local := th.local[1..], reqd := Down(th.reqd, TWO32), pc := Flushing)))
      case EndFlush(_) =>
        if th.pc != Flushing || th.local != [] then None
        else Some(With(s, t, th.(pc := Outside)))
  }

  /** One step of the consumer; taking from an empty queue trips the assertion. */
  function ConsumerStep(s: State, e: Event): Option<State>
    requires !ByProducer(e)
  {
    match e
    case Process =>
      if s.consumer != Idle then None else Some(s.(consumer := Testing))
    case Test =>
      if s.consumer != Testing then None
      else Some(s.(consumer := if s.depth != 0 then Waiting else Idle))
    case Enter =>
      if s.consumer != Waiting || s.owner != Nobody then None
      else Some(s.(consumer := Entered, owner := Consumer))
    case Take =>
      if s.consumer != Entered then None
      else if s.queue == [] then Some(s.(failed := true))
      else Some(s.(consumer := Took(s.queue[0]), queue := s.queue[1..], taken := s.taken + [s.queue[0]]))
    case Leave =>
      if !s.consumer.Took? then None
      else Some(s.(consumer := Left(s.consumer.msg), owner := Nobody))
    case Discount =>
      if !s.consumer.Left? then None
      else Some(s.(consumer := Running(s.consumer.msg), depth := Down(s.depth, TWO64)))
    case Run =>
      if !s.consumer.Running? then None
      else Some(s.(consumer := Testing, executed := s.executed + [s.consumer.msg]))
  }

  function Step(s: State, e: Event): Option<State> {
    if s.failed then None
    else if ByProducer(e) then ProducerStep(s, e)
    else ConsumerStep(s, e)
  }

  /** Where a schedule leads, or None when some step of it is not possible. */
  function After(s: State, es: seq<Event>): Option<State>
    decreases |es|
  {
    if |es| == 0 then Some(s)
    else match Step(s, es[0])
      case None => None
      case Some(t) => After(t, es[1..])
  }

  // ---------------------------------------------------------------- what every interleaving keeps

  predicate HoldsLock(pc: ThreadPc) {
    pc == Locked || pc == Inserted || pc == Counted
  }

  /** Only the owner of the mutex is inside the critical section. */
  ghost predicate Exclusive(s: State) {
    && (forall t :: 0 <= t < |s.threads| ==> (HoldsLock(s.threads[t].pc) <==> s.owner == Producer(t)))
    && (s.owner.Producer? ==> s.owner.thread < |s.threads|)
    && (s.owner == Consumer <==> s.consumer.Entered? || s.consumer.Took?)
  }

  /** One message is in the queue but not counted yet. */
  function Uncounted(s: State): nat {
    if s.owner.Producer? && s.owner.thread < |s.threads| && s.threads[s.owner.thread].pc == Inserted then 1 else 0
  }

  /** One message has left the queue but is counted still. */
  function Overcounted(s: State): nat {
    if s.consumer.Took? || s.consumer.Left? then 1 else 0
  }

  /** The counter is the queue's size up to the one message each side may be handling. */
  ghost predicate DepthExact(s: State) {
    && !s.failed
    && s.depth + Uncounted(s) == |s.queue| + Overcounted(s)
    && (Uncounted(s) == 1 ==> |s.queue| > 0)
    && (s.consumer.Waiting? || s.consumer.Entered? ==> s.depth > 0)
  }

  ghost predicate Safe(s: State) {
    && Exclusive(s)
    && |s.queue| + |s.taken| == |s.flushed| && Overcounted(s) <= |s.taken|
    && (|s.flushed| < TWO64 ==> DepthExact(s))
  }

  /** A thread's messages wait in its local queue until the step after their insertion. */
  ghost predicate Account(th: Thread, posted: seq<Msg>, flushed: seq<Msg>) {
    && Counts(th.reqd, |th.local|, TWO32)
    && (th.pc == Outside || th.pc == Flushing || th.local != [])
    && posted == flushed + Unsent(th)
  }

  ghost predicate LocalExact(s: State) {
    forall t: nat :: Account(ThreadAt(s, t), By(s.posted, t), By(s.flushed, t))
  }

  function ThreadAt(s: State, t: nat): Thread {
    if t < |s.threads| then s.threads[t] else Thread(0, [], 0, Outside)
  }

  /** What a thread has still to insert. */
  function Unsent(th: Thread): seq<Msg> {
    if (th.pc == Inserted || th.pc == Counted || th.pc == Released) && th.local != [] then th.local[1..] else th.local
  }

  /** The messages one thread sent, in order. */
  function By(ss: seq<Sent>, t: nat): seq<Msg> {
    if |ss| == 0 then []
    else By(ss[..|ss| - 1], t) + if ss[|ss| - 1].thread == t then [ss[|ss| - 1].msg] else []
  }

  function Msgs(ss: seq<Sent>): seq<Msg> {
    seq(|ss|, i requires 0 <= i < |ss| => ss[i].msg)
  }

  /** The queue stays ordered, and per mtask messages are taken in the order they were inserted. */
  ghost predicate Fifo(s: State) {
    && Sorted(s.queue)
    && (forall id :: OfTask(s.taken, id) + OfTask(s.queue, id) == OfTask(Msgs(s.flushed), id))
    && s.taken == s.executed + InHand(s.consumer)
  }

  function InHand(c: ConsumerPc): seq<Msg> {
    if c.Took? || c.Left? || c.Running? then [c.msg] else []
  }

  ghost predicate Inv(s: State) {
    Safe(s) && LocalExact(s) && Fifo(s)
  }

  lemma InitInv(n: nat)
    ensures Inv(Init(n))
  {
    var s := Init(n);
    assert Msgs(s.flushed) == [];
    forall id ensures OfTask(s.taken, id) + OfTask(s.queue, id) == OfTask(Msgs(s.flushed), id) {
    }
  }

  lemma {:induction false} ByAppend(ss: seq<Sent>, x: Sent, t: nat)
    ensures By(ss + [x], t) == By(ss, t) + if x.thread == t then [x.msg] else []
    ensures x.thread != t ==> By(ss + [x], t) == By(ss, t)
  {
    assert (ss + [x])[..|ss|] == ss;
  }

  lemma SafeStep(s: State, e: Event, r: State)
    requires Safe(s) && Sorted(s.queue) && Step(s, e) == Some(r)
    ensures Safe(r)
  {
    hide Insert, Up, Down;
    if ByProducer(e) {
      ProducerSafe(s, e, r);
    } else {
      ConsumerSafe(s, e, r);
    }
  }

  lemma ProducerExclusive(s: State, e: Event, r: State)
    requires Exclusive(s) && ByProducer(e) && Step(s, e) == Some(r)
    ensures Exclusive(r)
  {
    hide Insert, Up, Down;
  }

  lemma ProducerSafe(s: State, e: Event, r: State)
    requires Safe(s) && Sorted(s.queue) && ByProducer(e) && Step(s, e) == Some(r)
    ensures Safe(r)
  {
    hide Insert, Up, Down, Exclusive;
    ProducerExclusive(s, e, r);
    OwnerSteps(s, e, r);
    if e.Put? {
      InsertKeepsOrder(s.queue, s.threads[e.thread].local[0]);
    } else if e.Count? && |s.flushed| < TWO64 {
      UpSmall(s.depth);
    }
  }

  /** Only inserting and counting changes whether a message is uncounted. */
  lemma OwnerSteps(s: State, e: Event, r: State)
    requires Exclusive(s) && ByProducer(e) && Step(s, e) == Some(r)
    ensures r.consumer == s.consumer
    ensures e.Put? ==> Uncounted(s) == 0 && Uncounted(r) == 1
    ensures e.Count? ==> Uncounted(s) == 1 && Uncounted(r) == 0
    ensures !e.Put? && !e.Count? ==> Uncounted(r) == Uncounted(s)
  {
    hide Insert, Up, Down;
  }

  lemma ConsumerSafe(s: State, e: Event, r: State)
    requires Safe(s) && !ByProducer(e) && Step(s, e) == Some(r)
    ensures Safe(r)
  {
    hide Down;
    assert |s.flushed| < TWO64 && e.Discount? ==> Down(s.depth, TWO64) == s.depth - 1 by { DownSmall(s.depth); }
  }

  lemma UpSmall(x: nat)
    ensures x + 1 < TWO64 ==> Up(x, TWO64) == x + 1
  {
  }

  lemma DownSmall(x: nat)
    ensures 0 < x < TWO64 ==> Down(x, TWO64) == x - 1
  {
  }

  lemma AccountStep(s: State, e: Event, r: State)
    requires ByProducer(e) && Step(s, e) == Some(r)
    requires Account(s.threads[e.thread], By(s.posted, e.thread), By(s.flushed, e.thread))
    ensures Account(r.threads[e.thread], By(r.posted, e.thread), By(r.flushed, e.thread))
  {
    hide Up, Down, Counts, By, Insert;
    var th := s.threads[e.thread];
    if e.Post? {
      var m := Msg(th.mtask, e.cb);
      CountsUp(th.reqd, |th.local|, TWO32);
      ByAppend(s.posted, Sent(e.thread, m), e.thread);
      AccountPosted(th, By(s.posted, e.thread), By(s.flushed, e.thread), m);
    } else if e.Put? {
      ByAppend(s.flushed, Sent(e.thread, th.local[0]), e.thread);
      AccountPut(th, By(s.posted, e.thread), By(s.flushed, e.thread));
    } else if e.Pop? {
      CountsDown(th.reqd, |th.local|, TWO32);
    } else {
      hide Unsent;
      AccountKeeps(s, e, r);
    }
  }

  lemma AccountPosted(th: Thread, posted: seq<Msg>, flushed: seq<Msg>, m: Msg)
    requires Account(th, posted, flushed) && th.pc == Outside
    requires Counts(Up(th.reqd, TWO32), |th.local| + 1, TWO32)
    ensures Account(th.(local := th.local + [m], reqd := Up(th.reqd, TWO32)), posted + [m], flushed)
  {
    hide Up, Counts;
    assert posted + [m] == flushed + (th.local + [m]);
  }

  lemma AccountPut(th: Thread, posted: seq<Msg>, flushed: seq<Msg>)
    requires Account(th, posted, flushed) && th.pc == Locked
    ensures Account(th.(pc := Inserted), posted, flushed + [th.local[0]])
  {
    assert th.local == [th.local[0]] + th.local[1..];
  }

  /** The other steps leave what is unsent alone. */
  lemma AccountKeeps(s: State, e: Event, r: State)
    requires ByProducer(e) && Step(s, e) == Some(r) && !e.Post? && !e.Put? && !e.Pop?
    requires s.threads[e.thread].pc == Outside || s.threads[e.thread].pc == Flushing || s.threads[e.thread].local != []
    ensures Unsent(r.threads[e.thread]) == Unsent(s.threads[e.thread])
    ensures r.threads[e.thread].local == s.threads[e.thread].local &&
      r.threads[e.thread].reqd == s.threads[e.thread].reqd
    ensures r.posted == s.posted && r.flushed == s.flushed
    ensures r.threads[e.thread].pc == Outside || r.threads[e.thread].pc == Flushing || r.threads[e.thread].local != []
  {
  }

  lemma LocalStep(s: State, e: Event, r: State)
    requires LocalExact(s) && Step(s, e) == Some(r)
    ensures LocalExact(r)
  {
    hide By, Account;
    if ByProducer(e) {
      var th := s.threads[e.thread];
      assert Account(ThreadAt(s, e.thread), By(s.posted, e.thread), By(s.flushed, e.thread));
      AccountStep(s, e, r);
      forall t: nat
        ensures Account(ThreadAt(r, t), By(r.posted, t), By(r.flushed, t))
      {
        assert Account(ThreadAt(s, t), By(s.posted, t), By(s.flushed, t));
        if t != e.thread {
          assert ThreadAt(r, t) == ThreadAt(s, t);
          if e.Post? { ByAppend(s.posted, Sent(e.thread, Msg(th.mtask, e.cb)), t); }
          if e.Put? { ByAppend(s.flushed, Sent(e.thread, th.local[0]), t); }
        }
      }
    }
  }

  lemma FifoStep(s: State, e: Event, r: State)
    requires Fifo(s) && Step(s, e) == Some(r)
    ensures Fifo(r)
  {
    if e.Put? {
      PutKeepsFifo(s, e, r);
    } else if e.Take? && s.queue != [] {
      TakeKeepsFifo(s, r);
    } else {
      assert r.queue == s.queue && r.flushed == s.flushed && r.taken == s.taken;
    }
  }

  lemma PutKeepsFifo(s: State, e: Event, r: State)
    requires Fifo(s) && e.Put? && Step(s, e) == Some(r)
    ensures Fifo(r)
  {
    var m := s.threads[e.thread].local[0];
    InsertKeepsOrder(s.queue, m);
    assert Msgs(r.flushed) == Msgs(s.flushed) + [m];
    forall id ensures OfTask(r.taken, id) + OfTask(r.queue, id) == OfTask(Msgs(r.flushed), id) {
      OfTaskConcat(Msgs(s.flushed), [m], id);
      assert OfTask([m], id) == if m.id == id then [m] else [];
    }
  }

  lemma TakeKeepsFifo(s: State, r: State)
    requires Fifo(s) && s.queue != [] && Step(s, Take) == Some(r)
    ensures Fifo(r)
  {
    var m := s.queue[0];
    assert s.taken == s.executed;
    forall id ensures OfTask(r.taken, id) + OfTask(r.queue, id) == OfTask(Msgs(r.flushed), id) {
      OfTaskConcat(s.taken, [m], id);
      assert OfTask([m], id) == if m.id == id then [m] else [];
    }
  }

  lemma {:induction false} InvAfter(s: State, es: seq<Event>, r: State)
    requires Inv(s) && After(s, es) == Some(r)
    ensures Inv(r)
    decreases |es|
  {
    if |es| > 0 {
      var m := Step(s, es[0]).value;
      SafeStep(s, es[0], m);
      LocalStep(s, es[0], m);
      FifoStep(s, es[0], m);
      InvAfter(m, es[1..], r);
    }
  }

  // ---------------------------------------------------------------- safety over every schedule

  /**
   Whatever the schedule, as long as fewer than 2^64 messages have been flushed: the
   assertion has not fired, the counter the consumer tests never exceeds the queue,
   it is positive whenever it is decremented, and it stays below 2^64.
   */
  lemma NeverFails(n: nat, es: seq<Event>, s: State)
    requires After(Init(n), es) == Some(s) && |s.flushed| < TWO64
    ensures !s.failed
    ensures s.consumer == Testing ==> s.depth <= |s.queue|
    ensures s.consumer == Entered ==> s.queue != []
    ensures s.consumer.Left? ==> s.depth > 0
    ensures s.depth < TWO64
  {
    InitInv(n);
    InvAfter(Init(n), es, s);
  }

  /** Whatever the schedule, each mtask's messages run in the order they were inserted. */
  lemma TaskFifo(n: nat, es: seq<Event>, s: State, id: nat)
    requires After(Init(n), es) == Some(s)
    ensures OfTask(s.executed, id) + OfTask(InHand(s.consumer), id) + OfTask(s.queue, id) == OfTask(Msgs(s.flushed), id)
  {
    InitInv(n);
    InvAfter(Init(n), es, s);
    OfTaskConcat(s.executed, InHand(s.consumer), id);
  }

  /** Nothing is on its way: every thread is outside a flush with an empty local queue. */
  ghost predicate Quiescent(s: State) {
    forall t :: 0 <= t < |s.threads| ==> s.threads[t].pc == Outside && s.threads[t].local == []
  }

  ghost predicate ConsumerSchedule(es: seq<Event>) {
    forall e :: e in es ==> !ByProducer(e)
  }

  /**
   Whatever the schedule: the step that ends `process` is a test that sees the counter at zero. All
   messages counted by then have run; at most one is in the queue, inserted and not counted yet.
   */
  lemma ProcessEnds(n: nat, es: seq<Event>, s: State, e: Event, r: State)
    requires After(Init(n), es) == Some(s) && |s.flushed| < TWO64
    requires Step(s, e) == Some(r) && s.consumer != Idle && r.consumer == Idle
    ensures e == Test && s.depth == 0 && r == s.(consumer := Idle)
    ensures s.executed == s.taken && |s.queue| == Uncounted(s)
  {
    hide Insert, After, By, Msgs, LocalExact, OfTask;
    InitInv(n);
    InvAfter(Init(n), es, s);
  }

  /** A consumer left to itself returns from `process` with the counter at zero. */
  lemma {:induction false} ReturnsAtZero(s: State, es: seq<Event>, t: State)
    requires After(s, es) == Some(t) && ConsumerSchedule(es)
    requires t.consumer == Idle && (s.consumer == Idle ==> es != [])
    ensures t.depth == 0
    decreases |es|
  {
    if |es| > 0 {
      assert es[0] in es;
      var m := Step(s, es[0]).value;
      if |es| > 1 {
        assert es[1..][0] in es;
        ReturnsAtZero(m, es[1..], t);
      }
    }
  }

  /**
   Whatever led to a state with quiescent threads: when the consumer alone goes on and has returned
   from `process`, nothing is left and every posted message has run exactly once.
   */
  lemma Conserved(n: nat, es: seq<Event>, consuming: seq<Event>, s: State, t: State)
    requires After(Init(n), es) == Some(s) && Quiescent(s) && |s.flushed| < TWO64
    requires After(s, consuming) == Some(t) && ConsumerSchedule(consuming)
    requires t.consumer == Idle && (s.consumer == Idle ==> consuming != [])
    ensures t.queue == [] && multiset(t.executed) == multiset(Msgs(Issued(es, true)))
  {
    hide OfTask, Insert, After, By, Msgs, Step, Issued, Safe, ConsumerSchedule;
    PostsRecorded(n, es, s);
    InitInv(n);
    InvAfter(Init(n), es, s);
    InvAfter(s, consuming, t);
    ConsumerOnly(s, consuming, t);
    ReturnsAtZero(s, consuming, t);
    EmptyAtZero(t);
    AllTakenOnce(t);
    QuiescentFlushed(t);
    MsgsPermute(t.flushed, t.posted);
  }

  lemma EmptyAtZero(t: State)
    requires Safe(t) && Quiescent(t) && |t.flushed| < TWO64 && t.consumer == Idle && t.depth == 0
    ensures t.queue == []
  {
  }

  lemma AllTakenOnce(t: State)
    requires Fifo(t) && t.queue == []
    ensures multiset(t.taken) == multiset(Msgs(t.flushed))
  {
    hide OfTask, Msgs;
    OfTaskNothing();
    forall m: Msg ensures multiset(t.taken)[m] == multiset(Msgs(t.flushed))[m] {
      OfTaskCounts(t.taken, m);
      OfTaskCounts(Msgs(t.flushed), m);
      assert OfTask(t.taken, m.id) + OfTask(t.queue, m.id) == OfTask(Msgs(t.flushed), m.id);
    }
  }

  // ---------------------------------------------------------------- nobody waits for ever

  /** How many steps the consumer has still to make when nothing is added. */
  function Work(s: State): int {
    6 * |s.queue| + match s.consumer
      case Idle => 0
      case Testing => 1
      case Waiting => 0
      case Entered => -1
      case Took(_) => 4
      case Left(_) => 3
      case Running(_) => 2
  }

  /** Without producers at work the consumer can go on, and each step is one less to make. */
  lemma ConsumerGoesOn(s: State)
    requires Inv(s) && Quiescent(s) && |s.flushed| < TWO64 && s.consumer != Idle
    ensures exists e :: !ByProducer(e) && Step(s, e).Some?
    ensures forall e, r :: !ByProducer(e) && Step(s, e) == Some(r) ==> Work(r) == Work(s) - 1 >= 0
  {
    hide LocalExact, Fifo, Down;
    var e := match s.consumer
      case Testing => Test
      case Waiting => Enter
      case Entered => Take
      case Took(_) => Leave
      case Left(_) => Discount
      case _ => Run;
    assert s.owner.Producer? ==> HoldsLock(s.threads[s.owner.thread].pc);
    assert !ByProducer(e) && Step(s, e).Some?;
  }

  /** So `process` ends: six steps for each message in the queue and two for the call and its last test. */
  lemma ProcessCompletes(n: nat, es: seq<Event>, s: State) returns (consuming: seq<Event>, t: State)
    requires After(Init(n), es) == Some(s) && Quiescent(s) && |s.flushed| < TWO64 && s.consumer == Idle
    ensures ConsumerSchedule(consuming) && consuming != [] && consuming[0] == Process
    ensures |consuming| == 6 * |s.queue| + 2
    ensures After(s, consuming) == Some(t) && t.consumer == Idle
  {
    hide Inv, Quiescent, Step;
    InitInv(n);
    InvAfter(Init(n), es, s);
    var m := EntersProcess(s);
    StillQuiescent(s, Process, m);
    var rest;
    rest, t := GoesOn(m);
    consuming := [Process] + rest;
    assert consuming[1..] == rest;
  }

  lemma EntersProcess(s: State) returns (m: State)
    requires Inv(s) && |s.flushed| < TWO64 && s.consumer == Idle
    ensures Step(s, Process) == Some(m) && m.consumer != Idle && Work(m) == 6 * |s.queue| + 1
  {
    hide LocalExact, Fifo;
    m := s.(consumer := Testing);
  }

  lemma StillQuiescent(s: State, e: Event, m: State)
    requires Inv(s) && Quiescent(s) && !ByProducer(e) && Step(s, e) == Some(m)
    ensures Inv(m) && Quiescent(m) && m.flushed == s.flushed
  {
    SafeStep(s, e, m);
    LocalStep(s, e, m);
    FifoStep(s, e, m);
    hide Inv;
  }

  lemma {:induction false} GoesOn(s: State) returns (es: seq<Event>, t: State)
    requires Inv(s) && Quiescent(s) && |s.flushed| < TWO64 && s.consumer != Idle
    ensures ConsumerSchedule(es) && |es| == Work(s)
    ensures After(s, es) == Some(t) && t.consumer == Idle
    decreases Work(s)
  {
    ConsumerGoesOn(s);
    var e :| !ByProducer(e) && Step(s, e).Some?;
    var m := Step(s, e).value;
    StillQuiescent(s, e, m);
    hide Inv, Quiescent, Step;
    if m.consumer == Idle {
      ReturnedWork(s, e, m);
      es, t := [e], m;
      assert es[1..] == [] && After(m, []) == Some(m);
    } else {
      var rest;
      rest, t := GoesOn(m);
      es := [e] + rest;
      assert es[1..] == rest;
    }
  }

  lemma ReturnedWork(s: State, e: Event, m: State)
    requires Inv(s) && Quiescent(s) && |s.flushed| < TWO64 && s.consumer != Idle
    requires !ByProducer(e) && Step(s, e) == Some(m) && m.consumer == Idle
    ensures Work(s) == 1
  {
    hide LocalExact, Fifo;
  }

  /** A step of a call under way, not the start of one. */
  predicate UnderWay(e: Event) {
    !e.Begin? && !e.Post? && !e.EndTask? && !e.Process?
  }

  /** No deadlock: in any state with a flush or `process` under way somebody can go on with theirs. */
  lemma NoDeadlock(n: nat, es: seq<Event>, s: State)
    requires After(Init(n), es) == Some(s) && |s.flushed| < TWO64
    requires s.consumer != Idle || exists t :: 0 <= t < |s.threads| && s.threads[t].pc != Outside
    ensures exists e :: UnderWay(e) && Step(s, e).Some?
  {
    hide Insert, Up, Down, By, Msgs, OfTask, Account;
    InitInv(n);
    InvAfter(Init(n), es, s);
    hide Fifo, After;
    match s.owner
    case Producer(u) =>
      ThreadGoesOn(s, u);
    case Consumer =>
      var e := if s.consumer.Entered? then Take else Leave;
      assert UnderWay(e) && Step(s, e).Some?;
    case Nobody =>
      if t :| 0 <= t < |s.threads| && s.threads[t].pc != Outside {
        ThreadGoesOn(s, t);
      } else {
        var e := match s.consumer
          case Testing => Test
          case Waiting => Enter
          case Left(_) => Discount
          case _ => Run;
        assert UnderWay(e) && Step(s, e).Some?;
      }
  }

  lemma ThreadGoesOn(s: State, t: nat)
    requires Exclusive(s) && LocalExact(s) && !s.failed && t < |s.threads| && s.threads[t].pc != Outside
    requires s.owner == Producer(t) || s.owner == Nobody
    ensures exists e :: UnderWay(e) && Step(s, e).Some?
  {
    hide Insert, Up, Down, Counts, By;
    var th := s.threads[t];
    assert Account(ThreadAt(s, t), By(s.posted, t), By(s.flushed, t));
    var e := match th.pc
      case Flushing => if th.local == [] then EndFlush(t) else Lock(t)
      case Locked => Put(t)
      case Inserted => Count(t)
      case Counted => Unlock(t)
      case _ => Pop(t);
    assert UnderWay(e) && Step(s, e).Some?;
  }

  /** How many steps a thread has still to make in its flush: five for each message and the last one. */
  function FlushWork(th: Thread): int {
    5 * |th.local| + match th.pc
      case Outside => -5 * |th.local|
      case Flushing => 1
      case Locked => 0
      case Inserted => -1
      case Counted => -2
      case Released => -3
  }

  /** Each step of a flush is one less to make, so every flush ends. */
  lemma FlushGoesOn(n: nat, es: seq<Event>, s: State, e: Event, r: State)
    requires After(Init(n), es) == Some(s) && Step(s, e) == Some(r) && ByProducer(e) && UnderWay(e)
    ensures e.thread < |s.threads| == |r.threads| && r.threads == s.threads[e.thread := r.threads[e.thread]]
    ensures FlushWork(r.threads[e.thread]) == FlushWork(s.threads[e.thread]) - 1 >= 0
  {
    hide Insert, Up, Down, After, By, Msgs, OfTask;
    InitInv(n);
    InvAfter(Init(n), es, s);
    hide Safe, Fifo;
    assert Account(ThreadAt(s, e.thread), By(s.posted, e.thread), By(s.flushed, e.thread));
  }

  /** What a thread can do next, by where it is. */
  lemma ThreadMay(s: State, e: Event)
    requires !s.failed && ByProducer(e)
    ensures Step(s, e).Some? <==>
      e.thread < |s.threads| &&
      var th := s.threads[e.thread];
      match th.pc
      case Outside => e.Begin? || e.Post? || e.EndTask?
      case Flushing => if th.local == [] then e.EndFlush? else e.Lock? && s.owner == Nobody
      case Locked => e.Put? && th.local != []
      case Inserted => e.Count?
      case Counted => e.Unlock?
      case Released => e.Pop? && th.local != []
  {
    hide Insert, Up, Down;
  }

  /** Taking from an empty queue, and nothing else, trips the assertion. */
  lemma FailsWhenEmpty(s: State, e: Event, r: State)
    requires Step(s, e) == Some(r)
    ensures r.failed <==> e.Take? && s.queue == []
  {
    hide Insert, Up, Down;
  }

  /** At the end of an mtask a thread flushes unless its pending count, which wraps, is zero. */
  lemma EndTaskFlushes(n: nat, es: seq<Event>, s: State, t: nat, r: State)
    requires After(Init(n), es) == Some(s) && Step(s, EndTask(t)) == Some(r)
    ensures t < |r.threads| && (r.threads[t].pc == Flushing <==> |s.threads[t].local| % TWO32 != 0)
  {
    hide Insert, After, By, Msgs, OfTask;
    InitInv(n);
    InvAfter(Init(n), es, s);
    assert Account(ThreadAt(s, t), By(s.posted, t), By(s.flushed, t));
  }

  // ---------------------------------------------------------------- what is posted

  /** The mtask thread t is in after a schedule: the last one it began, or none. */
  function TaskAfter(es: seq<Event>, t: nat): nat {
    if |es| == 0 then 0
    else match es[|es| - 1]
      case Begin(u, id) => if u == t then id else TaskAfter(es[..|es| - 1], t)
      case _ => TaskAfter(es[..|es| - 1], t)
  }

  /** The callbacks a schedule posts inside mtasks, or (for no mtask) outside any, in order. */
  function Issued(es: seq<Event>, inside: bool): seq<Sent> {
    if |es| == 0 then []
    else
      var init := es[..|es| - 1];
      Issued(init, inside) + match es[|es| - 1]
        case Post(t, cb) =>
          if (TaskAfter(init, t) != 0) == inside then [Sent(t, Msg(TaskAfter(init, t), cb))] else []
        case _ => []
  }

  lemma {:induction false} AfterSnoc(s: State, es: seq<Event>, e: Event, r: State)
    requires After(s, es + [e]) == Some(r)
    ensures After(s, es).Some? && Step(After(s, es).value, e) == Some(r)
    decreases |es|
  {
    if |es| > 0 {
      assert (es + [e])[1..] == es[1..] + [e];
      AfterSnoc(Step(s, es[0]).value, es[1..], e, r);
    } else {
      assert (es + [e])[1..] == [] && (es + [e])[0] == e;
    }
  }

  /**
   Exactly the callbacks of the schedule's posts are recorded, with the mtask their thread is in;
   those outside any mtask have run at once.
   */
  lemma {:induction false} PostsRecorded(n: nat, es: seq<Event>, s: State)
    requires After(Init(n), es) == Some(s)
    ensures s.posted == Issued(es, true) && s.direct == Msgs(Issued(es, false))
    ensures |s.threads| == n && forall t :: 0 <= t < n ==> s.threads[t].mtask == TaskAfter(es, t)
  {
    if |es| > 0 {
      var init, e := es[..|es| - 1], es[|es| - 1];
      assert es == init + [e];
      AfterSnoc(Init(n), init, e, s);
      var m := After(Init(n), init).value;
      PostsRecorded(n, init, m);
      hide After;
      PostRecorded(m, e, s, init);
    }
  }

  lemma PostRecorded(m: State, e: Event, s: State, init: seq<Event>)
    requires Step(m, e) == Some(s)
    requires m.posted == Issued(init, true) && m.direct == Msgs(Issued(init, false))
    requires forall t :: 0 <= t < |m.threads| ==> m.threads[t].mtask == TaskAfter(init, t)
    ensures s.posted == Issued(init + [e], true) && s.direct == Msgs(Issued(init + [e], false))
    ensures |s.threads| == |m.threads|
    ensures forall t :: 0 <= t < |s.threads| ==> s.threads[t].mtask == TaskAfter(init + [e], t)
  {
    hide Insert, Up, Down;
    assert (init + [e])[..|init|] == init;
  }

  lemma OfTaskNothing()
    ensures forall id :: OfTask([], id) == []
  {
  }

  /** When nothing is on its way, all that was posted has been flushed. */
  lemma QuiescentFlushed(s: State)
    requires LocalExact(s) && Quiescent(s)
    ensures forall t: nat :: By(s.posted, t) == By(s.flushed, t)
    ensures multiset(s.flushed) == multiset(s.posted)
  {
    hide By;
    forall t: nat ensures By(s.posted, t) == By(s.flushed, t) {
      assert Account(ThreadAt(s, t), By(s.posted, t), By(s.flushed, t));
      if t < |s.threads| { assert s.threads[t].local == []; }
      assert Unsent(ThreadAt(s, t)) == [];
    }
    forall x: Sent ensures multiset(s.flushed)[x] == multiset(s.posted)[x] {
      ByCounts(s.flushed, x);
      ByCounts(s.posted, x);
    }
  }

  lemma {:induction false} OfTaskCounts(q: seq<Msg>, m: Msg)
    ensures multiset(q)[m] == multiset(OfTask(q, m.id))[m]
  {
    if |q| > 0 {
      assert q == [q[0]] + q[1..];
      OfTaskCounts(q[1..], m);
    }
  }

  lemma {:induction false} ByCounts(ss: seq<Sent>, x: Sent)
    ensures multiset(ss)[x] == multiset(By(ss, x.thread))[x.msg]
  {
    if |ss| > 0 {
      assert ss == ss[..|ss| - 1] + [ss[|ss| - 1]];
      ByCounts(ss[..|ss| - 1], x);
    }
  }

  lemma {:induction false} MsgsPermute(a: seq<Sent>, b: seq<Sent>)
    requires multiset(a) == multiset(b)
    ensures multiset(Msgs(a)) == multiset(Msgs(b))
    decreases |a|
  {
    assert |a| == |multiset(a)| == |b|;
    if |a| > 0 {
      var x := a[0];
      assert x in multiset(b);
      var i :| 0 <= i < |b| && b[i] == x;
      var c := b[..i] + b[i + 1..];
      assert a == [x] + a[1..];
      assert b == b[..i] + [x] + b[i + 1..];
      assert multiset(c) == multiset(b) - multiset{x};
      assert multiset(a[1..]) == multiset(a) - multiset{x};
      MsgsPermute(a[1..], c);
      MsgsSplit(a, 0);
      MsgsSplit(b, i);
    }
  }

  lemma MsgsSplit(a: seq<Sent>, i: nat)
    requires i < |a|
    ensures multiset(Msgs(a)) == multiset(Msgs(a[..i] + a[i + 1..])) + multiset{a[i].msg}
    ensures i == 0 ==> a[..i] + a[i + 1..] == a[1..]
  {
    assert Msgs(a) == Msgs(a[..i]) + [a[i].msg] + Msgs(a[i + 1..]);
    assert Msgs(a[..i] + a[i + 1..]) == Msgs(a[..i]) + Msgs(a[i + 1..]);
  }

  // ---------------------------------------------------------------- independence of the schedule

  /** What mtask id posted, in order, over all threads. */
  function PostedBy(posted: seq<Sent>, id: nat): seq<Msg> {
    OfTask(Msgs(posted), id)
  }

  /** Each mtask posts from one thread only. */
  ghost predicate OneThreadPerTask(posted: seq<Sent>, home: nat -> nat) {
    forall x :: x in posted ==> home(x.msg.id) == x.thread
  }

  /**
   A tick: the threads post and flush until they are quiescent, then the consumer calls `process`
   until it has returned.
   */
  ghost predicate Tick(n: nat, producing: seq<Event>, consuming: seq<Event>, s: State, t: State) {
    && (forall e :: e in producing ==> ByProducer(e))
    && After(Init(n), producing) == Some(s) && Quiescent(s) && |s.flushed| < TWO64
    && ConsumerSchedule(consuming) && consuming != []
    && After(s, consuming) == Some(t) && t.consumer == Idle
  }

  lemma {:induction false} ProducersOnly(s: State, es: seq<Event>, r: State)
    requires After(s, es) == Some(r) && forall e :: e in es ==> ByProducer(e)
    ensures r.taken == s.taken && r.executed == s.executed && r.consumer == s.consumer
    decreases |es|
  {
    if |es| > 0 {
      assert es[0] in es;
      ProducersOnly(Step(s, es[0]).value, es[1..], r);
    }
  }

  lemma {:induction false} ConsumerOnly(s: State, es: seq<Event>, r: State)
    requires After(s, es) == Some(r) && ConsumerSchedule(es)
    ensures r.threads == s.threads && r.posted == s.posted && r.flushed == s.flushed
    ensures r.taken + r.queue == s.taken + s.queue
    decreases |es|
  {
    if |es| > 0 {
      assert es[0] in es;
      var m := Step(s, es[0]).value;
      assert m.taken + m.queue == s.taken + s.queue;
      ConsumerOnly(m, es[1..], r);
    }
  }

  /** If t is the only thread posting for id, its posts for id are all of id's. */
  lemma {:induction false} TaskOfThread(ss: seq<Sent>, home: nat -> nat, id: nat)
    requires forall x :: x in ss ==> home(x.msg.id) == x.thread
    ensures OfTask(Msgs(ss), id) == OfTask(By(ss, home(id)), id)
  {
    if |ss| > 0 {
      var rest, x := ss[..|ss| - 1], ss[|ss| - 1];
      TaskOfThread(rest, home, id);
      assert Msgs(ss) == Msgs(rest) + [x.msg];
      OfTaskConcat(Msgs(rest), [x.msg], id);
      OfTaskConcat(By(rest, home(id)), [x.msg], id);
      assert OfTask([x.msg], id) == if x.msg.id == id then [x.msg] else [];
      if x.thread == home(id) {
        assert By(ss, home(id)) == By(rest, home(id)) + [x.msg];
      } else {
        assert x.msg.id != id;
        assert By(ss, home(id)) == By(rest, home(id));
      }
    }
  }

  lemma FlushedAsPosted(n: nat, es: seq<Event>, s: State, home: nat -> nat, id: nat)
    requires After(Init(n), es) == Some(s) && Quiescent(s) && OneThreadPerTask(s.posted, home)
    ensures OfTask(Msgs(s.flushed), id) == PostedBy(s.posted, id)
  {
    hide OfTask, Insert, After, By, Msgs;
    InitInv(n);
    InvAfter(Init(n), es, s);
    QuiescentFlushed(s);
    forall x | x in s.flushed ensures home(x.msg.id) == x.thread {
      assert x in multiset(s.flushed);
      assert x in s.posted;
    }
    assert By(s.posted, home(id)) == By(s.flushed, home(id));
    TaskOfThread(s.flushed, home, id);
    TaskOfThread(s.posted, home, id);
  }

  /**
   In a tick every posted message runs exactly once, in ascending mtask order and for
   each mtask in the order it posted.
   */
  lemma TickOrder(n: nat, producing: seq<Event>, consuming: seq<Event>, s: State, t: State, home: nat -> nat)
    requires Tick(n, producing, consuming, s, t) && OneThreadPerTask(Issued(producing, true), home)
    ensures Sorted(t.executed)
    ensures forall id :: OfTask(t.executed, id) == PostedBy(Issued(producing, true), id)
  {
    hide After, OfTask, PostedBy, OneThreadPerTask, Safe, LocalExact, ConsumerSchedule, Issued;
    TickExecuted(n, producing, consuming, s, t);
    PostsRecorded(n, producing, s);
    forall id ensures OfTask(t.executed, id) == PostedBy(s.posted, id) {
      FlushedAsPosted(n, producing, s, home, id);
      NoneOfTask(id);
      FifoAt(s, id);
    }
  }

  lemma FifoAt(s: State, id: nat)
    requires Fifo(s)
    ensures OfTask(s.taken, id) + OfTask(s.queue, id) == OfTask(Msgs(s.flushed), id)
  {
  }

  /** What a tick runs is what has been flushed, in the order of the queue. */
  lemma TickExecuted(n: nat, producing: seq<Event>, consuming: seq<Event>, s: State, t: State)
    requires Tick(n, producing, consuming, s, t)
    ensures Fifo(s) && s.taken == [] && t.executed == s.queue && Sorted(t.executed)
  {
    hide After, LocalExact, Safe, Step, OfTask, Msgs, ConsumerSchedule;
    InitInv(n);
    InvAfter(Init(n), producing, s);
    InvAfter(s, consuming, t);
    ProducersOnly(Init(n), producing, s);
    ConsumerOnly(s, consuming, t);
    ReturnsAtZero(s, consuming, t);
    EmptyAtZero(t);
    assert t.executed == t.taken == t.taken + t.queue == s.queue;
  }

  lemma NoneOfTask(id: nat)
    ensures OfTask([], id) == []
  {
  }

  /**
   Two ticks in which every mtask posts the same run the same callbacks in the same order, however
   they are scheduled.
   */
  lemma ScheduleIndependent(
      n1: nat, p1: seq<Event>, c1: seq<Event>, s1: State, t1: State, home1: nat -> nat,
      n2: nat, p2: seq<Event>, c2: seq<Event>, s2: State, t2: State, home2: nat -> nat)
    requires Tick(n1, p1, c1, s1, t1) && OneThreadPerTask(Issued(p1, true), home1)
    requires Tick(n2, p2, c2, s2, t2) && OneThreadPerTask(Issued(p2, true), home2)
    requires forall id :: PostedBy(Issued(p1, true), id) == PostedBy(Issued(p2, true), id)
    ensures t1.executed == t2.executed
  {
    TickOrder(n1, p1, c1, s1, t1, home1);
    TickOrder(n2, p2, c2, s2, t2, home2);
    SortedUnique(t1.executed, t2.executed);
  }
}
