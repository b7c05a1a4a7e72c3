/** The publishing side of the client: a pool of producer connections, the
    consistency level that says how many of them must acknowledge a publish,
    and the coordinator that fans a publish out over the pool. */
module Client {
  import opened Wrappers
  import opened Commands
  import Response
  import Monitor

  type byte = Response.byte

  /** Consistency levels. */
  const PubOne: int := 1
  const PubTwo: int := 2
  const PubQuorum: int := 5

  /** One element of the hosts list; a key that is not set is `None`. */
  datatype HostEntry = HostEntry(host: Option<string>, port: Option<int>)

  /** A producer of the pool, as it is created: the node it publishes to and
      the client's timeout and socket setting. */
  datatype Node = Node(host: string, port: int, timeout: real, setting: Monitor.Setting)

  /** The producer for a hosts entry, with 'localhost' and 4150 for missing
      keys. */
  function NodeOf(e: HostEntry, timeout: real, setting: Monitor.Setting): Node {
    Node(e.host.GetOr(Monitor.DefaultHost), e.port.GetOr(Monitor.DefaultPort), timeout, setting)
  }

  /** One producer per hosts entry, in order. */
  function NodesOf(hosts: seq<HostEntry>, timeout: real, setting: Monitor.Setting): (nodes: seq<Node>)
    ensures |nodes| == |hosts|
    ensures forall i :: 0 <= i < |hosts| ==> nodes[i] == NodeOf(hosts[i], timeout, setting)
  {
    if hosts == [] then []
    else NodesOf(hosts[..|hosts| - 1], timeout, setting) + [NodeOf(hosts[|hosts| - 1], timeout, setting)]
  }

  /** The quorum the client asks for: ceil(n / 2) + 1. */
  function Quorum(n: nat): (q: nat)
    ensures n <= 2 * (q - 1) <= n + 1
  {
    (n + 1) / 2 + 1
  }

  /** The required-ack count for a consistency level over a pool of `n`, or
      `None` for a level that is not one of the three. */
  function RequiredAcks(level: int, n: nat): (r: Option<nat>)
    ensures r.Some? <==> level == PubOne || level == PubTwo || level == PubQuorum
    ensures r.Some? ==> 1 <= r.value
    ensures r.Some? && level != PubQuorum ==> r.value == level
    ensures level == PubQuorum ==> r == Some(Quorum(n))
  {
    if level == PubOne || level == PubTwo then Some(level)
    else if level == PubQuorum then Some(Quorum(n))
    else None
  }

  /** A quorum is reachable only with two nodes or more; for an odd pool it asks
      for one node more than a bare majority, floor(n / 2) + 1. */
  lemma QuorumReach(n: nat)
    ensures Quorum(n) <= n <==> n >= 2
    ensures n % 2 == 0 ==> Quorum(n) == n / 2 + 1
    ensures n % 2 == 1 ==> Quorum(n) == n / 2 + 2
    ensures Quorum(1) == 2 && Quorum(3) == 3 && Quorum(4) == 3
  {
  }

  datatype ConfigError =
    | InvalidLevel              // 'Invalid consistency level'
    | Unattainable(nodes: nat)  // 'Cannot achieve desired consistency level with n nodes'

  // ---------------------------------------------------------------------------
  // What publish sends

  /** The messages of one publish: a single body, or an array of bodies. */
  datatype Messages = Single(body: string) | Batch(bodies: seq<string>)

  /** mpub for an array, else dpub when a delay is given, else pub. */
  function PublishCommand(topic: string, msgs: Messages, deferred: int): (c: Command)
    ensures c.Pub? || c.Mpub? || c.Dpub?
    ensures c.topic == topic
    ensures c.Mpub? <==> msgs.Batch?
    ensures c.Dpub? <==> msgs.Single? && deferred != 0
    ensures c.Mpub? ==> c.bodies == msgs.bodies
    ensures c.Pub? || c.Dpub? ==> msgs.Single? && c.body == msgs.body
    ensures c.Dpub? ==> c.delay == deferred
  {
    match msgs
    case Batch(bodies) => Mpub(topic, bodies)
    case Single(body) => if deferred != 0 then Dpub(topic, body, deferred) else Pub(topic, body)
  }

  // ---------------------------------------------------------------------------
  // The socket's side of a publish, as an oracle

  /** One step of an attempt writes a command (the publish command at step 0, a
      NOP at every later step) and then reads one frame. `write` is the write's
      failure, if it fails; `read` is the frame read, or the read's failure. */
  datatype Step = Step(write: Option<Monitor.Failure>, read: Result<Response.Frame, Monitor.Failure>)

  /** The socket during one attempt: its steps, past which recv gives false,
      and whether the reconnect after a failed attempt succeeds. */
  datatype Attempt = Attempt(steps: seq<Step>, reconnects: bool)

  /** The attempt made on the producer at position `i` of the shuffled pool,
      on run `run`. */
  type Oracle = (nat, nat) -> Attempt

  /** What publish does to the connections, in order. */
  datatype Event = Wrote(producer: nat, cmd: Command) | Reconnected(producer: nat)

  function WriteAt(steps: seq<Step>, k: nat): Option<Monitor.Failure> {
    if k < |steps| then steps[k].write else None
  }

  function ReadAt(steps: seq<Step>, k: nat, domain: string): Result<Response.Frame, Monitor.Failure> {
    if k < |steps| then steps[k].read else Failure(Monitor.ReadFailed(domain))
  }

  // ---------------------------------------------------------------------------
  // One attempt: write, read, and answer heartbeats until another frame comes

  datatype End = Answer(frame: Response.Frame) | WriteError(failure: Monitor.Failure) | ReadError(failure: Monitor.Failure)

  /** How an attempt ended, and at which step. */
  datatype Exchange = Exchange(stop: nat, end: End)

  /** The attempt from step `k` on: every step before `stop` read a heartbeat;
      step `stop` failed to write, failed to read, or read another frame. */
  function Conversation(steps: seq<Step>, k: nat, domain: string): (e: Exchange)
    requires k <= |steps|
    ensures k <= e.stop <= |steps|
    decreases |steps| - k
  {
    match WriteAt(steps, k)
    case Some(x) => Exchange(k, WriteError(x))
    case None =>
      match ReadAt(steps, k, domain)
      case Failure(x) => Exchange(k, ReadError(x))
      case Success(f) =>
        if Response.IsHeartbeat(f) then Conversation(steps, k + 1, domain) else Exchange(k, Answer(f))
  }

  /** Every step before the one that ends the attempt wrote its command and
      read a heartbeat; the step that ends it failed to write, failed to read,
      or read a frame other than a heartbeat. */
  lemma {:induction false} ConversationStops(steps: seq<Step>, k: nat, domain: string)
    requires k <= |steps|
    ensures var e := Conversation(steps, k, domain);
      && (forall j :: k <= j < e.stop ==>
            WriteAt(steps, j).None? && ReadAt(steps, j, domain).Success? && Response.IsHeartbeat(ReadAt(steps, j, domain).value))
      && (e.end.WriteError? <==> WriteAt(steps, e.stop).Some?)
      && (e.end.WriteError? ==> WriteAt(steps, e.stop) == Some(e.end.failure))
      && (e.end.ReadError? ==> WriteAt(steps, e.stop).None? && ReadAt(steps, e.stop, domain) == Failure(e.end.failure))
      && (e.end.Answer? ==>
            WriteAt(steps, e.stop).None? && ReadAt(steps, e.stop, domain) == Success(e.end.frame)
            && !Response.IsHeartbeat(e.end.frame))
    decreases |steps| - k
  {
    if WriteAt(steps, k).None? && ReadAt(steps, k, domain).Success? && Response.IsHeartbeat(ReadAt(steps, k, domain).value) {
      ConversationStops(steps, k + 1, domain);
    }
  }

  /** A heartbeat followed by OK: one NOP is written after the command, and the
      attempt ends with the OK, which the caller sees instead of the heartbeat. */
  lemma HeartbeatThenOk(i: nat, cmd: Command, domain: string)
    ensures var hb, ok := Response.ResponseFrame(15, Response.Heartbeat), Response.ResponseFrame(6, Response.Ok);
      var e := Conversation([Step(None, Success(hb)), Step(None, Success(ok))], 0, domain);
      && e.end == Answer(ok) && Response.IsOk(e.end.frame)
      && Written(i, cmd, e) == [Wrote(i, cmd), Wrote(i, Nop)]
  {
    var hb, ok := Response.ResponseFrame(15, Response.Heartbeat), Response.ResponseFrame(6, Response.Ok);
    var steps := [Step(None, Success(hb)), Step(None, Success(ok))];
    assert Response.IsHeartbeat(hb) && !Response.IsHeartbeat(ok);
    assert Conversation(steps, 1, domain) == Exchange(1, Answer(ok));
  }

  /** The commands an attempt writes: the publish command, then one NOP per
      heartbeat read; a write that failed is not among them. */
  function Written(i: nat, cmd: Command, e: Exchange): (ev: seq<Event>)
    ensures |ev| == if e.end.WriteError? then e.stop else e.stop + 1
  {
    seq(if e.end.WriteError? then e.stop else e.stop + 1, j => Wrote(i, if j == 0 then cmd else Nop))
  }

  // ---------------------------------------------------------------------------
  // One producer: up to tries + 1 attempts

  /** What one producer contributes: an OK, an error frame's text (`None` when
      the final frame is not an error frame), a failure once the attempts are
      used up, or nothing when no attempt is made. */
  datatype Verdict = Acked | Refused(text: Option<seq<byte>>) | GaveUp(failure: Monitor.Failure) | NotTried

  datatype Outcome = Outcome(verdict: Verdict, events: seq<Event>, runs: nat)

  /** `$frame['error']`: the text of an error frame, null for any other frame. */
  function ErrorText(f: Response.Frame): (t: Option<seq<byte>>)
    ensures t.Some? <==> f.ErrorFrame?
    ensures f.ErrorFrame? ==> t == Some(f.error)
  {
    if f.ErrorFrame? then Some(f.error) else None
  }

  /** One attempt as the retry loop sees it: how it ended, what it wrote, and
      whether the reconnect that follows a failure succeeds. */
  datatype Try = Try(end: End, written: seq<Event>, reconnects: bool)

  /** Attempt `run` on producer `i`. */
  function TryAt(i: nat, domain: string, cmd: Command, oracle: Oracle, run: nat): Try {
    var attempt := oracle(i, run);
    var e := Conversation(attempt.steps, 0, domain);
    Try(e.end, Written(i, cmd, e), attempt.reconnects)
  }

  /** The attempts producer `i` may make: run 0 to run `tries`. */
  function Tries(i: nat, domain: string, cmd: Command, tries: int, oracle: Oracle): (ts: seq<Try>)
    ensures |ts| == if tries < 0 then 0 else tries + 1
    ensures forall r :: 0 <= r < |ts| ==> ts[r] == TryAt(i, domain, cmd, oracle, r)
  {
    seq(if tries < 0 then 0 else tries + 1, r requires 0 <= r => TryAt(i, domain, cmd, oracle, r))
  }

  /** The retry loop over the attempts `ts` from run `run` on: a final frame
      ends it; a failure on the last run is thrown; any other failure is
      followed by a reconnect, whose own failure is thrown. */
  function Retry(i: nat, domain: string, ts: seq<Try>, run: nat): (d: Outcome)
    ensures d.verdict.NotTried? <==> run >= |ts|
    ensures run >= |ts| ==> d == Outcome(NotTried, [], 0)
    ensures run < |ts| ==> 1 <= d.runs <= |ts| - run
    decreases |ts| - run
  {
    if run >= |ts| then Outcome(NotTried, [], 0)
    else
      var t := ts[run];
      match t.end
      case Answer(f) =>
        Outcome(if Response.IsOk(f) then Acked else Refused(ErrorText(f)), t.written, 1)
      case _ =>
        if run + 1 >= |ts| then Outcome(GaveUp(t.end.failure), t.written, 1)
        else if !t.reconnects then
          Outcome(GaveUp(Monitor.ConnectFailed(domain)), t.written + [Reconnected(i)], 1)
        else
          var rest := Retry(i, domain, ts, run + 1);
          Outcome(rest.verdict, t.written + [Reconnected(i)] + rest.events, rest.runs + 1)
  }

  /** The attempts on producer `i`. */
  function Deliver(i: nat, domain: string, cmd: Command, tries: int, oracle: Oracle): (d: Outcome)
    ensures d.verdict.NotTried? <==> tries < 0
    ensures tries >= 0 ==> 1 <= d.runs <= tries + 1
  {
    Retry(i, domain, Tries(i, domain, cmd, tries, oracle), 0)
  }

  /** Every attempt only writes, and only to producer `i`. */
  ghost predicate WritesOnly(i: nat, ts: seq<Try>) {
    forall r, ev :: 0 <= r < |ts| && ev in ts[r].written ==> ev.Wrote? && ev.producer == i
  }

  lemma AttemptsWriteOnly(i: nat, domain: string, cmd: Command, tries: int, oracle: Oracle)
    ensures WritesOnly(i, Tries(i, domain, cmd, tries, oracle))
  {
    var ts := Tries(i, domain, cmd, tries, oracle);
    forall r, ev | 0 <= r < |ts| && ev in ts[r].written
      ensures ev.Wrote? && ev.producer == i
    {
      var e := Conversation(oracle(i, r).steps, 0, domain);
      var w := Written(i, cmd, e);
      assert ts[r].written == w;
      var j :| 0 <= j < |w| && w[j] == ev;
    }
  }

  /** Everything the retry loop does is done on producer `i`. */
  lemma {:induction false} RetryOwnEvents(i: nat, domain: string, ts: seq<Try>, run: nat)
    requires WritesOnly(i, ts)
    ensures forall ev :: ev in Retry(i, domain, ts, run).events ==> ev.producer == i
    decreases |ts| - run
  {
    if run < |ts| {
      var t := ts[run];
      if !t.end.Answer? && run + 1 < |ts| && t.reconnects {
        RetryOwnEvents(i, domain, ts, run + 1);
      }
    }
  }

  /** A reconnect follows every failed attempt but the last, and never the
      last run: at most `tries` reconnects. */
  lemma {:induction false} RetryReconnects(i: nat, domain: string, ts: seq<Try>, run: nat)
    requires WritesOnly(i, ts)
    ensures var d := Retry(i, domain, ts, run);
      && d.runs - 1 <= multiset(d.events)[Reconnected(i)] <= d.runs
      && (run < |ts| ==> multiset(d.events)[Reconnected(i)] < |ts| - run)
    decreases |ts| - run
  {
    if run < |ts| {
      var t := ts[run];
      assert Reconnected(i) !in t.written;
      if !t.end.Answer? && run + 1 < |ts| && t.reconnects {
        RetryReconnects(i, domain, ts, run + 1);
      }
    }
  }

  /** Attempts go on only after a failure: a final frame ends them, and the
      producer acknowledges exactly when that frame is OK. */
  lemma {:induction false} RetryStopsAtAnswer(i: nat, domain: string, ts: seq<Try>, run: nat)
    ensures var d := Retry(i, domain, ts, run);
      && (forall r :: run <= r < run + d.runs - 1 ==> !ts[r].end.Answer?)
      && (d.verdict.Acked? || d.verdict.Refused? <==> run < |ts| && ts[run + d.runs - 1].end.Answer?)
      && (d.verdict.Acked? <==>
            run < |ts| && ts[run + d.runs - 1].end.Answer? && Response.IsOk(ts[run + d.runs - 1].end.frame))
    decreases |ts| - run
  {
    if run < |ts| {
      var t := ts[run];
      if !t.end.Answer? && run + 1 < |ts| && t.reconnects {
        RetryStopsAtAnswer(i, domain, ts, run + 1);
      }
    }
  }

  // ---------------------------------------------------------------------------
  // The whole pool, in shuffled order, until enough producers acknowledge

  /** An error publish collects: an error frame's text (null for a final frame
      that is neither OK nor an error frame), or a failure's message. */
  datatype PubError = Rejected(text: Option<seq<byte>>) | Raised(failure: Monitor.Failure)

  /** The errors one producer adds: none when it acknowledges or is not tried,
      exactly one otherwise. */
  function ErrorsOf(v: Verdict): (errs: seq<PubError>)
    ensures |errs| == if v.Acked? || v.NotTried? then 0 else 1
  {
    match v
    case Refused(text) => [Rejected(text)]
    case GaveUp(failure) => [Raised(failure)]
    case _ => []
  }

  /** Where publish ends: the count of acknowledgements, the errors, how many
      producers were tried, and what was done to the connections. */
  datatype Tally = Tally(success: nat, errors: seq<PubError>, tried: nat, events: seq<Event>)

  function DomainOf(node: Node): string {
    Monitor.Domain(node.host, node.port)
  }

  /** What each producer of the shuffled pool would contribute if it were
      tried, in pool order. */
  function Outcomes(order: seq<Node>, cmd: Command, tries: int, oracle: Oracle): (outs: seq<Outcome>)
    ensures |outs| == |order|
  {
    seq(|order|, k requires 0 <= k < |order| => Deliver(k, DomainOf(order[k]), cmd, tries, oracle))
  }

  /** Producer `k` of the pool contributes its attempts, which are made
      exactly when `tries` is not negative. */
  lemma OutcomeAt(order: seq<Node>, cmd: Command, tries: int, oracle: Oracle, k: nat)
    requires k < |order|
    ensures var d := Outcomes(order, cmd, tries, oracle)[k];
      && d == Deliver(k, DomainOf(order[k]), cmd, tries, oracle)
      && (d.verdict.NotTried? <==> tries < 0)
  {
  }

  /** The producers from position `i` on, with `success` acknowledgements and
      `errors` so far; the sweep stops once `required` is reached. */
  function Sweep(outs: seq<Outcome>, i: nat, required: int, success: nat, errors: seq<PubError>): (t: Tally)
    requires i <= |outs|
    ensures i <= t.tried <= |outs|
    ensures i < |outs| ==> i < t.tried
    decreases |outs| - i
  {
    if i == |outs| then Tally(success, errors, i, [])
    else
      var d := outs[i];
      var acked := success + if d.verdict.Acked? then 1 else 0;
      var errs := errors + ErrorsOf(d.verdict);
      if acked >= required then Tally(acked, errs, i + 1, d.events)
      else
        var rest := Sweep(outs, i + 1, required, acked, errs);
        rest.(events := d.events + rest.events)
  }

  /** The rest of a sweep from producer `i` on, after `events` were done. */
  function Resume(outs: seq<Outcome>, i: nat, required: int, success: nat, errors: seq<PubError>,
                  events: seq<Event>): Tally
    requires i <= |outs|
  {
    var t := Sweep(outs, i, required, success, errors);
    t.(events := events + t.events)
  }

  /** Producer `i` of a sweep: it adds its acknowledgement or its error and
      its events, and the sweep stops after it or resumes with the next. */
  lemma SweepStep(outs: seq<Outcome>, i: nat, required: int, success: nat, errors: seq<PubError>, events: seq<Event>)
    requires i < |outs|
    ensures var d := outs[i];
      var acked := success + (if d.verdict.Acked? then 1 else 0);
      var errs := errors + ErrorsOf(d.verdict);
      var r := Resume(outs, i, required, success, errors, events);
      && (acked >= required ==> r == Tally(acked, errs, i + 1, events + d.events))
      && (acked < required ==> r == Resume(outs, i + 1, required, acked, errs, events + d.events))
  {
    var d := outs[i];
    var acked := success + (if d.verdict.Acked? then 1 else 0);
    var errs := errors + ErrorsOf(d.verdict);
    if acked < required {
      var rest := Sweep(outs, i + 1, required, acked, errs);
      assert events + (d.events + rest.events) == events + d.events + rest.events;
    }
  }

  /** Each producer tried adds at most one acknowledgement; one that makes an
      attempt adds exactly one acknowledgement or exactly one error, one that
      makes none adds neither. */
  lemma {:induction false} SweepCounts(outs: seq<Outcome>, i: nat, required: int, success: nat, errors: seq<PubError>)
    requires i <= |outs|
    ensures var t := Sweep(outs, i, required, success, errors);
      && success <= t.success <= success + (t.tried - i)
      && ((forall k :: i <= k < |outs| ==> !outs[k].verdict.NotTried?) ==>
            (t.success - success) + (|t.errors| - |errors|) == t.tried - i)
      && ((forall k :: i <= k < |outs| ==> outs[k].verdict.NotTried?) ==>
            t.success == success && t.errors == errors)
    decreases |outs| - i
  {
    if i < |outs| {
      var d := outs[i];
      var acked := success + if d.verdict.Acked? then 1 else 0;
      var errs := errors + ErrorsOf(d.verdict);
      if acked < required {
        SweepCounts(outs, i + 1, required, acked, errs);
      }
    }
  }

  /** The errors collected are only ever appended to. */
  lemma {:induction false} SweepKeepsErrors(outs: seq<Outcome>, i: nat, required: int, success: nat, errors: seq<PubError>)
    requires i <= |outs|
    ensures var t := Sweep(outs, i, required, success, errors);
      |errors| <= |t.errors| && t.errors[..|errors|] == errors
    decreases |outs| - i
  {
    if i < |outs| {
      var d := outs[i];
      var acked := success + if d.verdict.Acked? then 1 else 0;
      var errs := errors + ErrorsOf(d.verdict);
      if acked < required {
        SweepKeepsErrors(outs, i + 1, required, acked, errs);
        var t := Sweep(outs, i + 1, required, acked, errs);
        assert t.errors[..|errors|] == t.errors[..|errs|][..|errors|];
      }
    }
  }

  /** The sweep leaves producers untried only once the requirement is met, and
      stops the moment it is met: it never overshoots the requirement. */
  lemma {:induction false} SweepStops(outs: seq<Outcome>, i: nat, required: int, success: nat, errors: seq<PubError>)
    requires i <= |outs|
    ensures var t := Sweep(outs, i, required, success, errors);
      && (t.tried < |outs| ==> t.success >= required)
      && (success < required ==> t.success <= required)
    decreases |outs| - i
  {
    if i < |outs| {
      var d := outs[i];
      var acked := success + if d.verdict.Acked? then 1 else 0;
      var errs := errors + ErrorsOf(d.verdict);
      if acked < required {
        SweepStops(outs, i + 1, required, acked, errs);
      }
    }
  }

  /** A publish over the whole pool: every producer tried gives one
      acknowledgement or one error (none at all when no attempt is allowed),
      the pool is cut short only once enough producers acknowledge, and never
      more than required acknowledge. */
  lemma PublishTally(order: seq<Node>, required: int, cmd: Command, tries: int, oracle: Oracle)
    ensures var t := Sweep(Outcomes(order, cmd, tries, oracle), 0, required, 0, []);
      && t.success <= t.tried <= |order|
      && (tries >= 0 ==> t.success + |t.errors| == t.tried)
      && (tries < 0 ==> t.success == 0 && t.errors == [])
      && (t.tried < |order| ==> t.success >= required)
      && (0 < required ==> t.success <= required)
  {
    var outs := Outcomes(order, cmd, tries, oracle);
    SweepCounts(outs, 0, required, 0, []);
    SweepStops(outs, 0, required, 0, []);
  }

  // ---------------------------------------------------------------------------
  // The loops of publish

  /** One attempt on producer `i`: write the command, read a frame, and while
      it is a heartbeat write a NOP and read again. */
  method Converse(i: nat, cmd: Command, steps: seq<Step>, domain: string) returns (end: End, written: seq<Event>)
    ensures var e := Conversation(steps, 0, domain);
      end == e.end && written == Written(i, cmd, e)
  {
    var failed := WriteAt(steps, 0);
    if failed.Some? {
      return WriteError(failed.value), [];
    }
    written := [Wrote(i, cmd)];
    var read := ReadAt(steps, 0, domain);
    if read.Failure? {
      return ReadError(read.error), written;
    }
    var frame := read.value;
    var k := 0;
    while Response.IsHeartbeat(frame)
      invariant k < |steps| && WriteAt(steps, k).None? && ReadAt(steps, k, domain) == Success(frame)
      invariant Conversation(steps, 0, domain) == Conversation(steps, k, domain)
      invariant written == seq(k + 1, j => Wrote(i, if j == 0 then cmd else Nop))
      decreases |steps| - k
    {
      k := k + 1;
      failed := WriteAt(steps, k);
      if failed.Some? {
        return WriteError(failed.value), written;
      }
      written := written + [Wrote(i, Nop)];
      read := ReadAt(steps, k, domain);
      if read.Failure? {
        return ReadError(read.error), written;
      }
      frame := read.value;
    }
    end := Answer(frame);
  }

  /** The attempts on producer `i` of the pool `order`: run 0 to `tries`,
      reconnecting after each failed attempt but the last, stopping at the
      first final frame. */
  method TryProducer(order: seq<Node>, i: nat, topic: string, msgs: Messages, tries: int, deferred: int, oracle: Oracle)
    returns (verdict: Verdict, events: seq<Event>)
    requires i < |order|
    ensures var d := Outcomes(order, PublishCommand(topic, msgs, deferred), tries, oracle)[i];
      verdict == d.verdict && events == d.events
  {
    var domain := DomainOf(order[i]);
    var cmd := PublishCommand(topic, msgs, deferred);
    ghost var ts := Tries(i, domain, cmd, tries, oracle);
    ghost var whole := Retry(i, domain, ts, 0);
    verdict, events := NotTried, [];
    var run := 0;
    var done := false;
    while !done && run <= tries
      invariant !done && run > 0 ==> run < |ts|
      invariant !done ==> verdict == NotTried
      invariant !done ==> whole.verdict == Retry(i, domain, ts, run).verdict
      invariant !done ==> whole.events == events + Retry(i, domain, ts, run).events
      invariant done ==> whole.verdict == verdict && whole.events == events
      decreases tries - run, if done then 0 else 1
    {
      var attempt := oracle(i, run);
      var end, written := Converse(i, cmd, attempt.steps, domain);
      assert ts[run] == Try(end, written, attempt.reconnects);
      ghost var before := events;
      if end.Answer? {
        verdict := if Response.IsOk(end.frame) then Acked else Refused(ErrorText(end.frame));
        events := events + written;
        done := true;
      } else if run >= tries {
        verdict := GaveUp(end.failure);
        events := events + written;
        done := true;
      } else if !attempt.reconnects {
        verdict := GaveUp(Monitor.ConnectFailed(domain));
        events := events + (written + [Reconnected(i)]);
        done := true;
      } else {
        ghost var rest := Retry(i, domain, ts, run + 1);
        events := events + (written + [Reconnected(i)]);
        assert before + (written + [Reconnected(i)]) + rest.events == before + (written + [Reconnected(i)] + rest.events);
        run := run + 1;
      }
    }
    if !done {
      assert events + [] == events;
    }
    OutcomeAt(order, cmd, tries, oracle, i);
  }

  /** The loop of publish over the pool `order`: producer after producer,
      until `required` of them acknowledge. */
  method PublishAll(order: seq<Node>, required: int, topic: string, msgs: Messages, tries: int, deferred: int,
                    oracle: Oracle)
    returns (success: nat, errors: seq<PubError>, events: seq<Event>)
    ensures var t := Sweep(Outcomes(order, PublishCommand(topic, msgs, deferred), tries, oracle), 0, required, 0, []);
      success == t.success && errors == t.errors && events == t.events
  {
    var cmd := PublishCommand(topic, msgs, deferred);
    ghost var outs := Outcomes(order, cmd, tries, oracle);
    ghost var whole := Sweep(outs, 0, required, 0, []);
    success, errors, events := 0, [], [];
    var i := 0;
    var done := false;
    while !done && i < |order|
      invariant i <= |order| == |outs|
      invariant !done ==> whole == Resume(outs, i, required, success, errors, events)
      invariant done ==> whole == Tally(success, errors, i, events)
      decreases |order| - i, if done then 0 else 1
    {
      var verdict, written := TryProducer(order, i, topic, msgs, tries, deferred, oracle);
      SweepStep(outs, i, required, success, errors, events);
      ghost var acked := success + (if verdict.Acked? then 1 else 0);
      ghost var errs := errors + ErrorsOf(verdict);
      events := events + written;
      match verdict {
        case Acked => success := success + 1;
        case Refused(text) => errors := errors + [Rejected(text)];
        case GaveUp(failure) => errors := errors + [Raised(failure)];
        case NotTried =>
      }
      assert success == acked && errors == errs;
      done := success >= required;
      i := i + 1;
    }
    if !done {
      assert events + [] == events;
    }
  }

  // ---------------------------------------------------------------------------
  // The client

  /** What publish throws when too few producers acknowledge: the required and
      achieved counts and the errors collected, in order. */
  datatype PublishException = PublishException(required: int, achieved: nat, errors: seq<PubError>)

  class Client {
    var timeout: real
    var setting: Monitor.Setting
    /** The producers publish fans out over, in the order of the last shuffle. */
    var producerPool: seq<Node>
    /** How many producers must acknowledge a publish. */
    var pubSuccessCount: int

    constructor(timeout: real := 3.0, setting: Monitor.Setting := map[])
      ensures this.timeout == timeout && this.setting == setting
      ensures producerPool == [] && pubSuccessCount == 1
    {
      this.timeout := timeout;
      this.setting := setting;
      producerPool := [];
      pubSuccessCount := 1;
    }

    /** Adds one producer per hosts entry to the pool, then sets the required
        acknowledgements for the level. An unknown level leaves the count as it
        was; an unattainable one is still stored. Either way the producers stay
        in the pool. */
    method PublishTo(hosts: seq<HostEntry>, level: int := PubOne) returns (r: Result<(), ConfigError>)
      modifies this
      ensures timeout == old(timeout) && setting == old(setting)
      ensures producerPool == old(producerPool) + NodesOf(hosts, timeout, setting)
      ensures var acks := RequiredAcks(level, |producerPool|);
        && (acks.None? ==> r == Failure(InvalidLevel) && pubSuccessCount == old(pubSuccessCount))
        && (acks.Some? ==> pubSuccessCount == acks.value)
        && (acks.Some? ==> (r.Failure? <==> acks.value > |producerPool|))
        && (acks.Some? && r.Failure? ==> r.error == Unattainable(|producerPool|))
    {
      var i := 0;
      while i < |hosts|
        invariant 0 <= i <= |hosts|
        invariant timeout == old(timeout) && setting == old(setting) && pubSuccessCount == old(pubSuccessCount)
        invariant producerPool == old(producerPool) + NodesOf(hosts[..i], timeout, setting)
      {
        assert hosts[..i + 1][..i] == hosts[..i];
        producerPool := producerPool + [NodeOf(hosts[i], timeout, setting)];
        i := i + 1;
      }
      assert hosts[..i] == hosts;
      var size := |producerPool|;
      if level == PubOne || level == PubTwo {
        pubSuccessCount := level;
      } else if level == PubQuorum {
        pubSuccessCount := Quorum(size);
      } else {
        return Failure(InvalidLevel);
      }
      if pubSuccessCount > size {
        return Failure(Unattainable(size));
      }
      return Success(());
    }

    /** Publishes to the pool in the shuffled order `shuffled`, one producer
        after another until `pubSuccessCount` of them acknowledge; fails with
        the counts and the errors when fewer do. */
    method Publish(topic: string, msgs: Messages, shuffled: seq<Node>, oracle: Oracle, tries: int := 1, deferred: int := 0)
      returns (r: Result<(), PublishException>, events: seq<Event>)
      requires multiset(shuffled) == multiset(producerPool)
      modifies this
      ensures producerPool == shuffled && multiset(producerPool) == multiset(old(producerPool))
      ensures timeout == old(timeout) && setting == old(setting) && pubSuccessCount == old(pubSuccessCount)
      ensures var t := Sweep(Outcomes(shuffled, PublishCommand(topic, msgs, deferred), tries, oracle), 0, pubSuccessCount, 0, []);
        && events == t.events
        && (r.Success? <==> t.success >= pubSuccessCount)
        && (r.Failure? ==> r.error == PublishException(pubSuccessCount, t.success, t.errors))
    {
      producerPool := shuffled;
      var success, errors;
      success, errors, events := PublishAll(producerPool, pubSuccessCount, topic, msgs, tries, deferred, oracle);
      if success < pubSuccessCount {
        r := Failure(PublishException(pubSuccessCount, success, errors));
      } else {
        r := Success(());
      }
    }
  }
}
