/**
 * KUKARemoteController: robot commands as ordered batches of variable writes, the
 * abort-on-first-failure batch sender, the completion poll and get_pose.
 *
 * The socket is an oracle: `replies[k]` is the bytes `recv` returned for the k-th request put
 * on the wire (an empty sequence when the peer closed the connection). A run that needs a
 * reply after the oracle is used up ends `Stalled`: in the program the call would still be
 * blocked in `recv`, or still polling.
 */
module Commands {
  import opened Wrappers
  import opened Bytes
  import opened Codec
  import opened BridgeClient
  import opened Text
  import opened Formatting

  datatype Outcome<+T> = Returned(value: T) | Raised(error: PyError) | Stalled

  /**
   * A controller call against the oracle: the client afterwards, the replies not consumed, the
   * requests put on the wire and answered, in order, the values the client calls returned in
   * order, and how the call ended.
   */
  datatype Run<+T> = Run(
    client: Client,
    rest: seq<bytes>,
    sent: seq<Request>,
    returned: seq<Option<bytes>>,
    outcome: Outcome<T>)

  /** Number of client calls that returned a value, i.e. that advanced the message id. */
  function Successes(rs: seq<Option<bytes>>): nat {
    if rs == [] then 0 else (if rs[0].Some? then 1 else 0) + Successes(rs[1..])
  }

  predicate AllSome(rs: seq<Option<bytes>>) {
    forall i | 0 <= i < |rs| :: rs[i].Some?
  }

  predicate IsPrefix<T(==)>(a: seq<T>, b: seq<T>) {
    |a| <= |b| && a == b[..|a|]
  }

  /**
   * The value one read/write call returns for `req` when `reply` comes back, stated directly
   * on the reply's bytes: struct.error when the request does not pack or the reply is shorter
   * than 10 bytes, bytes [7, L-3) when the reply is accepted, and None otherwise.
   */
  function Answer(c: Client, req: Request, reply: bytes): Result<Option<bytes>, PyError> {
    if !Packable(req) || |reply| < HEAD_LEN + TAIL_LEN then Failure(StructError)
    else if Accepts(c, reply) then Success(Some(reply[HEAD_LEN..|reply| - TAIL_LEN]))
    else Success(None)
  }

  /** The client after a call that returned `v`: advanced by one exactly when a value came back. */
  function After(c: Client, v: Option<bytes>): Client {
    if v.Some? then Client(Advance(c.msgId, 1)) else c
  }

  /** `Answer` is what the client's read/write call computes, and `After` is where it leaves the id. */
  lemma AnswerIsTransact(c: Client, req: Request, reply: bytes)
    ensures Transact(c, req, Some(reply)).result == Answer(c, req, reply)
    ensures Answer(c, req, reply).Success? ==>
      Transact(c, req, Some(reply)).client == After(c, Answer(c, req, reply).value)
  {
  }

  /**
   * Each of the first `|returned|` requests was answered by the reply consumed for it, under
   * the id the calls before it left.
   */
  ghost predicate Answered(c: Client, replies: seq<bytes>, sent: seq<Request>, returned: seq<Option<bytes>>)
    requires |returned| <= |sent| <= |replies|
    decreases |returned|
  {
    returned != [] ==>
      && Answer(c, sent[0], replies[0]) == Success(returned[0])
      && Answered(After(c, returned[0]), replies[1..], sent[1..], returned[1..])
  }

  /**
   * What every run keeps: one reply consumed per request on the wire, every request but
   * possibly the last one returned a value, each returned value answers its request, and the
   * id advanced once per returned value.
   */
  ghost predicate Coherent<T>(c: Client, replies: seq<bytes>, r: Run<T>) {
    && |r.sent| <= |replies|
    && r.rest == replies[|r.sent|..]
    && |r.returned| <= |r.sent| <= |r.returned| + 1
    && (r.outcome.Returned? ==> |r.returned| == |r.sent|)
    && (r.outcome.Stalled? ==> r.rest == [])
    && Answered(c, replies, r.sent, r.returned)
    && r.client.msgId == Advance(c.msgId, Successes(r.returned))
  }

  /**
   * A run that stopped without returning did so at the call for `next`, issued after
   * `|r.returned|` calls had returned: struct.error when `next` does not pack (nothing more
   * goes on the wire) or when the reply to it is too short to unpack, and a stall when it
   * packs but no reply is left.
   */
  ghost predicate StoppedAt<T>(next: Request, replies: seq<bytes>, r: Run<T>) {
    var k := |r.returned|;
    && !r.outcome.Returned?
    && (r.outcome.Raised? ==>
          && r.outcome.error == StructError
          && if Packable(next) then |r.sent| == k + 1 && k < |replies| && |replies[k]| < HEAD_LEN + TAIL_LEN
             else |r.sent| == k)
    && (r.outcome.Stalled? ==> Packable(next) && |r.sent| == k && k == |replies|)
  }

  lemma {:induction false} SuccessesAppend(a: seq<Option<bytes>>, b: seq<Option<bytes>>)
    ensures Successes(a + b) == Successes(a) + Successes(b)
  {
    if a == [] {
      assert a + b == b;
    } else {
      assert (a + b)[0] == a[0];
      assert (a + b)[1..] == a[1..] + b;
      SuccessesAppend(a[1..], b);
    }
  }

  lemma AdvanceAdd(id: u16, m: nat, n: nat)
    ensures Advance(Advance(id, m), n) == Advance(id, m + n)
  {
  }

  /** `b` continues where `a` stopped. */
  function Append<T, U>(a: Run<T>, b: Run<U>): Run<U> {
    Run(b.client, b.rest, a.sent + b.sent, a.returned + b.returned, b.outcome)
  }

  function WithOutcome<T, U>(a: Run<T>, o: Outcome<U>): Run<U> {
    Run(a.client, a.rest, a.sent, a.returned, o)
  }

  lemma {:induction false} AppendAnswered(c: Client, replies: seq<bytes>, sa: seq<Request>, ra: seq<Option<bytes>>,
                                          sb: seq<Request>, rb: seq<Option<bytes>>)
    requires |ra| == |sa| && |rb| <= |sb| && |sa| + |sb| <= |replies|
    requires Answered(c, replies, sa, ra)
    requires Answered(Client(Advance(c.msgId, Successes(ra))), replies[|sa|..], sb, rb)
    ensures Answered(c, replies, sa + sb, ra + rb)
    decreases |ra|
  {
    if ra == [] {
      assert sa + sb == sb && ra + rb == rb;
      assert Client(Advance(c.msgId, 0)) == c;
    } else {
      AppendAnsweredHead(c, replies, sa, ra, sb, rb);
      AppendAnswered(After(c, ra[0]), replies[1..], sa[1..], ra[1..], sb, rb);
      AppendAnsweredTail(c, replies, sa, ra, sb, rb);
    }
  }

  /** The first call of `ra` is answered, and the rest of `ra` and then `rb` follow from its client. */
  lemma AppendAnsweredHead(c: Client, replies: seq<bytes>, sa: seq<Request>, ra: seq<Option<bytes>>,
                           sb: seq<Request>, rb: seq<Option<bytes>>)
    requires ra != [] && |ra| == |sa| && |rb| <= |sb| && |sa| + |sb| <= |replies|
    requires Answered(c, replies, sa, ra)
    requires Answered(Client(Advance(c.msgId, Successes(ra))), replies[|sa|..], sb, rb)
    ensures Answered(After(c, ra[0]), replies[1..], sa[1..], ra[1..])
    ensures Answered(Client(Advance(After(c, ra[0]).msgId, Successes(ra[1..]))), replies[1..][|sa| - 1..], sb, rb)
  {
    AfterAdvances(c, ra);
    assert replies[1..][|sa| - 1..] == replies[|sa|..];
  }

  /** Putting the first call of `ra` back in front of the appended rest. */
  lemma AppendAnsweredTail(c: Client, replies: seq<bytes>, sa: seq<Request>, ra: seq<Option<bytes>>,
                           sb: seq<Request>, rb: seq<Option<bytes>>)
    requires ra != [] && |ra| == |sa| && |rb| <= |sb| && |sa| + |sb| <= |replies|
    requires Answer(c, sa[0], replies[0]) == Success(ra[0])
    requires Answered(After(c, ra[0]), replies[1..], sa[1..] + sb, ra[1..] + rb)
    ensures Answered(c, replies, sa + sb, ra + rb)
  {
    ConsAppend(sa, sb);
    ConsAppend(ra, rb);
    AnsweredCons(c, replies, sa + sb, ra + rb);
  }

  lemma ConsAppend<T>(a: seq<T>, b: seq<T>)
    requires a != []
    ensures (a + b)[0] == a[0] && (a + b)[1..] == a[1..] + b
  {
    assert (a + b)[1..] == a[1..] + b;
  }

  /** A first call answered by the first reply, followed by answered calls, is answered. */
  lemma AnsweredCons(c: Client, replies: seq<bytes>, sent: seq<Request>, returned: seq<Option<bytes>>)
    requires returned != [] && |returned| <= |sent| <= |replies|
    requires Answer(c, sent[0], replies[0]) == Success(returned[0])
    requires Answered(After(c, returned[0]), replies[1..], sent[1..], returned[1..])
    ensures Answered(c, replies, sent, returned)
  {
  }

  /** The id after the first value and then the rest is the id after all of them. */
  lemma AfterAdvances(c: Client, returned: seq<Option<bytes>>)
    requires returned != []
    ensures Client(Advance(After(c, returned[0]).msgId, Successes(returned[1..])))
         == Client(Advance(c.msgId, Successes(returned)))
  {
    AdvanceAdd(c.msgId, if returned[0].Some? then 1 else 0, Successes(returned[1..]));
  }

  lemma AppendCoherent<T, U>(c: Client, replies: seq<bytes>, a: Run<T>, b: Run<U>)
    requires Coherent(c, replies, a) && a.outcome.Returned?
    requires Coherent(a.client, a.rest, b)
    ensures Coherent(c, replies, Append(a, b))
  {
    SuccessesAppend(a.returned, b.returned);
    AdvanceAdd(c.msgId, Successes(a.returned), Successes(b.returned));
    assert replies[|a.sent|..][|b.sent|..] == replies[|a.sent| + |b.sent|..];
    assert a.client == Client(Advance(c.msgId, Successes(a.returned)));
    AppendAnswered(c, replies, a.sent, a.returned, b.sent, b.returned);
  }

  /** Ending a run differently keeps it coherent as long as the new outcome fits what was consumed. */
  lemma WithOutcomeCoherent<T, U>(c: Client, replies: seq<bytes>, a: Run<T>, o: Outcome<U>)
    requires Coherent(c, replies, a)
    requires o.Returned? ==> |a.returned| == |a.sent|
    requires o.Stalled? ==> a.rest == []
    ensures Coherent(c, replies, WithOutcome(a, o))
  {
  }

  /** A continuation that stopped at `next` makes the whole run stop there. */
  lemma StoppedAfter<T, U>(c: Client, replies: seq<bytes>, next: Request, a: Run<T>, b: Run<U>)
    requires Coherent(c, replies, a) && a.outcome.Returned?
    requires StoppedAt(next, a.rest, b)
    ensures StoppedAt(next, replies, Append(a, b))
  {
    var k := |b.returned|;
    if b.outcome.Raised? && Packable(next) {
      assert replies[|a.sent| + k] == a.rest[k];
    }
  }

  /** One client call against the oracle. */
  function Issue(c: Client, req: Request, replies: seq<bytes>): (r: Run<Option<bytes>>)
    ensures Coherent(c, replies, r)
    ensures r.sent == [] || r.sent == [req]
    ensures r.outcome.Raised? <==> !Packable(req) || (replies != [] && |replies[0]| < HEAD_LEN + TAIL_LEN)
    ensures r.outcome.Stalled? <==> Packable(req) && replies == []
    ensures !r.outcome.Returned? ==> StoppedAt(req, replies, r)
    ensures r.outcome.Returned? ==>
      && r.sent == [req]
      && r.returned == [r.outcome.value]
      && Transact(c, req, Some(replies[0])) == Call(r.client, Success(r.outcome.value))
  {
    if !Packable(req) then
      Run(c, replies, [], [], Raised(StructError))
    else if replies == [] then
      Run(c, [], [], [], Stalled)
    else
      var call := Transact(c, req, Some(replies[0]));
      AnswerIsTransact(c, req, replies[0]);
      match call.result
      case Failure(e) => Run(c, replies[1..], [req], [], Raised(e))
      case Success(v) => Run(call.client, replies[1..], [req], [v], Returned(v))
  }

  // ---------------------------------------------------------------------------------------
  // Batches of writes

  /** One (variable, text) pair of a command batch. */
  datatype VarWrite = VarWrite(name: string, text: string)

  function WriteRequest(w: VarWrite): Request {
    WriteVar(Utf8(w.name), Utf8(w.text))
  }

  /** The requests a batch becomes when every write is issued, in batch order. */
  function WriteRequests(batch: seq<VarWrite>): (r: seq<Request>)
    ensures |r| == |batch|
  {
    seq(|batch|, i requires 0 <= i < |batch| => WriteRequest(batch[i]))
  }

  /**
   * What a run of __send_vars on a non-empty batch satisfies: it is coherent and has sent a
   * prefix of the batch's writes; a write that returned None is the last call and the batch
   * then returns False; it returns True exactly when every write was sent and returned a
   * value; and a run that did not return stopped at the next write of the batch.
   */
  ghost predicate SentInOrder(c: Client, batch: seq<VarWrite>, replies: seq<bytes>, r: Run<bool>) {
    && Coherent(c, replies, r)
    && IsPrefix(r.sent, WriteRequests(batch))
    && (forall i | 0 <= i < |r.returned| ::
          r.returned[i].None? ==> i == |r.returned| - 1 && r.outcome == Returned(false))
    && (r.outcome.Returned? ==>
          (r.outcome.value <==> r.sent == WriteRequests(batch) && AllSome(r.returned)))
    && (r.outcome == Returned(false) ==> r.returned != [] && r.returned[|r.returned| - 1] == None)
    && (!r.outcome.Returned? ==>
          |r.returned| < |batch| && StoppedAt(WriteRequests(batch)[|r.returned|], replies, r))
  }

  /**
   * __send_vars, from the first pair of a non-empty batch on: write in order, return False at
   * the first write that returns None, and True once every write returned a value.
   */
  function SendEach(c: Client, batch: seq<VarWrite>, replies: seq<bytes>): (r: Run<bool>)
    requires batch != []
    ensures SentInOrder(c, batch, replies, r)
    decreases |batch|
  {
    var step := Issue(c, WriteRequest(batch[0]), replies);
    if step.outcome == Returned(None) || !step.outcome.Returned? || |batch| == 1 then
      SendEachLast(c, batch, replies, step);
      WithOutcome(step, LastWrite(step.outcome))
    else
      var more := SendEach(step.client, batch[1..], step.rest);
      SendEachStep(c, batch, replies, step, more);
      Append(step, more)
  }

  /** How a batch ends when its current write is the last one issued: True exactly when it returned a value. */
  function LastWrite(o: Outcome<Option<bytes>>): Outcome<bool> {
    match o
    case Returned(v) => Returned(v.Some?)
    case Raised(e) => Raised(e)
    case Stalled => Stalled
  }

  /** SendEach when no further write follows the first: it failed, raised, stalled, or was the only one. */
  lemma SendEachLast(c: Client, batch: seq<VarWrite>, replies: seq<bytes>, step: Run<Option<bytes>>)
    requires batch != []
    requires step == Issue(c, WriteRequest(batch[0]), replies)
    requires step.outcome == Returned(None) || !step.outcome.Returned? || |batch| == 1
    ensures SentInOrder(c, batch, replies, WithOutcome(step, LastWrite(step.outcome)))
  {
    WithOutcomeCoherent(c, replies, step, LastWrite(step.outcome));
    assert WriteRequests(batch)[0] == WriteRequest(batch[0]);
    if |batch| == 1 {
      assert WriteRequests(batch) == [WriteRequest(batch[0])];
    }
  }

  /** The inductive step of SendEach: a successful first write followed by the rest of the batch. */
  lemma SendEachStep(c: Client, batch: seq<VarWrite>, replies: seq<bytes>,
                     step: Run<Option<bytes>>, more: Run<bool>)
    requires |batch| >= 2
    requires Coherent(c, replies, step) && step.outcome.Returned? && step.outcome.value.Some?
    requires step.sent == [WriteRequest(batch[0])] && step.returned == [step.outcome.value]
    requires SentInOrder(step.client, batch[1..], step.rest, more)
    ensures SentInOrder(c, batch, replies, Append(step, more))
  {
    AppendCoherent(c, replies, step, more);
    SendEachShape(batch, step, more);
    SendEachStopped(c, batch, replies, step, more);
  }

  /** A rest of the batch that stopped at its next write makes the whole batch stop there. */
  lemma SendEachStopped(c: Client, batch: seq<VarWrite>, replies: seq<bytes>,
                        step: Run<Option<bytes>>, more: Run<bool>)
    requires |batch| >= 2
    requires Coherent(c, replies, step) && step.outcome.Returned? && |step.returned| == 1
    requires !more.outcome.Returned? ==>
      |more.returned| < |batch| - 1 && StoppedAt(WriteRequests(batch[1..])[|more.returned|], step.rest, more)
    ensures var r := Append(step, more);
      !r.outcome.Returned? ==>
        |r.returned| < |batch| && StoppedAt(WriteRequests(batch)[|r.returned|], replies, r)
  {
    if !more.outcome.Returned? {
      assert WriteRequests(batch)[1 + |more.returned|] == WriteRequests(batch[1..])[|more.returned|];
      StoppedAfter(c, replies, WriteRequests(batch[1..])[|more.returned|], step, more);
    }
  }

  /** The order and abort properties of SendEach carry across a successful first write. */
  lemma SendEachShape(batch: seq<VarWrite>, step: Run<Option<bytes>>, more: Run<bool>)
    requires |batch| >= 2
    requires step.outcome.Returned? && step.outcome.value.Some?
    requires step.sent == [WriteRequest(batch[0])] && step.returned == [step.outcome.value]
    requires IsPrefix(more.sent, WriteRequests(batch[1..]))
    requires |more.returned| <= |more.sent|
    requires forall i | 0 <= i < |more.returned| ::
      more.returned[i].None? ==> i == |more.returned| - 1 && more.outcome == Returned(false)
    requires more.outcome.Returned? ==>
      (more.outcome.value <==> more.sent == WriteRequests(batch[1..]) && AllSome(more.returned))
    requires more.outcome == Returned(false) ==>
      more.returned != [] && more.returned[|more.returned| - 1] == None
    ensures var r := Append(step, more);
      && IsPrefix(r.sent, WriteRequests(batch))
      && (forall i | 0 <= i < |r.returned| ::
            r.returned[i].None? ==> i == |r.returned| - 1 && r.outcome == Returned(false))
      && (r.outcome.Returned? ==>
            (r.outcome.value <==> r.sent == WriteRequests(batch) && AllSome(r.returned)))
      && (r.outcome == Returned(false) ==> r.returned != [] && r.returned[|r.returned| - 1] == None)
  {
    var r := Append(step, more);
    assert WriteRequests(batch) == [WriteRequest(batch[0])] + WriteRequests(batch[1..]);
    assert forall i | 1 <= i < |r.returned| :: r.returned[i] == more.returned[i - 1];
    assert r.returned[0] == step.outcome.value;
    assert forall j | 0 <= j < |more.returned| :: more.returned[j] == r.returned[j + 1];
    assert AllSome(r.returned) <==> AllSome(more.returned);
  }

  /**
   * __send_vars: issues the batch's writes in order and stops at the first write that returns
   * None. It returns True exactly when the batch is non-empty and every write returned a
   * value (an empty value counts); an empty batch returns False without writing.
   */
  function SendVars(c: Client, batch: seq<VarWrite>, replies: seq<bytes>): (r: Run<bool>)
    ensures Coherent(c, replies, r)
    ensures IsPrefix(r.sent, WriteRequests(batch))
    ensures forall i | 0 <= i < |r.returned| ::
      r.returned[i].None? ==> i == |r.returned| - 1 && r.outcome == Returned(false)
    ensures r.outcome.Returned? ==>
      (r.outcome.value <==> batch != [] && r.sent == WriteRequests(batch) && AllSome(r.returned))
    ensures r.outcome == Returned(false) && batch != [] ==>
      r.returned != [] && r.returned[|r.returned| - 1] == None
    ensures batch == [] ==> r.sent == [] && r.outcome == Returned(false)
    ensures !r.outcome.Returned? ==>
      |r.returned| < |batch| && StoppedAt(WriteRequests(batch)[|r.returned|], replies, r)
  {
    if batch == [] then Run(c, replies, [], [], Returned(false))
    else SendEach(c, batch, replies)
  }

  // ---------------------------------------------------------------------------------------
  // Completion poll

  const COM_ACTION := "COM_ACTION"

  /** `b"0"`: the value COM_ACTION holds once the controller is idle again. */
  const IDLE: bytes := [0x30]

  /** The only request __wait_motion ever sends (the name is ASCII, so its UTF-8 form is `Ascii`). */
  const POLL := ReadVar(Ascii(COM_ACTION))

  /**
   * What a completion poll run satisfies: it is coherent and sends only COM_ACTION reads; a
   * read returning `b"0"` is the last one and the poll then returns, and only then; None or
   * any other value keeps it polling, so it stops otherwise only with struct.error at a reply
   * too short to unpack, or by stalling once the replies are used up.
   */
  ghost predicate Polled(c: Client, replies: seq<bytes>, r: Run<()>) {
    && Coherent(c, replies, r)
    && (forall i | 0 <= i < |r.sent| :: r.sent[i] == POLL)
    && (forall i | 0 <= i < |r.returned| ::
          r.returned[i] == Some(IDLE) ==> i == |r.returned| - 1 && r.outcome.Returned?)
    && (r.outcome.Returned? ==> r.returned != [] && r.returned[|r.returned| - 1] == Some(IDLE))
    && (r.outcome.Raised? ==>
          && r.outcome.error == StructError
          && |r.sent| == |r.returned| + 1
          && |replies[|r.returned|]| < HEAD_LEN + TAIL_LEN)
    && (r.outcome.Stalled? ==> |r.sent| == |r.returned| == |replies|)
    && (!r.outcome.Returned? ==> StoppedAt(POLL, replies, r))
  }

  /**
   * __wait_motion: read COM_ACTION until a read returns exactly `b"0"`; None and every other
   * value keep it polling. No write is ever issued. The poll request always packs, so the
   * only exception is struct.error for a reply too short to unpack.
   */
  function WaitMotion(c: Client, replies: seq<bytes>): (r: Run<()>)
    ensures Polled(c, replies, r)
    decreases |replies|
  {
    var poll := Issue(c, POLL, replies);
    if poll.outcome.Returned? && poll.outcome.value != Some(IDLE) then
      var more := WaitMotion(poll.client, poll.rest);
      WaitMotionStep(c, replies, poll, more);
      Append(poll, more)
    else
      WaitMotionLast(c, replies, poll);
      WithOutcome(poll, LastPoll(poll.outcome))
  }

  /** The poll request packs: its name has 10 bytes. */
  lemma PollPacks()
    ensures Packable(POLL)
  {
    assert |Ascii(COM_ACTION)| == 10;
  }

  /** How the poll ends when its current read is the last one: it returned `b"0"`, raised or stalled. */
  function LastPoll(o: Outcome<Option<bytes>>): Outcome<()> {
    match o
    case Returned(_) => Returned(())
    case Raised(e) => Raised(e)
    case Stalled => Stalled
  }

  /** WaitMotion when no further read follows the first. */
  lemma WaitMotionLast(c: Client, replies: seq<bytes>, poll: Run<Option<bytes>>)
    requires poll == Issue(c, POLL, replies)
    requires !(poll.outcome.Returned? && poll.outcome.value != Some(IDLE))
    ensures Polled(c, replies, WithOutcome(poll, LastPoll(poll.outcome)))
  {
    WithOutcomeCoherent(c, replies, poll, LastPoll(poll.outcome));
    PollPacks();
  }

  /** The inductive step of WaitMotion: a read that did not return `b"0"`, then the rest of the poll. */
  lemma WaitMotionStep(c: Client, replies: seq<bytes>, poll: Run<Option<bytes>>, more: Run<()>)
    requires poll == Issue(c, POLL, replies)
    requires poll.outcome.Returned? && poll.outcome.value != Some(IDLE)
    requires Polled(poll.client, poll.rest, more)
    ensures Polled(c, replies, Append(poll, more))
  {
    AppendCoherent(c, replies, poll, more);
    var r := Append(poll, more);
    assert forall i | 1 <= i < |r.returned| :: r.returned[i] == more.returned[i - 1];
    assert forall i | 1 <= i < |r.sent| :: r.sent[i] == more.sent[i - 1];
    if !more.outcome.Returned? {
      StoppedAfter(c, replies, POLL, poll, more);
      if more.outcome.Raised? {
        assert replies[|r.returned|] == poll.rest[|more.returned|];
      }
    }
  }

  // ---------------------------------------------------------------------------------------
  // Commands

  /** The public commands of KUKARemoteController that write variables. */
  datatype Command =
    | SetTool(xyzrpy: seq<real>)
    | MoveJ(q: seq<real>, wait: bool)
    | MoveL(xyzrpy: seq<real>, wait: bool)
    | SetCartesianSpeed(meterPerSecond: real)
    | SetJointSpeed(degPerSecond: real)
    | SetDigitalOutput(doId: int, doVal: bool)

  /** Fixed-point float rendering: `f"{v:.3f}"` and `f"{v:.4f}"`. */
  datatype Formats = Formats(fixed3: real -> string, fixed4: real -> string)

  /** The action code each command triggers, as the controller program defines them. */
  function ActionCode(cmd: Command): string {
    match cmd
    case MoveJ(_, _) => "2"
    case MoveL(_, _) => "3"
    case SetTool(_) => "5"
    case SetCartesianSpeed(_) => "6"
    case SetJointSpeed(_) => "7"
    case SetDigitalOutput(_, _) => "10"
  }

  /** The data variables each command writes before its action code. */
  function PayloadVars(cmd: Command): seq<string> {
    match cmd
    case SetTool(_) => ["COM_FRAME"]
    case MoveJ(_, _) => ["COM_E6AXIS"]
    case MoveL(_, _) => ["COM_E6POS"]
    case SetCartesianSpeed(_) => ["COM_VALUE1"]
    case SetJointSpeed(_) => ["COM_VALUE2"]
    case SetDigitalOutput(_, _) => ["COM_VALUE1", "COM_VALUE2"]
  }

  /** Whether the command polls for completion after a successful batch. */
  predicate Waits(cmd: Command) {
    (cmd.MoveJ? || cmd.MoveL?) && cmd.wait
  }

  /**
   * The ordered writes of a command: its payload variables first, in order, and COM_ACTION
   * with the command's action code last and only there.
   */
  function Batch(fmts: Formats, cmd: Command): (b: seq<VarWrite>)
    ensures |b| == |PayloadVars(cmd)| + 1
    ensures forall i | 0 <= i < |b| - 1 :: b[i].name == PayloadVars(cmd)[i] && b[i].name != COM_ACTION
    ensures b[|b| - 1] == VarWrite(COM_ACTION, ActionCode(cmd))
  {
    match cmd
    case SetTool(xyzrpy) =>
      [VarWrite("COM_FRAME", "{FRAME: " + PoseToStr(fmts.fixed4, xyzrpy) + "}"), VarWrite(COM_ACTION, "5")]
    case MoveJ(q, _) =>
      [VarWrite("COM_E6AXIS", "{E6AXIS: " + JointsToStr(fmts.fixed3, q) + "}"), VarWrite(COM_ACTION, "2")]
    case MoveL(xyzrpy, _) =>
      [VarWrite("COM_E6POS", "{E6POS: " + PoseToStr(fmts.fixed4, xyzrpy) + "}"), VarWrite(COM_ACTION, "3")]
    case SetCartesianSpeed(v) =>
      [VarWrite("COM_VALUE1", fmts.fixed4(v)), VarWrite(COM_ACTION, "6")]
    case SetJointSpeed(v) =>
      [VarWrite("COM_VALUE2", fmts.fixed4(v)), VarWrite(COM_ACTION, "7")]
    case SetDigitalOutput(doId, doVal) =>
      [ VarWrite("COM_VALUE1", DecimalString(doId)),
        VarWrite("COM_VALUE2", DecimalString(if doVal then 1 else 0)),
        VarWrite(COM_ACTION, "10") ]
  }

  /** The set_digital_output payload reads back as the output id and as 0 or 1. */
  lemma DigitalOutputPayload(fmts: Formats, doId: int, doVal: bool)
    ensures ParseDecimal(Batch(fmts, SetDigitalOutput(doId, doVal))[0].text) == Some(doId)
    ensures ParseDecimal(Batch(fmts, SetDigitalOutput(doId, doVal))[1].text) == Some(if doVal then 1 else 0)
  {
    DecimalRoundTrip(doId);
    DecimalRoundTrip(if doVal then 1 else 0);
  }

  /**
   * The set_tool and movel payload is the controller's structure literal `{FRAME: …}` or
   * `{E6POS: …}` around the pose fields X, Y, Z, A, B, C, each rendered with `:.4f`.
   */
  lemma PosePayload(fmts: Formats, cmd: Command)
    requires cmd.SetTool? || cmd.MoveL?
    requires CommaFreeFormat(fmts.fixed4)
    ensures var tag := if cmd.SetTool? then "FRAME" else "E6POS";
      var text := Batch(fmts, cmd)[0].text;
      && |text| >= |tag| + 4
      && text[..|tag| + 3] == "{" + tag + ": "
      && text[|text| - 1] == '}'
      && var fields := SplitFields(text[|tag| + 3..|text| - 1]);
      && |fields| == Min(|cmd.xyzrpy|, 6)
      && forall i | 0 <= i < |fields| :: fields[i] == POSE_LABELS[i] + " " + fmts.fixed4(cmd.xyzrpy[i])
  {
    var tag := if cmd.SetTool? then "FRAME" else "E6POS";
    var body := PoseToStr(fmts.fixed4, cmd.xyzrpy);
    var text := Batch(fmts, cmd)[0].text;
    assert text == "{" + tag + ": " + body + "}";
    assert text[|tag| + 3..|text| - 1] == body;
    PoseToStrFields(fmts.fixed4, cmd.xyzrpy);
  }

  /**
   * The movej payload is the structure literal `{E6AXIS: …}` around the joint fields
   * A1..A6, E1..E6, each rendered with `:.3f`.
   */
  lemma JointPayload(fmts: Formats, q: seq<real>, wait: bool)
    requires CommaFreeFormat(fmts.fixed3)
    ensures var text := Batch(fmts, MoveJ(q, wait))[0].text;
      && |text| >= 10
      && text[..9] == "{E6AXIS: "
      && text[|text| - 1] == '}'
      && var fields := SplitFields(text[9..|text| - 1]);
      && |fields| == Min(|q|, 12)
      && forall i | 0 <= i < |fields| :: fields[i] == JOINT_LABELS[i] + " " + fmts.fixed3(q[i])
  {
    var body := JointsToStr(fmts.fixed3, q);
    var text := Batch(fmts, MoveJ(q, wait))[0].text;
    assert text == "{E6AXIS: " + body + "}";
    assert text[9..|text| - 1] == body;
    JointsToStrFields(fmts.fixed3, q);
  }

  /**
   * What a command run satisfies, for a batch sent and, when `wait`, a completion poll:
   *  - it is coherent, and as long as it is inside the batch it has sent a prefix of the batch;
   *  - it goes beyond the batch only when waiting and after every write of the batch returned
   *    a value, and then it sends only COM_ACTION reads;
   *  - a write that returned None is the last call and the command returns False;
   *  - a poll read returning `b"0"` is the last call and the command returns True;
   *  - False comes only from an empty batch or right after a write returned None, with no
   *    read following;
   *  - True exactly when the whole batch went through and, when waiting, the last read
   *    returned `b"0"`, and without waiting nothing follows the batch;
   *  - otherwise it stopped at the next write of the batch or, after the batch, at a poll read.
   */
  ghost predicate Commanded(c: Client, batch: seq<VarWrite>, wait: bool, replies: seq<bytes>, r: Run<bool>) {
    && Coherent(c, replies, r)
    && (|r.sent| <= |batch| ==> IsPrefix(r.sent, WriteRequests(batch)))
    && (|r.sent| > |batch| ==>
          && wait
          && r.sent[..|batch|] == WriteRequests(batch)
          && (forall i | 0 <= i < |batch| :: r.returned[i].Some?)
          && (forall i | |batch| <= i < |r.sent| :: r.sent[i] == POLL))
    && (forall i | 0 <= i < |r.returned| && i < |batch| ::
          r.returned[i].None? ==> i == |r.returned| - 1 && r.outcome == Returned(false))
    && (forall i | |batch| <= i < |r.returned| ::
          r.returned[i] == Some(IDLE) ==> i == |r.returned| - 1 && r.outcome == Returned(true))
    && (r.outcome == Returned(false) ==>
          && |r.sent| <= |batch|
          && (batch == [] || (r.returned != [] && r.returned[|r.returned| - 1] == None)))
    && (r.outcome == Returned(true) <==>
          && r.outcome.Returned?
          && batch != []
          && |r.sent| >= |batch|
          && r.sent[..|batch|] == WriteRequests(batch)
          && (forall i | 0 <= i < |batch| :: r.returned[i].Some?)
          && (wait ==> |r.returned| > |batch| && r.returned[|r.returned| - 1] == Some(IDLE))
          && (!wait ==> |r.sent| == |batch|))
    && (!r.outcome.Returned? ==>
          if |r.returned| < |batch| then StoppedAt(WriteRequests(batch)[|r.returned|], replies, r)
          else wait && StoppedAt(POLL, replies, r))
  }

  /**
   * The shared shape of set_tool, movej, movel, set_cartesian_speed, set_joint_speed and
   * set_digital_output: send the batch; when `wait` (movej and movel), poll for completion,
   * but only after the whole batch succeeded, and return True once the poll sees idle.
   */
  function SendThenWait(c: Client, batch: seq<VarWrite>, wait: bool, replies: seq<bytes>): (r: Run<bool>)
    ensures Commanded(c, batch, wait, replies, r)
  {
    var send := SendVars(c, batch, replies);
    if send.outcome == Returned(true) && wait then
      var poll := WaitMotion(send.client, send.rest);
      SendThenPoll(c, batch, replies, send, poll);
      Append(send, WithOutcome(poll, PollEnd(poll.outcome)))
    else
      SendOnly(c, batch, wait, replies, send);
      send
  }

  /** A command that polled returns True when the poll returned; an exception or a stall carries over. */
  function PollEnd(o: Outcome<()>): Outcome<bool> {
    match o
    case Returned(_) => Returned(true)
    case Raised(e) => Raised(e)
    case Stalled => Stalled
  }

  /** A command run without a poll: the batch failed, raised or stalled, or the command does not wait. */
  lemma SendOnly(c: Client, batch: seq<VarWrite>, wait: bool, replies: seq<bytes>, send: Run<bool>)
    requires send == SendVars(c, batch, replies)
    requires !(send.outcome == Returned(true) && wait)
    ensures Commanded(c, batch, wait, replies, send)
  {
    assert |send.sent| == |batch| ==> send.sent[..|batch|] == send.sent;
  }

  /** The batch went through completely and the completion poll followed it. */
  lemma SendThenPoll(c: Client, batch: seq<VarWrite>, replies: seq<bytes>, send: Run<bool>, poll: Run<()>)
    requires Coherent(c, replies, send) && send.outcome == Returned(true)
    requires batch != [] && send.sent == WriteRequests(batch) && AllSome(send.returned)
    requires Polled(send.client, send.rest, poll)
    ensures Commanded(c, batch, true, replies, Append(send, WithOutcome(poll, PollEnd(poll.outcome))))
  {
    var r := Append(send, WithOutcome(poll, PollEnd(poll.outcome)));
    PollAfterBatch(c, batch, replies, send, poll);
    CommandedAfterPoll(c, batch, replies, r);
  }

  /** The run of a command whose batch went through and whose poll followed, piece by piece. */
  lemma PollAfterBatch(c: Client, batch: seq<VarWrite>, replies: seq<bytes>, send: Run<bool>, poll: Run<()>)
    requires Coherent(c, replies, send) && send.outcome == Returned(true)
    requires batch != [] && send.sent == WriteRequests(batch) && AllSome(send.returned)
    requires Polled(send.client, send.rest, poll)
    ensures var r := Append(send, WithOutcome(poll, PollEnd(poll.outcome)));
      && Coherent(c, replies, r)
      && |r.sent| >= |batch| && |r.returned| >= |batch| && batch != []
      && r.sent[..|batch|] == WriteRequests(batch)
      && (forall i | |batch| <= i < |r.sent| :: r.sent[i] == POLL)
      && (forall i | 0 <= i < |batch| :: r.returned[i].Some?)
      && (forall i | |batch| <= i < |r.returned| ::
            r.returned[i] == Some(IDLE) ==> i == |r.returned| - 1 && r.outcome == Returned(true))
      && r.outcome != Returned(false)
      && (r.outcome.Returned? ==> |r.returned| > |batch| && r.returned[|r.returned| - 1] == Some(IDLE))
      && (!r.outcome.Returned? ==> StoppedAt(POLL, replies, r))
  {
    var done := WithOutcome(poll, PollEnd(poll.outcome));
    var r := Append(send, done);
    var n := |batch|;
    assert |send.sent| == n && |send.returned| == n;
    assert Coherent(c, replies, r) by {
      WithOutcomeCoherent(send.client, send.rest, poll, PollEnd(poll.outcome));
      AppendCoherent(c, replies, send, done);
    }
    assert r.sent[..n] == WriteRequests(batch) by {
      assert r.sent[..n] == send.sent;
    }
    assert forall i | n <= i < |r.sent| :: r.sent[i] == POLL by {
      assert forall i | n <= i < |r.sent| :: r.sent[i] == poll.sent[i - n];
    }
    assert forall i | 0 <= i < n :: r.returned[i].Some? by {
      assert forall i | 0 <= i < n :: r.returned[i] == send.returned[i];
    }
    assert forall i | n <= i < |r.returned| ::
        r.returned[i] == Some(IDLE) ==> i == |r.returned| - 1 && r.outcome == Returned(true) by {
      assert forall i | n <= i < |r.returned| :: r.returned[i] == poll.returned[i - n];
    }
    assert r.outcome.Returned? ==> |r.returned| > n && r.returned[|r.returned| - 1] == Some(IDLE) by {
      if r.outcome.Returned? {
        assert r.returned[|r.returned| - 1] == poll.returned[|poll.returned| - 1];
      }
    }
    assert !r.outcome.Returned? ==> StoppedAt(POLL, replies, r) by {
      if !r.outcome.Returned? {
        StoppedAfter(c, replies, POLL, send, done);
      }
    }
  }

  /** Those pieces make a waiting command's run. */
  lemma CommandedAfterPoll(c: Client, batch: seq<VarWrite>, replies: seq<bytes>, r: Run<bool>)
    requires
      && Coherent(c, replies, r)
      && |r.sent| >= |batch| && |r.returned| >= |batch| && batch != []
      && r.sent[..|batch|] == WriteRequests(batch)
      && (forall i | |batch| <= i < |r.sent| :: r.sent[i] == POLL)
      && (forall i | 0 <= i < |batch| :: r.returned[i].Some?)
      && (forall i | |batch| <= i < |r.returned| ::
            r.returned[i] == Some(IDLE) ==> i == |r.returned| - 1 && r.outcome == Returned(true))
      && r.outcome != Returned(false)
      && (r.outcome.Returned? ==> |r.returned| > |batch| && r.returned[|r.returned| - 1] == Some(IDLE))
      && (!r.outcome.Returned? ==> StoppedAt(POLL, replies, r))
    ensures Commanded(c, batch, true, replies, r)
  {
  }

  /**
   * A public command of KUKARemoteController: its batch, then the poll when it waits. A
   * command that does not wait is exactly __send_vars on its batch; one that returns True
   * has written COM_ACTION with its action code after its payload, and has polled exactly
   * when it waits.
   */
  function Execute(c: Client, fmts: Formats, cmd: Command, replies: seq<bytes>): (r: Run<bool>)
    ensures Commanded(c, Batch(fmts, cmd), Waits(cmd), replies, r)
    ensures !Waits(cmd) ==> r == SendVars(c, Batch(fmts, cmd), replies)
    ensures r.outcome == Returned(true) ==>
      var n := |PayloadVars(cmd)|;
      && |r.sent| > n
      && r.sent[n] == WriteRequest(VarWrite(COM_ACTION, ActionCode(cmd)))
      && (Waits(cmd) <==> |r.sent| > n + 1)
      && (forall i | n < i < |r.sent| :: r.sent[i] == POLL)
  {
    var batch := Batch(fmts, cmd);
    var r := SendThenWait(c, batch, Waits(cmd), replies);
    assert r.outcome == Returned(true) ==> r.sent[|batch| - 1] == WriteRequests(batch)[|batch| - 1];
    r
  }

  // ---------------------------------------------------------------------------------------
  // get_pose

  const POSE_VAR := "$POS_ACT_MES"

  /** The request get_pose sends. */
  const POSE_READ := ReadVar(Ascii(POSE_VAR))

  /** The two constant reads are what `read` sends for their names after `var.encode("UTF-8")`. */
  lemma RequestNamesAreUtf8()
    ensures POLL == ReadVar(Utf8(COM_ACTION))
    ensures POSE_READ == ReadVar(Utf8(POSE_VAR))
  {
    Utf8IsAscii(COM_ACTION);
    Utf8IsAscii(POSE_VAR);
  }


  /**
   * The text operations get_pose relies on: `bytes.decode("utf-8")` (None when invalid), the
   * reply-number pattern's findall, `float()` and `int()` (None where they raise ValueError).
   */
  datatype Parsing = Parsing(
    decode: bytes -> Option<string>,
    findall: string -> seq<string>,
    toFloat: string -> Option<real>,
    toInt: string -> Option<int>)

  /** `[float(t) for t in tokens]`: raises ValueError at the first token float() rejects. */
  function Floats(p: Parsing, tokens: seq<string>): (r: Result<seq<real>, PyError>)
    ensures r.Success? <==> forall i | 0 <= i < |tokens| :: p.toFloat(tokens[i]).Some?
    ensures r.Failure? ==> r.error == ValueError
    ensures r.Success? ==>
      && |r.value| == |tokens|
      && forall i | 0 <= i < |tokens| :: r.value[i] == p.toFloat(tokens[i]).value
    decreases |tokens|
  {
    if tokens == [] then Success([])
    else match p.toFloat(tokens[0])
      case None => Failure(ValueError)
      case Some(x) =>
        match Floats(p, tokens[1..])
        case Failure(e) => Failure(e)
        case Success(xs) =>
          assert forall i | 1 <= i < |tokens| :: tokens[i] == tokens[1..][i - 1];
          Success([x] + xs)
  }

  /**
   * The body of get_pose for a non-empty reply: the first six numbers as floats, after the
   * seventh and eighth were read as ints and every later one as a float.
   */
  function PoseFromReply(p: Parsing, reply: bytes): (r: Result<seq<real>, PyError>)
    ensures r.Success? <==>
      && p.decode(reply).Some?
      && var numbers := p.findall(p.decode(reply).value);
      && |numbers| >= 8
      && (forall i | 0 <= i < |numbers| && i != 6 && i != 7 :: p.toFloat(numbers[i]).Some?)
      && p.toInt(numbers[6]).Some?
      && p.toInt(numbers[7]).Some?
    ensures r.Success? ==>
      var numbers := p.findall(p.decode(reply).value);
      && |r.value| == 6
      && forall i | 0 <= i < 6 :: r.value[i] == p.toFloat(numbers[i]).value
    ensures p.decode(reply).None? ==> r == Failure(UnicodeDecodeError)
    ensures p.decode(reply).Some? && |p.findall(p.decode(reply).value)| < 8 && r.Failure? ==>
      r.error in {ValueError, IndexError}
    ensures p.decode(reply).Some? && |p.findall(p.decode(reply).value)| >= 8 && r.Failure? ==>
      r.error == ValueError
  {
    match p.decode(reply)
    case None => Failure(UnicodeDecodeError)
    case Some(text) =>
      var numbers := p.findall(text);
      var head := numbers[..Min(6, |numbers|)];
      match Floats(p, head)
      case Failure(e) => Failure(e)
      case Success(xyzrpy) =>
        if |numbers| < 7 then Failure(IndexError)
        else if p.toInt(numbers[6]).None? then Failure(ValueError)
        else if |numbers| < 8 then Failure(IndexError)
        else if p.toInt(numbers[7]).None? then Failure(ValueError)
        else match Floats(p, numbers[8..])
          case Failure(e) => Failure(e)
          case Success(_) =>
            assert forall i | 0 <= i < 6 :: numbers[i] == head[i];
            assert forall i | 8 <= i < |numbers| :: numbers[i] == numbers[8..][i - 8];
            Success(xyzrpy)
  }

  /**
   * get_pose: one read of $POS_ACT_MES; None when the read returns None or an empty value,
   * otherwise the first six numbers of the reply.
   */
  function GetPose(c: Client, p: Parsing, replies: seq<bytes>): (r: Run<Option<seq<real>>>)
    ensures Coherent(c, replies, r)
    ensures r.sent == [] || r.sent == [POSE_READ]
    ensures r.returned == [] ==> StoppedAt(POSE_READ, replies, r)
    ensures r.returned != [] ==> !r.outcome.Stalled?
    ensures r.outcome == Returned(None) <==> r.returned == [None] || r.returned == [Some([])]
    ensures r.outcome.Returned? && r.outcome.value.Some? ==>
      && |r.returned| == 1
      && r.returned[0].Some? && r.returned[0].value != []
      && PoseFromReply(p, r.returned[0].value) == Success(r.outcome.value.value)
    ensures r.outcome.Raised? && r.returned != [] ==>
      && r.returned[0].Some?
      && PoseFromReply(p, r.returned[0].value) == Failure(r.outcome.error)
  {
    var rd := Issue(c, POSE_READ, replies);
    match rd.outcome
    case Raised(e) => WithOutcome(rd, Raised(e))
    case Stalled => WithOutcome(rd, Stalled)
    case Returned(reply) =>
      if reply.None? || reply.value == [] then WithOutcome(rd, Returned(None))
      else match PoseFromReply(p, reply.value)
        case Failure(e) => WithOutcome(rd, Raised(e))
        case Success(xyzrpy) => WithOutcome(rd, Returned(Some(xyzrpy)))
  }
}
