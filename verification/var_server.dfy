/**
 * A simulated VarProxy controller holding named variables, used to state end-to-end
 * properties of the client: a request packed by the client, served by the controller and
 * unpacked by the client gives back what was written, and replies to other ids are ignored.
 */
module VarServer {
  import opened Wrappers
  import opened Bytes
  import opened Codec
  import opened BridgeClient
  import opened Commands

  /** The controller's variables. */
  type Store = map<bytes, bytes>

  /** A length for a response's informational fields, saturated at 16 bits; the client never reads them. */
  function Field(n: nat): u16 {
    if n <= U16_MAX then n else U16_MAX
  }

  /** A response frame answering request `id`. */
  function Reply(id: u16, flag: byte, value: bytes, ok: bool): bytes {
    PackRsp(Response(id, Field(|value| + 6), flag, Field(|value|), value, 0, ok))
  }

  /**
   * The controller's side of one exchange: a read answers the variable's value (not ok when it
   * is unknown), a write stores the value and echoes it, anything unreadable is refused.
   */
  function Serve(store: Store, frame: bytes): (Store, bytes) {
    match ParseRequest(frame)
    case None => (store, Reply(0, 0, [], false))
    case Some(Frame(id, ReadVar(name))) =>
      if name in store then (store, Reply(id, READ_FLAG, store[name], true))
      else (store, Reply(id, READ_FLAG, [], false))
    case Some(Frame(id, WriteVar(name, value))) =>
      (store[name := value], Reply(id, WRITE_FLAG, value, true))
  }

  /** A reply carrying the outstanding id, ok set, and `value` is accepted and yields `value`. */
  lemma ReplyAccepted(c: Client, flag: byte, value: bytes)
    ensures ReadRsp(c, Some(Reply(c.msgId, flag, value, true))) == Call(Client(Advance(c.msgId, 1)), Success(Some(value)))
  {
    PackRspThenUnpack(Response(c.msgId, Field(|value| + 6), flag, Field(|value|), value, 0, true));
  }

  /** The client receives a reply with one `recv(256)`: at most this many bytes. */
  const RECV_MAX := 256

  /** The longest value whose reply frame fits one receive. */
  const MAX_ECHO := RECV_MAX - HEAD_LEN - TAIL_LEN

  /** What one receive takes of a frame the controller sent whole: its first bytes, at most 256. */
  function Received(frame: bytes): (r: bytes)
    ensures |r| <= RECV_MAX && |r| <= |frame| && r == frame[..|r|]
    ensures |r| < |frame| ==> |r| == RECV_MAX
  {
    if |frame| <= RECV_MAX then frame else frame[..RECV_MAX]
  }

  /**
   * One exchange with the simulated controller: the client packs, the controller serves, the
   * client reads what one receive returns of the reply.
   */
  function Exchange(c: Client, store: Store, req: Request): (Store, Call)
    requires Packable(req)
  {
    var served := Serve(store, Pack(c.msgId, req).value);
    (served.0, ReadRsp(c, Some(Received(served.1))))
  }

  /** The controller stores a packed write and echoes its value under the request's id. */
  lemma ServeWrite(id: u16, store: Store, name: bytes, value: bytes)
    requires Packable(WriteVar(name, value))
    ensures Serve(store, Pack(id, WriteVar(name, value)).value)
         == (store[name := value], Reply(id, WRITE_FLAG, value, true))
  {
  }

  /** The controller answers a packed read of a known variable with its value under the request's id. */
  lemma ServeRead(id: u16, store: Store, name: bytes)
    requires Packable(ReadVar(name)) && name in store
    ensures Serve(store, Pack(id, ReadVar(name)).value) == (store, Reply(id, READ_FLAG, store[name], true))
  {
    PackThenParse(id, ReadVar(name));
  }

  /** A write exchange stores the value and returns it, advancing the id by one. */
  lemma WriteExchange(c: Client, store: Store, name: bytes, value: bytes)
    requires Packable(WriteVar(name, value)) && |value| <= MAX_ECHO
    ensures Exchange(c, store, WriteVar(name, value))
         == (store[name := value], Call(Client(Advance(c.msgId, 1)), Success(Some(value))))
  {
    ServeWrite(c.msgId, store, name, value);
    ReplyAccepted(c, WRITE_FLAG, value);
  }

  /** A read exchange of a known variable returns its value, advancing the id by one. */
  lemma ReadExchange(c: Client, store: Store, name: bytes)
    requires Packable(ReadVar(name)) && name in store && |store[name]| <= MAX_ECHO
    ensures Exchange(c, store, ReadVar(name)) == (store, Call(Client(Advance(c.msgId, 1)), Success(Some(store[name]))))
  {
    ServeRead(c.msgId, store, name);
    ReplyAccepted(c, READ_FLAG, store[name]);
  }

  /**
   * Writing a variable and then reading it back through the simulated controller: both calls
   * return the written value and the id advances once per call, as long as the reply frame
   * fits one receive.
   */
  lemma WriteThenRead(c: Client, store: Store, name: bytes, value: bytes)
    requires Packable(WriteVar(name, value)) && |value| <= MAX_ECHO
    ensures var (s1, w) := Exchange(c, store, WriteVar(name, value));
      && w == Call(Client(Advance(c.msgId, 1)), Success(Some(value)))
      && Exchange(w.client, s1, ReadVar(name)).1 == Call(Client(Advance(c.msgId, 2)), Success(Some(value)))
  {
    WriteExchange(c, store, name, value);
    var c1 := Client(Advance(c.msgId, 1));
    ReadExchange(c1, store[name := value], name);
    AdvanceAdd(c.msgId, 1, 1);
  }

  /**
   * A write of a value longer than 246 bytes: its echo does not fit one receive, so the call
   * unpacks the first 256 bytes only. It does not raise, and a value it returns is the first
   * 246 bytes of what was written, never the whole value.
   */
  lemma LongWriteCut(c: Client, store: Store, name: bytes, value: bytes)
    requires Packable(WriteVar(name, value)) && |value| > MAX_ECHO
    ensures var w := Exchange(c, store, WriteVar(name, value)).1;
      && w.result.Success?
      && (w.result.value.Some? ==> w.result.value.value == value[..MAX_ECHO] && w.result.value.value != value)
  {
    ServeWrite(c.msgId, store, name, value);
    var f := Reply(c.msgId, WRITE_FLAG, value, true);
    var rsp := Received(f);
    assert |rsp| == RECV_MAX && rsp == f[..RECV_MAX];
    assert f[HEAD_LEN..HEAD_LEN + |value|] == value;
    forall i | 0 <= i < MAX_ECHO
      ensures rsp[HEAD_LEN..|rsp| - TAIL_LEN][i] == value[..MAX_ECHO][i]
    {
      assert rsp[HEAD_LEN + i] == f[HEAD_LEN + i] == f[HEAD_LEN..HEAD_LEN + |value|][i];
    }
  }

  /** A reply to any other id, such as a stale one, yields None and leaves the id where it was. */
  lemma StaleReplyIgnored(c: Client, other: u16, flag: byte, value: bytes, ok: bool)
    requires other != c.msgId
    ensures ReadRsp(c, Some(Reply(other, flag, value, ok))) == Call(c, Success(None))
  {
  }

  /** A refused reply (ok flag clear) yields None even when it carries the outstanding id. */
  lemma RefusedReplyIgnored(c: Client, flag: byte, value: bytes)
    ensures ReadRsp(c, Some(Reply(c.msgId, flag, value, false))) == Call(c, Success(None))
  {
  }

  /** The completion poll ends at the first accepted reply whose value is `b"0"`, after one read. */
  lemma WaitMotionStopsOnIdle(c: Client, replies: seq<bytes>)
    requires replies != [] && replies[0] == Reply(c.msgId, READ_FLAG, IDLE, true)
    ensures WaitMotion(c, replies).outcome == Returned(())
    ensures WaitMotion(c, replies).sent == [POLL]
    ensures WaitMotion(c, replies).client == Client(Advance(c.msgId, 1))
  {
    ReplyAccepted(c, READ_FLAG, IDLE);
  }

  /**
   * A batch whose first write the controller refuses (ok flag clear) returns False having
   * issued that write only, and the id stays where it was.
   */
  lemma FirstWriteFailureAborts(c: Client, batch: seq<VarWrite>, value: bytes, replies: seq<bytes>)
    requires batch != [] && Packable(WriteRequest(batch[0]))
    requires replies != [] && replies[0] == Reply(c.msgId, WRITE_FLAG, value, false)
    ensures SendVars(c, batch, replies).outcome == Returned(false)
    ensures SendVars(c, batch, replies).sent == [WriteRequest(batch[0])]
    ensures SendVars(c, batch, replies).client == c
  {
    RefusedReplyIgnored(c, WRITE_FLAG, value);
  }
}
