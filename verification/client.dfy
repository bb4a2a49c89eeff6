/**
 * C3BridgeClient's request/response correlation: the 16-bit message id, how one received
 * frame is turned into a returned value, and when the id advances. The socket is abstracted
 * away: the caller supplies what `recv` produced for the request just sent.
 */
module BridgeClient {
  import opened Wrappers
  import opened Bytes
  import opened Codec
  import opened Text

  /** The client's only protocol state: the id the next request carries and the next reply must echo. */
  datatype Client = Client(msgId: u16)

  const ID_MODULUS := 0x1_0000

  /** The starting id is `random.randint(1, 100)`; the draw is a parameter here. */
  function NewClient(draw: int): (c: Client)
    requires 1 <= draw <= 100
    ensures 1 <= c.msgId <= 100
  {
    Client(draw)
  }

  /** The id after `n` successful exchanges starting from `id`. */
  function Advance(id: u16, n: nat): u16 {
    (id + n) % ID_MODULUS
  }

  /**
   * A received frame is accepted when it is long enough to unpack, its ok byte is nonzero and
   * its first field is the outstanding id.
   */
  predicate Accepts(c: Client, rsp: bytes) {
    |rsp| >= HEAD_LEN + TAIL_LEN && rsp[|rsp| - 1] != 0 && U16At(rsp, 0) == c.msgId
  }

  /** The client after one read or write call, and what the call returned or raised. */
  datatype Call = Call(client: Client, result: Result<Option<bytes>, PyError>)

  /**
   * _read_rsp: no response gives None; a frame that cannot be unpacked raises; an accepted
   * frame yields its value and advances the id by one modulo 65536; any other frame yields
   * None and leaves the id alone.
   */
  function ReadRsp(c: Client, rsp: Option<bytes>): (r: Call)
    ensures r.result.Failure? <==> rsp.Some? && |rsp.value| < HEAD_LEN + TAIL_LEN
    ensures r.result.Failure? ==> r.result.error == StructError
    ensures r.result.Success? && r.result.value.Some? <==> rsp.Some? && Accepts(c, rsp.value)
    ensures rsp.Some? && Accepts(c, rsp.value) ==>
      && r.result.value.value == rsp.value[HEAD_LEN..|rsp.value| - TAIL_LEN]
      && r.client.msgId == Advance(c.msgId, 1)
    ensures !(rsp.Some? && Accepts(c, rsp.value)) ==> r.client == c
  {
    match rsp
    case None => Call(c, Success(None))
    case Some(frame) =>
      match UnpackRsp(frame)
      case Failure(e) => Call(c, Failure(e))
      case Success(m) =>
        if m.ok && m.msgId == c.msgId then Call(Client((c.msgId + 1) % ID_MODULUS), Success(Some(m.value)))
        else Call(c, Success(None))
  }

  /**
   * One `read`/`write` call (`_read_var`/`_write_var`): the request is packed with the current
   * id (struct.pack may raise before anything is sent), then the response to it is read. The
   * callers encode the variable name and value as UTF-8 first.
   */
  function Transact(c: Client, req: Request, rsp: Option<bytes>): (r: Call)
    ensures !Packable(req) ==> r == Call(c, Failure(StructError))
    ensures Packable(req) ==> r == ReadRsp(c, rsp)
    ensures r.result.Failure? <==> !Packable(req) || (rsp.Some? && |rsp.value| < HEAD_LEN + TAIL_LEN)
    ensures r.result.Success? && r.result.value.Some? <==> Packable(req) && rsp.Some? && Accepts(c, rsp.value)
    ensures r.result.Success? && r.result.value.Some? ==>
      r.result.value.value == rsp.value[HEAD_LEN..|rsp.value| - TAIL_LEN]
    ensures r.client.msgId == if r.result.Success? && r.result.value.Some? then Advance(c.msgId, 1) else c.msgId
  {
    if Pack(c.msgId, req).Failure? then Call(c, Failure(StructError)) else ReadRsp(c, rsp)
  }

  /** After 65535 the id wraps to 0, and a reply carrying 0 is then the one accepted. */
  lemma IdWrapsAround(rsp: bytes, next: bytes)
    requires Accepts(Client(U16_MAX), rsp)
    requires |next| >= HEAD_LEN + TAIL_LEN && next[|next| - 1] != 0
    ensures ReadRsp(Client(U16_MAX), Some(rsp)).client == Client(0)
    ensures ReadRsp(Client(0), Some(next)).result.value.Some? <==> next[0] == 0 && next[1] == 0
  {
  }
}
