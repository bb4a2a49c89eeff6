/**
 * The VarProxy wire format as C3BridgeClient packs and unpacks it (all fields big-endian):
 *
 *   read request   id:H | body_len:H | flag:B = 0 | name_len:H | name
 *   write request  id:H | body_len:H | flag:B = 1 | name_len:H | name | value_len:H | value
 *   response       id:H | body_len:H | type:B | value_len:H | value | error_code:H | ok:?
 *
 * `ParseRequest` and `PackRsp` are the controller's side of the same format; they are the
 * partners the packing and unpacking functions are proved against.
 */
module Codec {
  import opened Wrappers
  import opened Bytes

  /** Size of the fixed `!HHBH` head shared by requests and responses. */
  const HEAD_LEN := 7

  /** Size of the `H?` tail of a response: the error code and the ok flag. */
  const TAIL_LEN := 3

  const READ_FLAG: byte := 0

  const WRITE_FLAG: byte := 1

  /** A request of the client, with the variable name and value already encoded as bytes. */
  datatype Request = ReadVar(name: bytes) | WriteVar(name: bytes, value: bytes)

  /** A request as it travels: the message id it carries and what it asks for. */
  datatype Frame = Frame(msgId: u16, req: Request)

  /** Every field of a response, as `struct.unpack` returns them (`?` gives a bool). */
  datatype Response = Response(
    msgId: u16,
    bodyLen: u16,
    msgType: byte,
    valueLen: u16,
    value: bytes,
    errorCode: u16,
    ok: bool)

  /** _pack_read_req: struct.pack raises when an `H` argument does not fit in 16 bits. */
  function PackRead(msgId: u16, name: bytes): (r: Result<bytes, PyError>)
    ensures r.Success? <==> |name| <= U16_MAX - 3
    ensures r.Failure? ==> r.error == StructError
    ensures r.Success? ==>
      && |r.value| == HEAD_LEN + |name|
      && U16At(r.value, 0) == msgId
      && U16At(r.value, 2) == |name| + 3
      && r.value[4] == 0
      && U16At(r.value, 5) == |name|
      && r.value[HEAD_LEN..] == name
  {
    var nameLen := |name|;
    var reqLen := nameLen + 3;
    if !FitsU16(reqLen) || !FitsU16(nameLen) then
      Failure(StructError)
    else
      var f := BE16(msgId) + BE16(reqLen) + [READ_FLAG] + BE16(nameLen) + name;
      assert U16At(f, 0) == msgId by { U16AtSplit([], BE16(msgId), f[2..]); }
      assert U16At(f, 2) == reqLen by { U16AtSplit(f[..2], BE16(reqLen), f[4..]); }
      assert U16At(f, 5) == nameLen by { U16AtSplit(f[..5], BE16(nameLen), f[7..]); }
      Success(f)
  }

  /** _pack_write_req: the same head with flag 1, then the value length and the value. */
  function PackWrite(msgId: u16, name: bytes, value: bytes): (r: Result<bytes, PyError>)
    ensures r.Success? <==> |name| + |value| <= U16_MAX - 5
    ensures r.Failure? ==> r.error == StructError
    ensures r.Success? ==>
      && |r.value| == HEAD_LEN + |name| + 2 + |value|
      && U16At(r.value, 0) == msgId
      && U16At(r.value, 2) == |name| + 5 + |value|
      && r.value[4] == 1
      && U16At(r.value, 5) == |name|
      && r.value[HEAD_LEN..HEAD_LEN + |name|] == name
      && U16At(r.value, HEAD_LEN + |name|) == |value|
      && r.value[HEAD_LEN + |name| + 2..] == value
  {
    var nameLen := |name|;
    var valueLen := |value|;
    var reqLen := nameLen + 3 + 2 + valueLen;
    if !FitsU16(reqLen) || !FitsU16(nameLen) || !FitsU16(valueLen) then
      Failure(StructError)
    else
      var f := BE16(msgId) + BE16(reqLen) + [WRITE_FLAG] + BE16(nameLen) + name + BE16(valueLen) + value;
      var nameEnd := HEAD_LEN + nameLen;
      assert U16At(f, 0) == msgId by { U16AtSplit([], BE16(msgId), f[2..]); }
      assert U16At(f, 2) == reqLen by { U16AtSplit(f[..2], BE16(reqLen), f[4..]); }
      assert U16At(f, 5) == nameLen by { U16AtSplit(f[..5], BE16(nameLen), f[7..]); }
      assert f[HEAD_LEN..nameEnd] == name;
      assert U16At(f, nameEnd) == valueLen by {
        assert f[..nameEnd] + BE16(valueLen) + f[nameEnd + 2..] == f;
        U16AtSplit(f[..nameEnd], BE16(valueLen), f[nameEnd + 2..]);
      }
      Success(f)
  }

  /** The body_len field of a request: every byte after the id and body_len fields. */
  function BodyLen(req: Request): nat {
    match req
    case ReadVar(name) => |name| + 3
    case WriteVar(name, value) => |name| + 3 + 2 + |value|
  }

  /** Every `H` field of the request fits in 16 bits; body_len is the largest of them. */
  predicate Packable(req: Request) {
    BodyLen(req) <= U16_MAX
  }

  /** What the client puts on the wire for a request carrying id `msgId`. */
  function Pack(msgId: u16, req: Request): (r: Result<bytes, PyError>)
    ensures r.Success? <==> Packable(req)
    ensures r.Failure? ==> r.error == StructError
  {
    match req
    case ReadVar(name) => PackRead(msgId, name)
    case WriteVar(name, value) => PackWrite(msgId, name, value)
  }

  /**
   * The controller's reading of a request frame: every declared length must agree with the
   * frame's size, and the flag selects the read or the write layout.
   */
  function ParseRequest(f: bytes): Option<Frame> {
    if |f| < HEAD_LEN then None
    else
      var nameLen := U16At(f, 5);
      var nameEnd := HEAD_LEN + nameLen;
      if |f| < nameEnd then None
      else if f[4] == READ_FLAG then
        if |f| == nameEnd && U16At(f, 2) == nameLen + 3 then
          Some(Frame(U16At(f, 0), ReadVar(f[HEAD_LEN..nameEnd])))
        else None
      else if f[4] == WRITE_FLAG && nameEnd + 2 <= |f| then
        var valueLen := U16At(f, nameEnd);
        if |f| == nameEnd + 2 + valueLen && U16At(f, 2) == nameLen + 5 + valueLen then
          Some(Frame(U16At(f, 0), WriteVar(f[HEAD_LEN..nameEnd], f[nameEnd + 2..])))
        else None
      else None
  }

  /** Every frame the client can pack is read back by the controller as the same id and request. */
  lemma PackThenParse(msgId: u16, req: Request)
    requires Pack(msgId, req).Success?
    ensures ParseRequest(Pack(msgId, req).value) == Some(Frame(msgId, req))
  {
    var f := Pack(msgId, req).value;
    match req
    case ReadVar(name) =>
      assert f[4] == READ_FLAG;
      assert |f| == HEAD_LEN + U16At(f, 5);
      assert U16At(f, 2) == U16At(f, 5) + 3;
      assert f[HEAD_LEN..HEAD_LEN + U16At(f, 5)] == name;
    case WriteVar(name, value) =>
      assert f[4] == WRITE_FLAG;
      assert U16At(f, HEAD_LEN + |name|) == |value|;
  }

  /** Conversely, every frame the controller accepts is exactly what the client packs for it. */
  lemma ParseThenPack(f: bytes)
    requires ParseRequest(f).Some?
    ensures Pack(ParseRequest(f).value.msgId, ParseRequest(f).value.req) == Success(f)
  {
    if f[4] == READ_FLAG {
      ParseThenPackRead(f);
    } else {
      ParseThenPackWrite(f);
    }
  }

  lemma ParseThenPackRead(f: bytes)
    requires ParseRequest(f).Some? && f[4] == READ_FLAG
    ensures Pack(ParseRequest(f).value.msgId, ParseRequest(f).value.req) == Success(f)
  {
    var nameEnd := HEAD_LEN + U16At(f, 5);
    var name := f[HEAD_LEN..nameEnd];
    assert ParseRequest(f).value == Frame(U16At(f, 0), ReadVar(name));
    U16AtThenBE16(f, 0);
    U16AtThenBE16(f, 2);
    U16AtThenBE16(f, 5);
    assert f == f[0..2] + f[2..4] + [f[4]] + f[5..7] + name;
  }

  lemma ParseThenPackWrite(f: bytes)
    requires ParseRequest(f).Some? && f[4] == WRITE_FLAG
    ensures Pack(ParseRequest(f).value.msgId, ParseRequest(f).value.req) == Success(f)
  {
    var nameEnd := HEAD_LEN + U16At(f, 5);
    var name := f[HEAD_LEN..nameEnd];
    var value := f[nameEnd + 2..];
    assert ParseRequest(f).value == Frame(U16At(f, 0), WriteVar(name, value));
    U16AtThenBE16(f, 0);
    U16AtThenBE16(f, 2);
    U16AtThenBE16(f, 5);
    U16AtThenBE16(f, nameEnd);
    assert f == f[0..2] + f[2..4] + [f[4]] + f[5..7] + name + f[nameEnd..nameEnd + 2] + value;
  }

  /**
   * _read_rsp: the value length is derived from the received size alone, so the value is
   * everything between the 7-byte head and the 3-byte tail. A frame shorter than 10 bytes
   * gives a negative count in the struct format, which raises.
   */
  function UnpackRsp(rsp: bytes): (r: Result<Response, PyError>)
    ensures r.Success? <==> |rsp| >= HEAD_LEN + TAIL_LEN
    ensures r.Failure? ==> r.error == StructError
    ensures r.Success? ==> |r.value.value| == |rsp| - HEAD_LEN - TAIL_LEN
  {
    if |rsp| < HEAD_LEN + TAIL_LEN then
      Failure(StructError)
    else
      var n := |rsp|;
      Success(Response(
        U16At(rsp, 0), U16At(rsp, 2), rsp[4], U16At(rsp, 5),
        rsp[HEAD_LEN..n - TAIL_LEN], U16At(rsp, n - 3), rsp[n - 1] != 0))
  }

  /** The controller's packing of a response, field for field. */
  function PackRsp(m: Response): bytes {
    BE16(m.msgId) + BE16(m.bodyLen) + [m.msgType] + BE16(m.valueLen) + m.value
      + BE16(m.errorCode) + [if m.ok then 1 else 0]
  }

  /**
   * Unpacking recovers every field of a packed response, whether or not its declared
   * value_len and body_len agree with the value: neither is ever checked.
   */
  lemma PackRspThenUnpack(m: Response)
    ensures UnpackRsp(PackRsp(m)) == Success(m)
  {
    var f := PackRsp(m);
    var n := |f|;
    U16AtSplit([], BE16(m.msgId), f[2..]);
    U16AtSplit(f[..2], BE16(m.bodyLen), f[4..]);
    U16AtSplit(f[..5], BE16(m.valueLen), f[7..]);
    assert f[HEAD_LEN..n - TAIL_LEN] == m.value;
    assert f == f[..n - 3] + BE16(m.errorCode) + [f[n - 1]];
    U16AtSplit(f[..n - 3], BE16(m.errorCode), [f[n - 1]]);
  }

  /** Every frame of at least 10 bytes whose ok byte is 0 or 1 is the packing of what it unpacks to. */
  lemma UnpackThenPackRsp(rsp: bytes)
    requires |rsp| >= HEAD_LEN + TAIL_LEN
    requires rsp[|rsp| - 1] <= 1
    ensures PackRsp(UnpackRsp(rsp).value) == rsp
  {
  }
}
