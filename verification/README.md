# KUKA VarProxy client — a Dafny model

This project models the two layers of a Python client for the KUKA VarProxy (OpenShowVar)
protocol and proves properties of that model.

- **`C3BridgeClient`** (`kuka_c3_bridge_client.py`) does the wire work. It packs read and write
  requests into the fixed big-endian layout `id:H | body_len:H | flag:B | name_len:H | name [| value_len:H | value]`.
  It unpacks responses by deriving the value length from the received size. It keeps a 16-bit
  message id, which advances modulo 65536 only when a response carries that id and has its ok
  flag set.
- **`KUKARemoteController`** (`kuka_remote_controller.py`) works at the command level. It turns
  each robot command into an ordered batch of variable writes: the payload variables come first
  and `COM_ACTION` with the command's action code comes last. It sends the batch and aborts at
  the first failed write. After a move it polls `COM_ACTION` until it reads `b"0"`. It also
  formats poses (`X..C`) and joint vectors (`A1..A6, E1..E6`) as labelled fields, and reads the
  pose back.

Modules, one per concern:

| file | module | contents |
|---|---|---|
| `wrappers.dfy` | `Wrappers` | `Option`, `Result`, and the Python exceptions the code can raise (`PyError`) |
| `bytes.dfy` | `Bytes` | bytes and the big-endian `H` field |
| `codec.dfy` | `Codec` | request packing and response unpacking, each with the controller's side of the format as its partner |
| `client.dfy` | `BridgeClient` | the message id, response correlation, one read/write call (its name and value UTF-8 encoded by the caller) |
| `text.dfy` | `Text` | UTF-8 encoding, `", ".join` and its inverse split, `str(int)` and its inverse |
| `formatting.dfy` | `Formatting` | `pose_to_str`, `joints_to_str` |
| `commands.dfy` | `Commands` | command batches, `__send_vars`, `__wait_motion`, the move commands, `get_pose` |
| `var_server.dfy` | `VarServer` | a simulated controller; end-to-end properties through it |

The socket is an oracle. A controller call receives `replies: seq<bytes>`, where `replies[k]`
is the bytes `recv` returned for the k-th request put on the wire (empty when the peer closed
the connection). The call returns a `Run`, which records:

- the client afterwards;
- the unconsumed replies;
- the requests sent and answered, in order;
- the values the client calls returned;
- how the call ended: `Returned`, `Raised` (a Python exception), or `Stalled`.

`Stalled` means the oracle ran out while the program would still be blocked in `recv` or still
polling. This is how the unbounded `while True` poll is modelled without assuming termination.
Every run keeps the invariant `Commands.Coherent`:

- one reply is consumed per request answered;
- every request but possibly the last one returned a value;
- each returned value is `_read_rsp`'s handling of the reply to that request, under the id the
  calls before it left (`Commands.Answered`, stated on the reply bytes by `Commands.Answer`,
  which `Commands.AnswerIsTransact` proves equal to the client's read/write call);
- the message id advanced exactly once per returned value, modulo 65536.

A run of `__send_vars`, `__wait_motion` or a command that did not return stopped where
`Commands.StoppedAt` says: struct.error at a request too long to pack (nothing more is sent) or
at a reply shorter than 10 bytes, or a stall when no reply is left. get_pose stops there too
before its read returns a value; after that it can also raise from decoding or converting the
reply (`Commands.GetPose`).

Float formatting (`:.3f`, `:.4f`), `bytes.decode`, the reply-number regex and `float()`/`int()`
are function-valued parameters (`Formats`, `Parsing`).

Facts about the code that the model follows:

- Decoding a response never checks its `value_len` or `body_len` fields: the value is bytes
  [7, L-3) of the L bytes received, whatever those fields say. `Codec.PackRspThenUnpack` proves
  that any packed response unpacks to exactly its fields, consistent or not.
- A response shorter than 10 bytes makes `struct.unpack` raise struct.error, and that includes
  the empty `recv` of a closed connection. The model returns `Raised(StructError)`, and this
  propagates through `__send_vars`, `__wait_motion` and the move commands, as the Python
  exception does.
- A request packs only when `body_len` fits in its `H` field: a read name may have at most 65532
  bytes, and a write's name plus value at most 65530 bytes. Longer ones raise struct.error
  before anything is sent.

## Model

| member | source | states |
|---|---|---|
| `Codec.PackRead` | kuka_c3_bridge_client.py:80-92 | packing succeeds iff the name has at most 65532 bytes (otherwise struct.error); the frame is 7 + len(name) bytes: id big-endian at 0, len(name)+3 at 2, flag 0 at 4, len(name) at 5, the name verbatim from 7 |
| `Codec.PackWrite` | kuka_c3_bridge_client.py:94-109 | packing succeeds iff len(name) + len(value) <= 65530; the frame is 9 + len(name) + len(value) bytes: flag 1, body_len len(name)+5+len(value), len(value) at offset 7+len(name), then the value verbatim |
| `Codec.Pack` | kuka_c3_bridge_client.py:80-109 | a request can be packed exactly when its body_len fits in 16 bits; otherwise struct.error |
| `Codec.PackThenParse` | kuka_c3_bridge_client.py:80-109 | the controller's reading of every packed frame gives back the same id and request |
| `Codec.ParseThenPack` | kuka_c3_bridge_client.py:80-109 | every frame the controller accepts is byte-for-byte what the client packs for its id and request |
| `Codec.UnpackRsp` | kuka_c3_bridge_client.py:114-116 | unpacking fails (struct.error) exactly for responses shorter than 10 bytes; the value length is the received length minus 10 |
| `Codec.PackRspThenUnpack` | kuka_c3_bridge_client.py:114-116 | any packed response unpacks to exactly its fields, including declared value_len/body_len that disagree with the value |
| `Codec.UnpackThenPackRsp` | kuka_c3_bridge_client.py:114-116 | every frame of 10 or more bytes with ok byte 0/1 is the packing of what it unpacks to, so the value is bytes [7, L-3) |
| `BridgeClient.NewClient` | kuka_c3_bridge_client.py:18 | the initial message id lies in [1, 100], the range of the draw |
| `BridgeClient.ReadRsp` | kuka_c3_bridge_client.py:111-122 | None for no response; struct.error iff the frame is shorter than 10 bytes; a value iff the ok byte is nonzero and the id field equals the client's id, and then the value is bytes [7, L-3) and the id becomes (id+1) mod 65536; in every other case the id is unchanged |
| `BridgeClient.Transact` | kuka_c3_bridge_client.py:61-73 | a read/write call raises struct.error without touching the id when the request cannot be packed, or when the reply is shorter than 10 bytes; a packable request gets exactly the response handling of its reply; it returns a value iff the request packs and the reply is accepted (ok set, id matching), that value is bytes [7, L-3) of the reply, and the id advances by one exactly then |
| `BridgeClient.IdWrapsAround` | kuka_c3_bridge_client.py:121 | after a success at id 65535 the id is 0, and the next accepted reply is one carrying id 0 |
| `Commands.AnswerIsTransact` | kuka_c3_bridge_client.py:61-122 | a read/write call on a reply returns struct.error when the request does not pack or the reply is under 10 bytes, bytes [7, L-3) of an accepted reply, None otherwise, and advances the id by one exactly when it returned a value |
| `Commands.Issue` | kuka_c3_bridge_client.py:61-78 | one call raises struct.error iff its request does not pack (then nothing is sent) or its reply is shorter than 10 bytes; it stalls iff the request packs and no reply is left; when it returns, the value and the client are those of the read/write call on the first reply |
| `Commands.SendEach` | kuka_remote_controller.py:138-145 | writes go out in batch order as a prefix of the batch; a write that returned None is the last one issued and the batch then returns False; True iff every write of the batch was sent and returned a value; a raise or stall happens only at the next write of the batch, as a struct.error of that write or a missing reply |
| `Commands.SendEachStep` | kuka_remote_controller.py:140-144 | a successful first write followed by the rest of the batch keeps the ordering, abort-on-None, stop-point and id-advance properties |
| `Commands.SendVars` | kuka_remote_controller.py:138-145 | abort-on-first-failure in list order: no write follows one that returned None, whatever the outcome; True iff the batch is non-empty and every write returned a value (an empty value counts); an empty batch returns False and writes nothing; it raises only struct.error at the next write of the batch; the id advances once per successful write |
| `Commands.WaitMotion` | kuka_remote_controller.py:147-152 | only COM_ACTION reads are sent; a read returning exactly b"0" is the last one and the poll returns then and only then; None or any other value keeps it polling, so it otherwise ends only with struct.error at a reply shorter than 10 bytes or by running out of replies |
| `Commands.Batch` | kuka_remote_controller.py:30-103 | every command's batch has its payload variables first (COM_FRAME, COM_E6AXIS, COM_E6POS, COM_VALUE1, COM_VALUE2, or COM_VALUE1 then COM_VALUE2) and COM_ACTION only last, with code 5, 2, 3, 6, 7 or 10 |
| `Commands.DigitalOutputPayload` | kuka_remote_controller.py:98-103 | set_digital_output writes the output id and 0/1 as decimal text that reads back as those numbers |
| `Commands.PosePayload` | kuka_remote_controller.py:30-34 | the set_tool and movel payload is `{FRAME: …}` or `{E6POS: …}` around exactly min(len(xyzrpy), 6) fields X..C, each the label followed by the value rendered with `:.4f` |
| `Commands.JointPayload` | kuka_remote_controller.py:56-59 | the movej payload is `{E6AXIS: …}` around exactly min(len(q), 12) fields A1..A6, E1..E6, each the label followed by the value rendered with `:.3f` |
| `Commands.SendThenWait` | kuka_remote_controller.py:56-76 | a failed batch returns False right after the write that returned None, with no polling read; polling follows only a fully successful batch when waiting, and a successful batch never returns False; True iff the whole batch succeeded and, when waiting, the last poll read b"0"; without waiting nothing follows the batch; a raise or stall happens at the next write or the next poll read |
| `Commands.SendThenPoll` | kuka_remote_controller.py:60-65 | after a successful batch the poll's requests follow the batch's, the command ends True exactly when the poll returned, and a poll that raises or stalls makes the command do the same |
| `Commands.Execute` | kuka_remote_controller.py:30-103 | every command run keeps the whole contract of `Commands.SendThenWait` for its batch, waiting exactly for movej/movel with wait: False only for an empty batch or right after a write returned None, polling only after the whole batch succeeded, True exactly when the batch succeeded and, when waiting, the last poll read b"0"; a command that does not wait (set_tool, the speed setters, set_digital_output, a move without wait) is exactly `__send_vars` on its batch; a command that returns True has written COM_ACTION with its action code right after its payload, and has sent COM_ACTION reads after it exactly when it waits |
| `Commands.Floats` | kuka_remote_controller.py:40 | converting tokens to floats succeeds iff every token converts, giving the converted values in order; otherwise ValueError |
| `Commands.PoseFromReply` | kuka_remote_controller.py:39-45 | a decoded reply yields a pose iff at least 8 numbers are extracted, numbers 7 and 8 convert with int() and the others with float(); the pose is the first six numbers; undecodable bytes raise UnicodeDecodeError, and with at least 8 numbers the only failure is ValueError |
| `Commands.GetPose` | kuka_remote_controller.py:36-45 | one read of $POS_ACT_MES; an exception or stall before any value comes back happens only at that read (struct.error, or no reply); None exactly when the read returned None or an empty value; otherwise the first six numbers of the reply, or the exception their conversion raised |
| `Formatting.JointsUpToIsJoin` | kuka_remote_controller.py:110-136 | the first k conditional appends of joints_to_str build the ", "-join of the first min(len(q), k) labelled fields |
| `Formatting.JointsToStrIsJoin` | kuka_remote_controller.py:110-136 | the chain of twelve appends is the ", "-join of the fields A1..A6, E1..E6 paired with q |
| `Formatting.JointsToStrFields` | kuka_remote_controller.py:110-136 | joints_to_str emits exactly min(len(q), 12) fields, the i-th being the i-th of A1..A6, E1..E6 followed by q[i] (an empty q gives "") |
| `Formatting.PoseToStrFields` | kuka_remote_controller.py:106-107 | pose_to_str emits exactly min(len(xyzrpy), 6) fields labelled X, Y, Z, A, B, C in order |
| `Text.SplitJoin` | kuka_remote_controller.py:107 | splitting a ", "-join of comma-free fields recovers the fields in order |
| `Text.DecimalRoundTrip` | kuka_remote_controller.py:100-101 | the decimal text of any int reads back as that int |
| `Text.Utf8Ascii` | kuka_c3_bridge_client.py:51 | ASCII names encode to one byte per character, each byte the character's code |
| `Commands.RequestNamesAreUtf8` | kuka_c3_bridge_client.py:51 | the constant COM_ACTION poll and $POS_ACT_MES read are the read requests `read` builds from those names with `var.encode("UTF-8")` |
| `Text.Utf8IsAscii` | kuka_c3_bridge_client.py:51 | for ASCII text `var.encode("UTF-8")` is the byte-per-character encoding the constant requests for COM_ACTION and $POS_ACT_MES are built with |
| `VarServer.ReplyAccepted` | kuka_c3_bridge_client.py:114-122 | a reply with the outstanding id, ok set and any value returns that value and advances the id by one |
| `VarServer.WriteThenRead` | kuka_c3_bridge_client.py:76-122 | for a value of at most 246 bytes, so that the reply frame fits one `recv(256)`, a write then a read of the same name through the simulated controller both return the written value, the id advancing by one per call |
| `VarServer.LongWriteCut` | kuka_c3_bridge_client.py:76-122 | a write of more than 246 bytes gets back only the first 256 bytes of its echo: the call does not raise, and a value it returns is the first 246 bytes written, never the whole value |
| `VarServer.StaleReplyIgnored` | kuka_c3_bridge_client.py:120-122 | a reply carrying any other id yields None and leaves the id unchanged |
| `VarServer.RefusedReplyIgnored` | kuka_c3_bridge_client.py:120 | a reply with the ok flag clear yields None even with the right id |
| `VarServer.WaitMotionStopsOnIdle` | kuka_remote_controller.py:147-152 | the poll ends after one read when the first reply is an accepted b"0" |
| `VarServer.FirstWriteFailureAborts` | kuka_remote_controller.py:138-144 | when the controller refuses the first write (ok flag clear) the batch returns False having sent only that write, and the id is unchanged |

## Left out

- Sockets: `connect`, `test_connection`/`can_connect`, `sendall`, `recv(256)` and `close` are I/O. Replies are oracle inputs, so TCP fragmentation is not modelled: a reply is whatever `recv` returned. The 256-byte limit of `recv(256)` is modelled only in the simulated controller's exchange (`VarServer.Received`).
- `VarServer.WriteThenRead`: the round trip is stated for values of at most 246 bytes. A longer echo is cut by `recv(256)` (`VarServer.LongWriteCut`), and the bytes left in the socket, which the next call would receive first, are not modelled.
- Socket exceptions: `sendall` and `recv` raising `OSError` are not modelled, including the `sendall` on a socket whose `connect` failed silently in `__init__`. The oracle always answers with bytes or runs out.
- `BridgeClient.ReadRsp` keeps the `rsp is None` branch of `_read_rsp`, but `_send_req` always overwrites `rsp` with the bytes of `recv` or raises, so no run reaches it: in a run, None is returned only for a reply with a clear ok flag or another id. A missing reply means blocking in `recv`, which is a `Stalled` run.
- A `Stalled` run lists in `sent` only the requests that were answered. The request whose reply never came was already put on the wire by `sendall` before `recv` blocked; `Commands.StoppedAt` names it, but `sent` does not contain it.
- `random.randint(1, 100)`: the draw is the parameter of `BridgeClient.NewClient`.
- Float formatting (`:.3f`, `:.4f`), `bytes.decode("utf-8")`, the pattern `\W(-?[\d\.]+)\W` and `float()`/`int()` are floating-point or regex behaviour. They are the parameters `Formats` and `Parsing`. `Formatting.JointsToStrFields`, `Formatting.PoseToStrFields`, `Commands.PosePayload` and `Commands.JointPayload` assume the float text has no comma, which fixed-point output never has.
- `get_tool`, `get_joints`, `get_cartesian_speed` and `get_joint_speed`: each reads one variable and converts its text to floats. They are outside the modelled core.
- `time.sleep(0.1)` between polls, loguru logging, and the `isinstance` checks of `read`/`write`: these are timing, diagnostics, and typing that Dafny's types already enforce.
- `run_shell` and both `__main__` blocks: an interactive demo.
- `Commands.WaitMotion`: termination is not claimed. The poll has no timeout, and a run that exhausts the replies ends `Stalled`.
- `Commands.SendVars`: `__send_vars` receives an `OrderedDict`. Here it receives a sequence, which allows repeated variable names; every batch built by `Commands.Batch` has distinct names.
