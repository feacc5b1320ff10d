# Stepper-motor board controller: protocol core

This project models the protocol core of `solution::Controller`, the client that drives a
pair of stepper-motor driver boards over TCP. It covers:

- the frame structs the controller sends (PASSWORD, Command_MOVE) as explicit byte
  layouts, and those it reads (REQUEST, RESPONSE, STATUS) by their sizes. Every frame is
  a 6-byte header [checksum, version 3, type, command id 0, length low, length high]
  followed by the payload;
- the 8-bit checksum of `get_control_sum`: start at 0xFF, add every byte modulo 256,
  invert. `update_control_sum` and `send` fill it into the first byte of a frame;
- the `SMSD_Command` bit fields packed into a 32-bit word: 3 reserved bits, 1 action bit,
  a 6-bit opcode and a 22-bit operand, least significant first. The word goes on the wire
  as four little-endian bytes;
- the direction table and speed clamp of `move`, and the fixed command of `stop`;
- the login handshake the constructor runs on every endpoint;
- `receive`'s return-value rule: byte 8 of what was read, or 0;
- the lockstep schedule of `move` and `stop`. Channel 0 gets its frame and its status
  reply is read before channel 1 is written;
- a `Network` object standing for the sockets. Each connection delivers the bytes its
  board sends, in order. Every write and every read is recorded in one shared trace. A
  read that asks for more bytes than the board will send fails. Such a failure stands for
  the exception boost::asio raises, and the controller's `failed` flag marks it as in
  flight.

Modules:

- `Bytes`: fixed-width integer types.
- `Checksum`: the checksum functions and methods.
- `CommandWord`: bit packing and byte order.
- `Frames`: frame images and encoding.
- `Motion`: what `move` and `stop` send.
- `Transport`: connections and the trace.
- `Control`: the handshake, the lockstep exchange and the `Controller` class.

The imperative parts keep their form:

- `get_control_sum` is a loop over an array.
- `update_control_sum` and `send` change a frame array in place.
- The constructor is a loop that appends to `m_sockets`.

Each of these methods is proved against a pure function: `ControlSum`, `Seal`,
`Handshake`, `LoginAll`, `Lockstep`, `MoveRun` and `StopRun`. The properties are proved
as lemmas about those functions.

Facts about the code that the model keeps as written:

- **Login reply length.** The handshake reads `sizeof(RESPONSE) - 1` = 13 bytes after the
  password. RESPONSE has 13 bytes of fields and one padding byte.
- **Access byte.** The verdict is `buffer[8]` of those 13 bytes, i.e. payload byte 2.
- **Checksum span.** `update_control_sum` sums over the whole struct, starting at the
  checksum field itself. That field is still 0 when the sum is taken, so the result is
  the checksum of the bytes after it (`Checksum.LeadingZeroIgnored`).
- **Decoding.** `Frames.DecodeHeader` is not used by the controller, which never decodes
  or checks a received frame. It reads back the header layout `Frames.Encode` writes.

## Model

| member | source | states |
|---|---|---|
| `Bytes.XorIsComplement` | 21.09.02/main.cpp:302 | on a byte, `s ^ 0xFF` equals its one's complement `0xFF - s` |
| `Checksum.Invert` | 21.09.02/main.cpp:302 | the final step returns the accumulator XOR 0xFF, which adds up with the accumulator to 0xFF |
| `Checksum.ControlSum` | 21.09.02/main.cpp:293-303 | the checksum of a span is 0xFF minus ((0xFF + the sum of its bytes) mod 256) |
| `Checksum.AccumulateIsSum` | 21.09.02/main.cpp:295-300 | the wrapping 8-bit accumulator equals the start value plus the plain sum of the bytes, modulo 256 |
| `Checksum.ControlSumIsXor` | 21.09.02/main.cpp:293-303 | the checksum is ((0xFF + sum of the bytes) mod 256) XOR 0xFF |
| `Checksum.LeadingZeroIgnored` | 21.09.02/main.cpp:286-291 | summing from the still-zero checksum field gives the same checksum as starting one byte later |
| `Checksum.CompletedSpanSumsToZero` | 21.09.02/main.cpp:286-291 | once the checksum byte is in place, the checksum of the whole span is 0 |
| `Checksum.GetControlSum` | 21.09.02/main.cpp:293-303 | the loop over `length` bytes returns the checksum of the first `length` bytes of the buffer |
| `Checksum.UpdateControlSum` | 21.09.02/main.cpp:286-291 | the first byte becomes the checksum of the whole struct image; every other byte is unchanged |
| `CommandWord.Pack` | 21.09.02/main.cpp:73-79 | in the packed word, bits 0-2 read back as the reserved value, bit 3 as the action, bits 4-9 as the opcode and bits 10-31 as the operand, each cut to its width |
| `CommandWord.PackFields` | 21.09.02/main.cpp:73-79 | each bit field lands at its offset, cut to its width (3, 1, 6 and 22 bits) |
| `CommandWord.UnpackPack` | 21.09.02/main.cpp:73-79 | packing loses nothing when every field fits its width |
| `CommandWord.PackUnpack` | 21.09.02/main.cpp:73-79 | every 32-bit word is the packing of exactly one in-range struct |
| `CommandWord.WordBytes` | 21.09.02/main.cpp:193-194 | the four bytes memcpy copies out of the word are its little-endian digits: they reassemble to the word |
| `CommandWord.WordFromBytesRoundTrip` | 21.09.02/main.cpp:193-194 | any four bytes are the little-endian image of exactly one word |
| `Frames.Image` | 21.09.02/main.cpp:31-71 | a freshly constructed struct is a 6-byte header (checksum 0, version 3, the type, command id 0, the little-endian payload length) followed by the payload |
| `Frames.Seal` | 21.09.02/main.cpp:286-291 | `update_control_sum` puts the checksum of the whole image in the first byte and changes nothing else; when that byte was 0, it ends up holding the checksum of the bytes after it |
| `Frames.Encode` | 21.09.02/main.cpp:278-284 | a sent frame is 6 + length bytes, has version 3, the given type, command id 0, the little-endian length and the payload verbatim, and its first byte is the checksum of the rest |
| `Frames.DecodeHeader` | 21.09.02/main.cpp:31-38 | a header can be read exactly from 6 or more bytes |
| `Frames.DecodeHeaderOfEncode` | 21.09.02/main.cpp:31-38 | reading back an encoded header gives the fields it was built from |
| `Frames.EncodedFrameChecks` | 21.09.02/main.cpp:278-291 | the checksum recomputed over a whole sent frame is 0 |
| `Frames.PasswordFrame` | 21.09.02/main.cpp:40-49 | the PASSWORD frame is 14 bytes and carries the unlock key as its payload |
| `Frames.PasswordImageSum` | 21.09.02/main.cpp:40-49 | the bytes of a fresh PASSWORD struct add up to 971 |
| `Frames.PasswordChecksum` | 21.09.02/main.cpp:112-123 | the password frame is its image with checksum 0x35 |
| `Frames.PasswordFrameBytes` | 21.09.02/main.cpp:112-123 | the password frame on the wire is 35 03 00 00 08 00 EF CD AB 89 67 45 23 01 |
| `Frames.MoveFrame` | 21.09.02/main.cpp:62-71 | a Command_MOVE frame is 10 bytes |
| `Frames.MoveFrameCarries` | 21.09.02/main.cpp:190-194 | the payload of a move frame unpacks to the command struct that was packed into it |
| `Frames.NewPassword` | 21.09.02/main.cpp:40-49 | a fresh PASSWORD struct is the type-0 header with length 8 and a zero payload |
| `Frames.NewCommandMove` | 21.09.02/main.cpp:62-71 | a fresh Command_MOVE struct is the type-2 header with length 4 and a zero payload |
| `Motion.Clamp` | 21.09.02/main.cpp:155-156 | the speed is held within 15..15600, left alone inside, and raised or lowered to the nearer bound outside |
| `Motion.Motor` | 21.09.02/main.cpp:146-153 | a motion command's word has bits 0-3 (reserve and action) clear, the opcode in bits 4-9 and the operand in bits 10-31 |
| `Motion.MoveCommands` | 21.09.02/main.cpp:144-188 | only f, F, b, B, s and S produce commands (any other character returns early); both commands fit their fields, have reserve and action 0, and carry the same operand |
| `Motion.StopCommands` | 21.09.02/main.cpp:207-220 | both channels get the same in-range command |
| `Motion.ForwardAndBackward` | 21.09.02/main.cpp:158-173 | forward sends 0x0E to channel 0 and 0x0F to channel 1 at the clamped speed; backward swaps the opcodes |
| `Motion.StopCharacter` | 21.09.02/main.cpp:174-183 | the stop character keeps the forward opcodes with operand 0; `stop` sends 0x22 with operand 0 to both |
| `Transport.ReadStep` | 21.09.02/main.cpp:243 | a read takes exactly `length` bytes from the front of its own connection and leaves the others alone, or fails and consumes nothing |
| `Transport.Network.Write` | 21.09.02/main.cpp:283 | a write records the whole buffer as sent on its connection |
| `Transport.Network.Read` | 21.09.02/main.cpp:243 | a read consumes and records exactly the bytes of `ReadStep` |
| `Control.ReceiveValue` | 21.09.02/main.cpp:247-254 | `receive` returns byte 8 of the read (payload byte 2 of a frame) when the read reached it; a nonzero result always comes from such a read |
| `Control.Exchange` | 21.09.02/main.cpp:196-198 | a send followed by a receive completes exactly when the board has the bytes asked for |
| `Control.Lockstep` | 21.09.02/main.cpp:196-202 | the events are frame 0, reply 0, frame 1, reply 1. Channel 1 is touched only after reply 0 is read in full. If reply 0 falls short, channel 1 is never written |
| `Control.Handshake` | 21.09.02/main.cpp:110-134 | the handshake reads 6 bytes, sends the password frame and reads 13 bytes. It completes exactly when the board sent 19 bytes. It is ready exactly when byte 8 of the reply is 0x01 |
| `Control.LoginAll` | 21.09.02/main.cpp:99-137 | the handshakes stop at the first that fails; a verdict is recorded for every completed one |
| `Control.LoginNext` | 21.09.02/main.cpp:110-136 | one more handshake changes only its own connection and adds one verdict when it completes |
| `Control.Untouched` | 21.09.02/main.cpp:99-137 | the handshakes leave every connection not among their endpoints as its board sent it |
| `Control.Unshared` | 21.09.02/main.cpp:99-101 | with distinct endpoints, no earlier endpoint shares a connection with a later one |
| `Control.AnsweredEvery` | 21.09.02/main.cpp:99-137 | the recursive "every board answered" predicate is the per-board statement |
| `Control.EnoughStep` | 21.09.02/main.cpp:99-137 | "every one of the first n boards answered" splits into the first n-1 and board n |
| `Control.CompletesStep` | 21.09.02/main.cpp:99-137 | the handshakes up to board n+1 complete exactly when those up to n did and board n+1 sent 19 bytes |
| `Control.LoginAllAnswered` | 21.09.02/main.cpp:99-137 | the handshakes over the first n endpoints complete exactly when each of those boards answered |
| `Control.LoginAllCompletes` | 21.09.02/main.cpp:94-138 | the constructor completes exactly when every board sends the 6 + 13 bytes of its handshake; the verdicts play no part |
| `Control.VerdictStep` | 21.09.02/main.cpp:125-136 | a further handshake keeps the verdicts so far; the verdict it adds is its own board's access byte |
| `Control.LoginVerdict` | 21.09.02/main.cpp:125-134 | the verdict recorded for endpoint i is its own board's access byte |
| `Control.LoginVerdicts` | 21.09.02/main.cpp:125-134 | every verdict of the constructor is its own board's access byte, whatever the other boards sent |
| `Control.LastVerdict` | 21.09.02/main.cpp:125-136 | the verdict appended after a handshake is the access byte of that board |
| `Control.LoginAllStops` | 21.09.02/main.cpp:99-137 | after a failed handshake no later endpoint is reached |
| `Control.ConnectedStep` | 21.09.02/main.cpp:99-137 | one pass of the constructor's loop appends the handshake's events, and pushes the socket only when the handshake completed |
| `Control.MoveRun` | 21.09.02/main.cpp:184-187 | an ignored direction character does no I/O at all |
| `Control.MoveFramesCarry` | 21.09.02/main.cpp:146-202 | every frame `move` sends is 10 bytes and carries reserve 0, action 0, the direction's opcode for its channel and the clamped speed (0 for s/S) |
| `Control.StopRun` | 21.09.02/main.cpp:205-235 | `stop` sends the same halt frame to each channel in turn, channel 0 first, and completes exactly when both boards answer 13 bytes |
| `Control.StopFramesCarry` | 21.09.02/main.cpp:205-235 | every frame `stop` sends is 10 bytes and carries opcode 0x22 with operand 0 |
| `Control.ForwardOperands` | 21.09.02/main.cpp:155-163 | forward at speed 0, 1000000 and 100 puts operands 15, 15600 and 100 on the wire |
| `Control.Controller.constructor` | 21.09.02/main.cpp:94-138 | the trace, the remaining input, the failure flag, `m_sockets` and the verdicts are those of `LoginAll` over all endpoints |
| `Control.Controller.ConnectAll` | 21.09.02/main.cpp:99-137 | the loop over the endpoints leaves the state `LoginAll` describes |
| `Control.Controller.Connect` | 21.09.02/main.cpp:101-136 | one pass of the loop moves the state from endpoint i to endpoint i+1 of `LoginAll` |
| `Control.Controller.Receive` | 21.09.02/main.cpp:239-255 | reads exactly `length` bytes and returns byte 8 of them when more than 8 were read, 0 otherwise |
| `Control.Controller.Send` | 21.09.02/main.cpp:278-284 | the frame gets its checksum and is then written whole |
| `Control.Controller.Login` | 21.09.02/main.cpp:110-134 | the handshake on one socket does the I/O of `Handshake` and reports its completion and verdict |
| `Control.Controller.Password` | 21.09.02/main.cpp:112-121 | the password struct holds the unlock key EF CD AB 89 67 45 23 01 |
| `Control.Controller.CommandMove` | 21.09.02/main.cpp:190-194 | a move struct holds the packed command word's four bytes as its payload |
| `Control.Controller.SendBoth` | 21.09.02/main.cpp:196-202 | the I/O of `move` and `stop` is `Lockstep` on m_sockets[0] and m_sockets[1] with the sealed frames |
| `Control.Controller.Move` | 21.09.02/main.cpp:144-203 | `move` does the I/O of `MoveRun`: nothing for an ignored character, otherwise the two lockstep exchanges |
| `Control.Controller.Stop` | 21.09.02/main.cpp:205-235 | `stop` does the I/O of `StopRun` |

## Left out

- Socket creation, `connect` and the `io_service` are left out. Connections are indices into a `Network` whose per-connection input is a parameter. A failed `connect` is not modelled.
- Console output (the constructor's messages, `print_data`, `main`'s prompt) is left out. The constructor's "ready" or "failed to login" message is kept as the recorded verdict `loggedIn`.
- `main`, `system("chcp 1251")` and `system("pause")` are not part of this model. The command loop in `main` only calls `move` and `stop`.
- `sockets()` is a plain accessor. The `sockets` field stands for it.
- `m_command_id` is never read or written by the controller, so it is not modelled.
- Exceptions are not modelled as control flow. A short read stands for any boost::asio exception: it consumes nothing and sets `failed`. Calls after that are not modelled: `Move` and `Stop` require `!failed`, because the exception leaves the controller's scope in `main`.
- A partial read and the time a read blocks are not modelled. Neither are writes that fail.
- Every endpoint is assumed to be a connection of its own (`Distinct`). Two sockets opened by the constructor are always distinct connections.
- Control.Controller.Move: the default argument `speed = 0` of `move` is dropped; the method always takes the speed explicitly. A call without a speed is `Move(direction, 0)`.
- `Move` and `Stop` require at least two sockets. The source indexes `m_sockets[0]` and `m_sockets[1]` unchecked.
- `Receive` requires `length <= 1024`, the size of its stack buffer. The callers pass 6 and 13.
- Struct padding is represented by the size constants. No memory layout is modelled.
- The compiler's bit-field order is taken to be least significant first, on a little-endian machine.
