# Vintage Story A2S query responder — verified model

The server mod answers the Source engine "A2S" server-query protocol over UDP. Server browsers can then see a Vintage Story server's name, map, player list and rules. This project models the responder in `src/SrcdsEmulator.cs` in five modules:

- `Wire` (wire.dfy): the byte-level vocabulary. This covers bytes, C#'s 32-bit `int` with unchecked wrap-around, little-endian `BitConverter` reads and writes, NUL-terminated string fields, and host text as ASCII. Every encoder has a client-side reader beside it, so that encoders can be stated as round trips.
- `Framing` (framing.dfy): how one payload becomes datagrams. A payload of up to `MAX_PAYLOAD_SIZE` (1248) bytes goes out as one datagram behind the `FF FF FF FF` header. A larger payload goes out as a run of fragments behind `FF FF FF FE`, each carrying the transfer id, the fragment count, the fragment index and the chunk size 1248. `Frame` specifies the datagrams. `Reassemble` is a client's reading of them.
- `Responses` (responses.dfy): the payloads built from a snapshot (`Host`) of the game server:
  - the challenge reply `41 'V' 'S' 'D' 'S'`;
  - the empty rules reply `45 00`;
  - the info reply, including the world-name trim that can throw;
  - the player list.

  `BuildInfoResponse` and `BuildPlayersResponse` write the payloads field by field, as the source does, and are proved equal to the layout functions `EncodeInfo` and `PlayersPayload`. Client decoders `DecodeInfo` and `DecodePlayers` are proved to read the host's values back.
- `Dispatch` (dispatch.dfy): `HandleRequest`'s decision about one datagram: drop it, hand out the challenge, or answer an info, player or rules query. `Classify` is stated byte by byte, in both directions.
- `Emulator` (emulator.dfy): the class `ServerEmulator` with the process-wide `packetId` counter, and the methods:
  - `Send`: the single-datagram buffer, then the fragment loop, then the increment;
  - `SendChallenge`, `SendInfoResponse`, `SendPlayersResponse`;
  - `HandleRequest`.

  Each is proved against `Frame` and against the answer function `AnswerTo`. Four lemmas connect a request to what a client decodes from the datagrams it receives.

Sending is modelled by returning, in order, the datagrams that would be handed to the socket. The snapshot `Host` stands for what the source reads from the server API:

- the configured server name;
- the current world name;
- the online players;
- the maximum number of clients;
- the dedicated flag;
- whether a password is set;
- the game version;
- the platform that `Environment.OSVersion` reports.

Where the documented design of the responder and its code differ, the model follows the code:

- The transfer id wraps from `int.MaxValue` to `int.MinValue` (`Inc32`). It does not strictly increase forever.
- A world name with no full stop after its last path separator makes `Substring` throw. This is modelled as an info request answered with a fault: no datagram is sent and `packetId` is unchanged (`AnswerTo` gives `Fault`, and `HandleRequest` reports `faulted`).

## Model

| member | source | states |
|---|---|---|
| Wire.Int32Bytes | src/SrcdsEmulator.cs:142 | `BitConverter.GetBytes(int)` gives 4 bytes that read back, as a little-endian `int`, to the value written |
| Wire.ToInt32Injective | src/SrcdsEmulator.cs:77 | two 4-byte words read as the same `int` exactly when they are equal, so the `int` header and challenge comparisons are byte comparisons |
| Wire.Int32BytesOfToInt32 | src/SrcdsEmulator.cs:95 | every 4-byte word is the encoding of the value it reads as |
| Wire.Inc32 | src/SrcdsEmulator.cs:152 | `packetId++` adds one to the bit pattern modulo 2^32 (`int.MaxValue` wraps to `int.MinValue`) |
| Wire.IncNUnsigned | src/SrcdsEmulator.cs:152 | `k` increments add `k` to the bit pattern modulo 2^32 |
| Wire.IncNDistinct | src/SrcdsEmulator.cs:142-152 | fewer than 2^32 increments apart, two values of the counter put different transfer-id bytes on the wire |
| Wire.ModDistinct | src/SrcdsEmulator.cs:152 | two integers less than 2^32 apart have different residues modulo 2^32 (the arithmetic step of IncNDistinct) |
| Wire.AsciiNulFree | src/SrcdsEmulator.cs:170 | the ASCII bytes of a text without NUL contain no 0 byte |
| Wire.ReadCStringOf | src/SrcdsEmulator.cs:170 | a field `s + NUL` written before any bytes reads back as `s`, leaving those bytes, when `s` has no 0 byte |
| Wire.ReadCStringNone | src/SrcdsEmulator.cs:170 | bytes without a NUL hold no string field |
| Wire.ReadCStringText | src/SrcdsEmulator.cs:177 | a NUL-free text written as `encoding.GetBytes(s + "\0")` reads back as its ASCII bytes |
| Framing.FragmentCountBounds | src/SrcdsEmulator.cs:138-146 | every fragment index below the count starts inside the payload (`i * 1248 < length`) |
| Framing.SingleDatagram | src/SrcdsEmulator.cs:129-135 | a payload of at most 1248 bytes is sent as exactly one datagram: `FF FF FF FF` followed by the payload |
| Framing.SplitDatagrams | src/SrcdsEmulator.cs:138-150 | a larger payload (up to 255 fragments) goes out as `ceil(len/1248)` ≥ 2 fragments in index order, each with the split header, the transfer id, the count, its index and the chunk size; all but the last carry 1248 payload bytes and the last carries the remainder |
| Framing.OversizedPayloadTruncated | src/SrcdsEmulator.cs:138-139 | past 255 fragments the `(byte)` fragment count wraps, so fewer fragments are sent than the payload needs |
| Framing.FragmentAt | src/SrcdsEmulator.cs:146 | the body of fragment `i` is the payload slice `[i*1248, i*1248 + min(1248, len - i*1248))` |
| Framing.FragmentFields | src/SrcdsEmulator.cs:141-146 | fragment `i` is, in write order, `FF FF FF FE`, the transfer id, the count, `i`, the 2-byte chunk size and slice `i` |
| Framing.BodiesOfSlices | src/SrcdsEmulator.cs:139-150 | concatenating the bodies of the first `k` fragments gives the first `min(k*1248, len)` payload bytes |
| Framing.FrameReassembles | src/SrcdsEmulator.cs:126-153 | for every payload that fits in 255 fragments, and every transfer id, reassembling the datagrams gives back the payload |
| Responses.LastIndexOfAny | src/SrcdsEmulator.cs:174-175 | the result is -1 or a position holding one of the characters, and no such character follows it |
| Responses.TrimWorldName | src/SrcdsEmulator.cs:173-176 | the trimmed map name holds only characters of the world name and no path separator |
| Responses.TrimWorldNameFails | src/SrcdsEmulator.cs:176 | `Substring` throws exactly when every full stop in the world name has a path separator after it (including when there is no full stop) |
| Responses.TrimWorldNameOf | src/SrcdsEmulator.cs:173-177 | `dir/base.ext`, with a separator-free `base` and an extension without separator or full stop, is trimmed to `base` |
| Responses.EncodeInfoNested | src/SrcdsEmulator.cs:166-223 | the info reply's fields, in write order, regrouped the way a reader consumes them |
| Responses.DecodeInfoOf | src/SrcdsEmulator.cs:166-223 | a client reading a reply built from NUL-free string fields and the nine fixed bytes recovers each field |
| Responses.InfoRoundTrip | src/SrcdsEmulator.cs:164-227 | a client decoding the info reply reads back every field: protocol, name, map, folder, game, app id, counts, server type, environment, visibility, VAC flag and version |
| Responses.BuildInfoResponse | src/SrcdsEmulator.cs:164-227 | building the info reply fails exactly when the world-name trim throws; otherwise it is the info layout for the host, with `(byte)`-cast counts, `'d'`/`'l'`, `'o'`/`'l'`/`'w'` and the password flag, and a client decodes the host's values from it |
| Responses.PlayerRecordsAppend | src/SrcdsEmulator.cs:235-245 | one more loop iteration appends exactly that player's record |
| Responses.PlayerRecordsLength | src/SrcdsEmulator.cs:235-245 | each player record takes its name length plus 10 bytes |
| Responses.DecodeRecordsCons | src/SrcdsEmulator.cs:236-244 | a record (index, NUL-free name, 4-byte score, 4-byte duration) is read off the front, then the rest |
| Responses.PlayerRecordNested | src/SrcdsEmulator.cs:236-244 | a record written field by field, regrouped as a reader consumes it |
| Responses.EntriesOfCons | src/SrcdsEmulator.cs:235-236 | the expected entries begin with the first player under index `first` |
| Responses.RecordsRoundTrip | src/SrcdsEmulator.cs:235-245 | decoding the records of NUL-free player names gives each player in order, with its index, name, score 0 and duration field |
| Responses.DecodePlayersOf | src/SrcdsEmulator.cs:233 | the count byte after the type byte says how many records the client decodes |
| Responses.PlayersRoundTrip | src/SrcdsEmulator.cs:229-249 | with fewer than 256 players, a client decodes every online player in order, numbered from 0 |
| Responses.BuildPlayersResponse | src/SrcdsEmulator.cs:229-249 | the payload is the type byte, the `(byte)` player count and every record in order; its length is 2 plus name lengths plus 10 per player; it decodes to the players |
| Dispatch.Classify | src/SrcdsEmulator.cs:72-124 | an info query is exactly a 25-byte datagram `FF FF FF FF 54 "Source Engine Query\0"`; a challenge request is exactly a 9-byte player or rules request carrying -1; a player or rules query is exactly 9 bytes carrying `'V' 'S' 'D' 'S'`; everything else gets no reply |
| Dispatch.MalformedIgnored | src/SrcdsEmulator.cs:76-79 | datagrams shorter than 9 bytes, without the -1 header, or with an unknown type byte get no reply |
| Emulator.ChallengeReply | src/SrcdsEmulator.cs:155-162 | a challenge request is answered by the single datagram `FF FF FF FF 41 56 53 44 53` and leaves the transfer id alone |
| Emulator.RulesReply | src/SrcdsEmulator.cs:116-119 | an authorised rules request is answered by the single datagram `FF FF FF FF 45 00` |
| Emulator.InfoReplyReadable | src/SrcdsEmulator.cs:81-89 | an info request faults exactly when the trim throws; otherwise a client reassembling and decoding the reply reads the host's info fields |
| Emulator.PlayersReplyReadable | src/SrcdsEmulator.cs:91-103 | a client reassembling and decoding the reply to an authorised player request reads every online player in order |
| Emulator.ServerEmulator.constructor | src/SrcdsEmulator.cs:55 | the transfer id starts at 0 |
| Emulator.ServerEmulator.Send | src/SrcdsEmulator.cs:126-153 | the datagrams sent are `Frame(data, packetId)`; the counter advances by one (with wrap) exactly when the payload is split |
| Emulator.ServerEmulator.SendChallenge | src/SrcdsEmulator.cs:155-162 | sends the framed challenge payload and does not touch the counter |
| Emulator.ServerEmulator.SendInfoResponse | src/SrcdsEmulator.cs:164-227 | sends nothing, with the counter unchanged, exactly when the trim throws; otherwise sends the framed info reply and advances the counter as `Send` does |
| Emulator.ServerEmulator.SendPlayersResponse | src/SrcdsEmulator.cs:229-249 | sends the framed player reply and advances the counter as `Send` does |
| Emulator.ServerEmulator.HandleRequest | src/SrcdsEmulator.cs:72-124 | a datagram classified as dropped sends nothing and leaves the counter; a challenge, info, player or rules query sends exactly the framed answer; the fault is reported exactly when the info trim throws |

## Left out

- The UDP socket, `StartListening` and its receive loop are I/O. Requests arrive as byte sequences, and replies are returned as the datagrams in sending order. Send failures and the endpoint are not modelled.
- A `Substring` exception in the real program escapes `HandleRequest` and ends the listening task, so no later request is answered. The model reports the fault and leaves what happens to the loop out.
- Host text is ASCII only. For such text `UTF8Encoding.GetBytes(s + "\0")`, cut to `s.Length + 1` bytes, is the string's bytes plus a NUL. For non-ASCII text the source cuts the UTF-8 bytes at the character count, which is not modelled.
- The info request body is compared with `encoding.GetString(...) != INFO_PAYLOAD`. It is modelled as a comparison of the 20 bytes with the ASCII bytes of `"Source Engine Query\0"`. UTF-8 decoding can give exactly that ASCII string only from exactly those bytes.
- The player duration is a float computed from `Environment.TickCount` and the join time stored under `DiscordRelay.JoinTime`. It is modelled as an already encoded 4-byte field per player. A player without a stored join time makes `BitConverter.ToInt32` throw on a null array; that path is not modelled.
- The values read from the server API, and the platform from `Environment.OSVersion`, are inputs (`Host`). On .NET Core the platform reported on macOS is `Unix`, so `'o'` is only produced where `MacOSX` is reported.
- Framing.WireFragmentCount: `(byte)Math.Ceiling((double)length / 1248)` is modelled as the integer ceiling reduced modulo 256. For lengths an array can have, the double ceiling is exact. Converting an out-of-range double to `byte` is unspecified in C#, and newer runtimes saturate, so past 255 fragments the model's wrap is one possible behaviour.
- Framing.FrameReassembles and the end-to-end lemmas are stated for payloads that fit in 255 fragments (318,240 bytes). Beyond that, `OversizedPayloadTruncated` gives the behaviour.
- Responses.PlayersRoundTrip is stated for fewer than 256 players, because the `(byte)` count and the index bytes wrap beyond that.
- `src/DiscordRelay.cs` (the chat relay and the join-time bookkeeping) is not part of this model.
