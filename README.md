# EnigmaIOT helper functions and MQTT output queue, in Dafny

This project models part of EnigmaIOT, an encrypted sensor network for
ESP8266/ESP32 boards. It covers two pieces.

The first is the byte and string helpers in `src/helperFunctions.cpp`:
- `calculateCRC32`: a bit-serial, MSB-first CRC-32 with polynomial
  0x04C11DB7, initial value 0xFFFFFFFF, no reflection and no final XOR. These
  are the parameters of CRC-32/MPEG-2, the `CRC_32` of Annex A of
  ISO/IEC 13818-1.
- `mac2str`: prints a six-byte MAC address as `XX:XX:XX:XX:XX:XX`.
- `str2mac`: walks a C string and parses it back into six bytes.
- `printHexBuffer`: renders a byte buffer as `"%02X "` triples in a static
  1000-character buffer.

The second is the declared contract of the MQTT gateway output module in
`examples/EnigmaIOTGatewayMQTT/GwOutput_mqtt.h`:
- its topic constants;
- the broker configuration record, with its buffer sizes and default ports;
- the outbound message queue, which the header documents as a FIFO of
  `{topic, payload, payload_len, retain}` records.

The project has five files:
- `clib.dfy` (module `CLib`): the C library pieces the helpers use, with their
  ASCII / "C" locale meanings. These are `uint8_t` as `bv8`, `tolower`,
  `isdigit`, `isspace`, `(unsigned char)` and `"%02X"`.
- `crc32.dfy` (module `Crc32`): `calculateCRC32` as a method with the
  source's two loops. It is proved equal to a left fold of a per-byte update,
  which is in turn proved equal to an independent byte-at-a-time reference.
  The catalogued check value is proved from that reference.
- `mac.dfy` (module `MacAddress`):
  - `mac2str` as a method on nullable arrays, specified by the pure text
    `MacToString`;
  - `str2mac` as a method that walks the string and writes `macBytes[i]` in
    place. It is specified by `Scan`, a function with the same branches.
  - `Scan` is tied to a grammar of well-formed texts in both directions, and
    both round trips with `mac2str` are proved.
- `hexdump.dfy` (module `HexBuffer`): `printHexBuffer` as a method that
  clears a 1000-character array and fills it triple by triple.
- `mqtt.dfy` (module `MqttOutput`):
  - the topic table, the configuration record and its defaults;
  - the queue as a class `MqttQueue` whose `seq` field the add and pop
    methods reassign;
  - FIFO order proved on the queue's value functions.

Where the C code reads a C string, the model holds it as a `string`. Reading
at or past its end gives `'\0'`, which is what the terminating NUL gives the
code. As the code does not read past the first NUL, this is the same
behaviour.

The model follows the code of `str2mac` where a plain description of it
would differ:
- After a two-digit last octet, nothing more is examined, so
  `"5C:CF:7F:80:A1:0Bxyz"` is accepted.
- After a one-digit last octet, the next character must be NUL or white
  space. Otherwise it is read as a second digit.
- Octets are written as they are read, so a failure part-way leaves the
  earlier octets in `macBytes`. `Str2Mac`'s contract states the whole new
  contents of the array.
- `str2mac` accepts one-digit octets and lower-case digits. `mac2str` never
  prints those.

## Model

| member | source | states |
|---|---|---|
| Crc32.CalculateCrc32 | src/helperFunctions.cpp:54-70 | the CRC of the first `length` bytes of `data` is `Crc(data[..length])`: the per-byte update folded over the bytes from 0xFFFFFFFF, with no final XOR |
| Crc32.FeedByte | src/helperFunctions.cpp:57-67 | the inner loop over masks 0x80 down to 0x01 gives `UpdateByte(crc, c)`; each bit's feedback is the old top bit XOR the input bit, with a shift and a conditional XOR of 0x04C11DB7 |
| Crc32.CrcConcat | src/helperFunctions.cpp:54-70 | the CRC is a left fold: the register after `a ++ b` is the register after `b` started from the register after `a` |
| Crc32.CrcAppendByte | src/helperFunctions.cpp:56-68 | one more byte applies one more byte update |
| Crc32.FeedFromIsFeedBits | src/helperFunctions.cpp:58-67 | the mask-driven inner loop feeds the byte's bits highest first |
| Crc32.FeedBitsMatchesShiftN | src/helperFunctions.cpp:58-67 | shifting the register with the unfed bits XORed into its top equals feeding the bits one at a time |
| Crc32.UpdateByteMatchesReference | src/helperFunctions.cpp:57-67 | the bit-serial byte update equals the byte-at-a-time MSB-first reference: XOR the byte into bits 31..24, then shift eight times |
| Crc32.CrcOfEmpty | src/helperFunctions.cpp:55-56 | with no bytes the result is 0xFFFFFFFF |
| Crc32.CrcOfZeroByte | src/helperFunctions.cpp:54-70 | the CRC of the single byte 0x00 is 0x4E08BFB4 |
| Crc32.CrcCheckValue | src/helperFunctions.cpp:54-70 | the CRC of "123456789" is 0x0376E6E7, the catalogued check value of CRC-32/MPEG-2 |
| CLib.Hex2 | src/helperFunctions.cpp:73 | `"%02X"` of a byte is two upper-case hex digits whose values, read back, spell the byte, high digit first |
| CLib.Hex2OfDigits | src/helperFunctions.cpp:73 | `"%02X"` of the byte two upper-case digits spell prints those same digits |
| CLib.Hex2Examples | src/helperFunctions.cpp:73 | `"%02X"` pads with a leading zero and prints upper case: 0x5C, 0x0B and 0xFF print as "5C", "0B" and "FF" |
| CLib.ToLower | src/helperFunctions.cpp:94-106 | `tolower` in the "C" locale changes exactly the upper-case letters, each to the lower-case letter in the same place, so no upper-case letter is left; the result is a lower-case hex digit exactly when the character was a hex digit of either case |
| CLib.IsDigit | src/helperFunctions.cpp:105 | a decimal digit is not ':', not NUL and not an upper-case letter |
| CLib.IsSpace | src/helperFunctions.cpp:109 | white space is not a hex digit of either case, not ':' and not NUL, so it can only end the last octet |
| CLib.LowerHexValue | src/helperFunctions.cpp:119 | the value of a lower-case hex digit is below 16, and below 10 exactly when the digit is decimal |
| CLib.ByteOfValueInverse | src/helperFunctions.cpp:128 | the `(unsigned char)` cast of a value below 256 keeps the value |
| MacAddress.JoinChars | src/helperFunctions.cpp:73 | n two-character groups joined with ':' give 3n - 1 characters, with group k at 3k and 3k + 1 and ':' at 3k + 2 |
| MacAddress.MacToString | src/helperFunctions.cpp:73-78 | the text `MACSTR` prints for six bytes has exactly 17 characters |
| MacAddress.MacToStringShape | src/helperFunctions.cpp:73-78 | that text is canonical (':' at 2, 5, 8, 11 and 14, upper-case hex elsewhere), and byte k is printed at 3k..3k+2 |
| MacAddress.Mac2Str | src/helperFunctions.cpp:75-83 | NULL and no write when `mac` or `buffer` is null; otherwise `buffer` is returned and holds the 17 characters and a NUL, and nothing after them changes |
| MacAddress.OctetEnds | src/helperFunctions.cpp:108-109 | only octets 0 to 5 read a second character; a hex digit there always continues the octet, and an octet ends after one digit only at ':', NUL or white space |
| MacAddress.Scan | src/helperFunctions.cpp:89-131 | from each octet on: the stored bytes never exceed six, and success is exactly having stored six |
| MacAddress.ScanKeepsStored | src/helperFunctions.cpp:127-128 | octets already stored are kept whatever happens later: they are a prefix of the final stored bytes |
| MacAddress.ParseMac | src/helperFunctions.cpp:85-133 | at most six bytes are stored, and the text is accepted exactly when all six are |
| MacAddress.ScanPartial | src/helperFunctions.cpp:89-131 | from any octet on: fewer than six well-formed octets, each followed by ':', then a character that is not a hex digit, make the scan fail there with those octets' bytes stored |
| MacAddress.ParseMacPartial | src/helperFunctions.cpp:94-128 | a text whose first octets are well formed but whose next octet does not start with a hex digit is refused, and the first octets' bytes are stored, so `Str2Mac` leaves them written in `macBytes` |
| MacAddress.ReadOctet | src/helperFunctions.cpp:94-126 | one octet as the loop body reads it; a NULL return is a failed Scan step that keeps what was stored, otherwise the value is below 256 and Scan continues after the separator with the octet stored |
| MacAddress.Str2Mac | src/helperFunctions.cpp:85-133 | returns `macBytes` when the text is accepted and NULL otherwise; in both cases `macBytes` holds the stored bytes followed by its old contents |
| MacAddress.ScanAccepts | src/helperFunctions.cpp:89-131 | completeness from any octet on: well-formed remaining octets are accepted and their values stored |
| MacAddress.ParseMacAccepts | src/helperFunctions.cpp:85-133 | every well-formed text is accepted: six octets of one or two hex digits of either case, ':' between them, and after a one-digit last octet NUL or white space. The stored bytes are the octets' values |
| MacAddress.ScanSound | src/helperFunctions.cpp:89-131 | soundness from any octet on: an accepted remainder splits into well-formed octets, and the stored bytes are theirs |
| MacAddress.ParseMacSound | src/helperFunctions.cpp:85-133 | every accepted text is a well-formed text followed by anything its last octet allows, and the bytes stored are the octets' values |
| MacAddress.AcceptedOctet | src/helperFunctions.cpp:94-130 | an accepted octet has one or two hex digits, is followed by ':' unless it is the last, and the last one ends as the grammar says |
| MacAddress.SoundTwoDigits | src/helperFunctions.cpp:106-125 | a second digit is read and must be hex; before the last octet a ':' must follow it |
| MacAddress.SoundOneDigit | src/helperFunctions.cpp:106-109 | a one-digit octet is followed by ':' or, for the last octet, by NUL or white space |
| MacAddress.MacRoundTrip | src/helperFunctions.cpp:73-133 | `str2mac(mac2str(m))` succeeds and stores `m`, whatever text follows |
| MacAddress.MacToStringInjective | src/helperFunctions.cpp:73-78 | different addresses print differently |
| MacAddress.CanonicalParses | src/helperFunctions.cpp:85-133 | a canonical 17-character text is accepted |
| MacAddress.CanonicalRoundTrip | src/helperFunctions.cpp:73-133 | for a canonical text `s`, `str2mac` accepts it and printing the stored bytes gives `s` back |
| MacAddress.ParseMacRejectsDashes | src/helperFunctions.cpp:122-125 | a '-' separator is refused at the first octet and nothing is stored |
| HexBuffer.Zeros | src/helperFunctions.cpp:21 | `memset` of n characters leaves a text of length n |
| HexBuffer.ZerosAreNul | src/helperFunctions.cpp:21 | every character `memset` to 0 leaves is NUL |
| HexBuffer.PrintedCount | src/helperFunctions.cpp:23-27 | the number of bytes printed is `len` or 333, whichever is smaller |
| HexBuffer.HexTriples | src/helperFunctions.cpp:25 | three characters per byte |
| HexBuffer.PrintTriple | src/helperFunctions.cpp:25 | `sprintf(.., "%02X ", b)` writes two digits, a space and a NUL at the position and returns 3 |
| HexBuffer.PrintHexBuffer | src/helperFunctions.cpp:17-29 | the buffer holds the triples of the first `min(len, 333)` bytes followed by NULs up to 1000 characters |
| HexBuffer.HexTriplesAt | src/helperFunctions.cpp:25 | byte k is printed at 3k..3k+3 as its two digits and a space |
| HexBuffer.HexTriplesDecode | src/helperFunctions.cpp:25 | reading the two digits printed for byte k gives the byte back |
| HexBuffer.HexTriplesNoNul | src/helperFunctions.cpp:25 | the printed triples hold no NUL |
| HexBuffer.PrintedString | src/helperFunctions.cpp:17-29 | the text is NUL-terminated at 3n, with no NUL before it, for n printed bytes |
| MqttOutput.CommandTopicsArePrefixed | examples/EnigmaIOTGatewayMQTT/GwOutput_mqtt.h:34-47 | every command topic is "get/" or "set/" followed by a non-empty name |
| MqttOutput.AnswerTopicsMirrorCommands | examples/EnigmaIOTGatewayMQTT/GwOutput_mqtt.h:34-45 | each answer topic is "result/" followed by its command's name; set/sleeptime has the same answer topic as get/sleeptime |
| MqttOutput.TopicsDistinct | examples/EnigmaIOTGatewayMQTT/GwOutput_mqtt.h:34-51 | the topic names are pairwise distinct |
| MqttOutput.GatewayStatusIsSuffix | examples/EnigmaIOTGatewayMQTT/GwOutput_mqtt.h:48-51 | the gateway status topic alone begins with '/', so it is appended directly to the network name |
| MqttOutput.DefaultPort | examples/EnigmaIOTGatewayMQTT/GwOutput_mqtt.h:57-61 | the default broker port is 8883 exactly when built with SECURE_MQTT and 1883 exactly when not |
| MqttOutput.DefaultConfig | examples/EnigmaIOTGatewayMQTT/GwOutput_mqtt.h:55-64 | the initial configuration fits its arrays and carries the default port |
| MqttOutput.ConfigCapacities | examples/EnigmaIOTGatewayMQTT/GwOutput_mqtt.h:55-64 | the server, user and password fields hold at most 40, 20 and 40 characters plus a NUL |
| MqttOutput.MakeItem | examples/EnigmaIOTGatewayMQTT/GwOutput_mqtt.h:66-71 | a queued record carries the topic, the first `len` payload characters with `payload_len == len`, and the retain flag, unchanged |
| MqttOutput.Enqueue | examples/EnigmaIOTGatewayMQTT/GwOutput_mqtt.h:116-123 | adding keeps the queue and puts the record at the tail |
| MqttOutput.Dequeue | examples/EnigmaIOTGatewayMQTT/GwOutput_mqtt.h:131-134 | removing drops the head and keeps the rest in order |
| MqttOutput.FrontOfSingle | examples/EnigmaIOTGatewayMQTT/GwOutput_mqtt.h:116-129 | a record added to an empty queue is the next one read |
| MqttOutput.EnqueueKeepsFront | examples/EnigmaIOTGatewayMQTT/GwOutput_mqtt.h:116-129 | adding to a non-empty queue leaves the next record to be read unchanged |
| MqttOutput.EnqueueDequeueCommute | examples/EnigmaIOTGatewayMQTT/GwOutput_mqtt.h:116-134 | on a non-empty queue, adding and then removing equals removing and then adding |
| MqttOutput.FifoOrder | examples/EnigmaIOTGatewayMQTT/GwOutput_mqtt.h:81 | draining the queue by get and pop yields the waiting records, then the added ones, in the order they were added |
| MqttOutput.MqttQueue.constructor | examples/EnigmaIOTGatewayMQTT/GwOutput_mqtt.h:81 | the queue starts empty |
| MqttOutput.MqttQueue.AddMqttQueue | examples/EnigmaIOTGatewayMQTT/GwOutput_mqtt.h:116-123 | when the record can be stored, it is appended at the tail and true is returned; otherwise the queue is unchanged and false is returned. `retain` defaults to false |
| MqttOutput.MqttQueue.GetMqttQueue | examples/EnigmaIOTGatewayMQTT/GwOutput_mqtt.h:125-129 | returns the head record and leaves the queue as it is |
| MqttOutput.MqttQueue.PopMqttQueue | examples/EnigmaIOTGatewayMQTT/GwOutput_mqtt.h:131-134 | removes exactly the head record and keeps the rest in order |

## Left out

- `initWiFi` (src/helperFunctions.cpp:31-52): radio bring-up through the WiFi SDK, which is pure I/O.
- The MQTT session is not modelled, for two reasons: those method bodies are not in the header, and they do network, TLS and clock I/O. This covers:
  - `reconnect` and `setClock`/NTP;
  - `publishMQTT`'s use of the MQTT client, although its `retain` default of false is the same as `addMQTTqueue`'s;
  - `onDlData`, `begin` and `loop`.
- Not modelled: the configuration portal and persistence. That is the configuration-portal fields, `loadConfig`/`saveConfig` to `/mqtt.json` (only the file name is a constant here), and `configManagerStart`/`configManagerExit`.
- The topics built inside `outputDataSend`, `outputControlSend`, `newNodeSend` and `nodeDisconnectedSend`: their bodies are not in the header, so only the constants are modelled.
- MqttOutput.MqttQueue.AddMqttQueue: its body is not in the header. Whether the record can be stored, which may fail on a failed heap copy, is the parameter `canStore`. Records are kept by value, so heap copies, `delete` and object identity are not modelled.
- MqttOutput.MqttQueue.GetMqttQueue and PopMqttQueue require a non-empty queue: `front` and `pop` of an empty `std::queue` are undefined.
- HexBuffer.PrintHexBuffer: the buffer is a fresh array whose contents are returned. The identity of the static buffer, and the fact that a later call overwrites an earlier result (non-reentrancy), are not captured.
  - It takes the bytes as a sequence holding at least the printed ones. The unprinted bytes are never read.
- HexBuffer.PrintTriple and Crc32.FeedByte are separate methods. `sprintf`'s write is one call, and the inner `for` loop of `calculateCRC32` is its own loop over one byte.
- MacAddress.ReadOctet: the loop body of `str2mac` up to the store is a method of its own. `Str2Mac` calls it once per octet and then does the store and the separator skip itself, as the loop does.
- MacAddress.Str2Mac takes the text as a `string` read from its start. The position where its reading stops is not a result.
- Not modelled: characters outside ASCII.
  - `tolower` and `isspace` keep their "C" locale meanings.
  - A `char` with its top bit set, which is negative on signed-char targets, is simply a character that is not a hex digit.
- MacAddress.Mac2Str reads the six bytes before it writes, as the C call does. An `array<uint8>` and an `array<char>` cannot be the same object, so the case where `mac` and `buffer` overlap does not arise in the model.
- `MAC2STR(mac)` is taken to expand to `mac[0]` … `mac[5]` in order.
- Concrete parses of whole example texts are stated only through the general lemmas, apart from `ParseMacRejectsDashes`. For example, a partial write before a rejected octet is stated by `ParseMacPartial` together with `Str2Mac`'s ensures.
