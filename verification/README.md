# whatsapp-rs core, modelled in Dafny

This project models the core of whatsapp-rs, a WhatsApp multi-device client written in Rust. It proves properties of that model.

The model covers five layers:

- **The binary node codec.**
  - `NodeEncoder` and `NodeDecoder` carry `Node` values over WhatsApp's tagged binary format: token tables, packed nibble and hex strings, length classes, identity pairs and companion identities.
  - Frame codecs put a length header on what travels over the websocket: `encode_frame`/`decode_frame` for nodes, `message::codec` for the handshake. As written, the encoder's header is six bytes (a 32-bit and a 16-bit field) and the decoder reads three-byte headers whose first byte it drops; the corrected revision uses a three-byte, 24-bit length on both sides.
- **Identities.** `ContactJid` and `Server`: server recognition from an address, `from_complex` and `from_companion`.
- **The session.**
  - The `SessionStore`: traffic keys, the two `u64` nonce counters, the companion, and sealing and opening with AES-GCM.
  - `Session::encode`/`decode`, the composition of codec, cipher and framing.
- **The Noise XX login handshake**, in both of the repository's generations (`handshake.rs` and `binary/handshake.rs`).
  - The transcript operations: `rehash`, `mix`, `encrypt`, `decrypt` and `finish`.
  - The exact order of `AuthHandler::login`: three Diffie-Hellman mixes, four AES-GCM calls, and a finish frame sent only when every step succeeded.
  - Key pairs with their exchange history, signed key pairs, credentials and the ADV device-identity message.
- **The websocket clients**, in both generations.
  - The newer `WebSocketClient`/`Stream`: the states Hello, Handshake, Connected, Reconnect and Closed; `connect`, `close`, `send` and `query`; `send_hello` and `login`; `process`; and the digest of `iq`, `success`, `stream:error` and `xmlstreamend` nodes, including the pairing exchange (`pair-device` and `pair-success`).
  - The older `client::stream::Stream`: the states Hello, Handshake and Iq, and its first-reply digest.
  - The app version that `protobuf/version.rs` parses.

Everything the core delegates to a library is a parameter: SHA-256, HKDF, AES-GCM, X25519, HMAC, signatures, protobuf, DEFLATE and the token tables. A property that needs one of them assumes only what a named predicate states. Examples are `Crypto.AeadSound` (opening undoes sealing) and `Tokens.Valid` (the table sizes the decoder relies on).

The node codec is modelled twice, selected by `Revision`.

- **`AsWritten`** is the encoder and decoder with the widths, length classes and tags the repository's code uses. The places where the two sides disagree are listed under Findings.
- **`Corrected`** is what the decoder evidently expects. The round trip `decode(encode(n)) == n` is proved for it on every canonical node. The session, login and connection layers use it, so what they promise about bytes on the wire is about the corrected three-byte framing and decoder; each such member is listed under Left out.

The map iteration order of `HashMap` is a ghost choice, `Nodes.Keys`. The encoder is therefore a `ghost function`, and so is every connection operation that encodes.

Where the repository's files disagree with each other, the model follows the code that the calling layer runs:
- `AuthHandler::create_login`, which `stream.rs` calls, is the handshake of `auth.rs` run over the newer `binary/handshake.rs` transcript. It is `Auth.CreateLogin`.
- `message::codec::encode_frame`, which `auth.rs` calls, is `Frame.EncodeMessage`.
- `NodeCodec::encode`/`decode` is `transpose`.
- `Credentials::default` passes `SignedKeypair::new` the identity public key, where `keypair.rs` expects the key pair. The model passes the key pair.
- `write_node` calls `Node::has_content` and `Node::content_as_value` (encoder.rs:50-51), which `node.rs` does not define. The model reads them as "the content is not null" and "the content value itself".

## Model

| member | source | states |
|---|---|---|
| Tag.Classify | whatsapp-util/src/binary/codec/decoder.rs:48-55 | a tag byte is a dictionary tag exactly in 236..239, with quadrant tag − 236; a single-byte token exactly in 1..235 and 240..246, at index tag − 1; so decoding dispatches unambiguously |
| Tag.DictionaryTag | whatsapp-util/src/binary/codec/encoder.rs:216-224 | the tag the encoder picks for quadrant q is classified back as quadrant q |
| Tag.ClassifyNamedTags | whatsapp-util/src/message/tag.rs:13-32 | every named tag (LIST_EMPTY = 0 included) is recognised as itself: the named values are pairwise distinct |
| Tokens.IndexOf | whatsapp-util/src/binary/codec/encoder.rs:89-92 | `position` finds the first occurrence: the entry there is the token and none before it is |
| Nodes.New | whatsapp-util/src/binary/node.rs:26-36 | `Node::new` stores description, attributes and content unchanged and `description()` returns the stored one |
| Nodes.FromAttributes | whatsapp-util/src/binary/node.rs:38-47 | a node built from attributes has null content, so its size is odd |
| Nodes.Size | whatsapp-util/src/binary/node.rs:88-90 | size is at least 1, odd exactly when the content is null, and (size − 1)/2 counts the attributes |
| Nodes.Id | whatsapp-util/src/binary/node.rs:92-94 | `id()` of a node is always its description, never None |
| Nodes.ContentText | whatsapp-util/src/binary/node.rs:96-101 | `content::<&str>()` is present exactly when the content is a string |
| Nodes.ToValue | whatsapp-util/src/binary/node.rs:123-137 | the serde form of a node is an object with exactly the keys description, attributes and content |
| Nodes.FromValue | whatsapp-util/src/binary/node.rs:4-9 | deserialising succeeds exactly on the two forms serde's derived `Deserialize` accepts: an object carrying the three node fields with the right shapes, or an array of exactly three elements, a string, an object and any value, in field order |
| Nodes.FromToValue | whatsapp-util/src/binary/node.rs:123-137 | deserialising a serialised node gives the node back |
| Nodes.ToFromValue | whatsapp-util/src/binary/node.rs:123-137 | serialising a deserialised object keeps exactly its three node fields (serde drops unknown keys); a deserialised array comes back as the object of its three elements |
| Nodes.ArrayFormFields | whatsapp-util/src/binary/node.rs:4-9 | a node read from its array form is the node read from the object holding the same three elements |
| Nodes.ValueSize | whatsapp-util/src/binary/node.rs:109-112 | the size of a serialised node is defined exactly when its attributes are an object (`unwrap` panics otherwise) |
| Nodes.ValueSizeOfNode | whatsapp-util/src/binary/node.rs:88-90 | a node and its serde form report the same size |
| Nodes.ValueDescription | whatsapp-util/src/binary/node.rs:105-107 | a serialised node's description is its "description" string, or "" when that is not a string |
| Nodes.Iter | whatsapp-util/src/binary/node.rs:139-149 | iteration starts inclusive at the node's own content |
| Nodes.Next | whatsapp-util/src/binary/node.rs:151-161 | the first `next` yields the content itself; every later call yields its "content" field without advancing |
| Nodes.NextIsStationary | whatsapp-util/src/binary/node.rs:151-161 | after the first item the iterator never changes, so every further `next` gives the same answer |
| Nodes.Children | whatsapp-util/src/binary/node.rs:49-51 | `children()` ends (with the content as its only element) exactly when the content has no "content" field; otherwise the iterator never ends |
| Nodes.FindByDescription | whatsapp-util/src/binary/node.rs:60-62 | `find` returns some element exactly when one has that description, and then the first such |
| Nodes.FindDescription | whatsapp-util/src/binary/node.rs:57-75 | an array content is searched by description; a string content equal to the description is returned; otherwise the iteration continues into "content" |
| Nodes.InsertAllKeys | whatsapp-util/src/binary/codec/decoder.rs:57-69 | inserting every key of a map in any order that lists each key once rebuilds the map |
| Encoder.WriteSize | whatsapp-util/src/binary/codec/encoder.rs:62-78 | a size below 256 is LIST_EIGHT and one byte; below 65536 it is LIST_SIXTEEN (as written only the low byte follows, corrected the two big-endian bytes); 65536 or more is an error |
| Encoder.WriteLength | whatsapp-util/src/binary/codec/encoder.rs:5-5 | as written never fails: BINARY_EIGHT below 256, BINARY_TWENTY with three big-endian bytes up to the 20-bit limit, BINARY_THIRTY_TWO above |
| Encoder.CodePoint | whatsapp-util/src/binary/codec/encoder.rs:253-263 | a character has a four-bit code exactly when it is a digit, or '-'/'.' under NIBBLE_EIGHT; every other character is an error |
| Encoder.PackedHeader | whatsapp-util/src/binary/codec/encoder.rs:265-273 | the header's low seven bits are ceil(n/2) and its top bit is set exactly when n is odd |
| Encoder.Pack | whatsapp-util/src/binary/codec/encoder.rs:226-251 | a string of the packing alphabet packs into ceil(n/2) bytes |
| Encoder.WriteStringToken | whatsapp-util/src/binary/codec/encoder.rs:226-251 | the packing tag, the header, then ceil(n/2) packed bytes; succeeds on every string of the alphabet |
| Encoder.WriteString | whatsapp-util/src/binary/codec/encoder.rs:81-115 | the forms in priority order: the empty string is [BINARY_EIGHT, LIST_EMPTY]; a single-byte token is its index + 1; a dictionary word is its quadrant tag and index |
| Encoder.WriteDictionary | whatsapp-util/src/binary/codec/encoder.rs:203-224 | two bytes whose quadrant and index recombine to the word's position in DOUBLE_BYTE |
| Encoder.WritePackedOrRaw | whatsapp-util/src/binary/codec/encoder.rs:98-114 | under 128 bytes a nibble string is nibble-packed, else a hex string is hex-packed; anything else is length-prefixed raw UTF-8 |
| Encoder.WriteBytes | whatsapp-util/src/binary/codec/encoder.rs:198-201 | a length prefix, then exactly the bytes |
| Encoder.WriteJid | whatsapp-util/src/binary/codec/encoder.rs:140-156 | a companion is COMPANION_JID, agent and device bytes, then the user; otherwise JID_PAIR, then LIST_EMPTY when the user is empty |
| Encoder.ToByteVector | whatsapp-util/src/binary/codec/encoder.rs:169-171 | an all-number array converts to bytes exactly when every number fits in a byte, element for element |
| Encoder.WriteValue | whatsapp-util/src/binary/codec/encoder.rs:158-179 | null is LIST_EMPTY; a boolean is written as the string "true" or "false", a number as its decimal text and a string by `write_string`; an array of numbers is written as a byte string when every number fits in a byte and is a serde error otherwise; an array that is not all numbers and holds an element that deserialises to no node, in either serde form, is a serde error, whatever the list's size; an object is written as its key/value pairs |
| Encoder.WriteNodeObject | whatsapp-util/src/binary/codec/encoder.rs:36-60 | a node described "0" is exactly [LIST_EIGHT, LIST_EMPTY]; any other node that encodes starts with a list tag and has a size below 65536 |
| Encoder.WriteContent | whatsapp-util/src/binary/codec/encoder.rs:50-57 | null content writes nothing; object content is first wrapped into a one-element list |
| Encoder.WriteContentOf | whatsapp-util/src/binary/codec/encoder.rs:50-57 | null content writes nothing; an object that is not a node is a serde error; any other content is written as a value |
| Encoder.WriteNodeArray | whatsapp-util/src/binary/codec/encoder.rs:189-196 | a list element in array form described "0" is exactly [LIST_EIGHT, LIST_EMPTY]; any other that encodes starts with a list tag |
| Encoder.WriteArrayAsObject | whatsapp-util/src/binary/codec/encoder.rs:189-196 | a list element in array form is written exactly as the node object with the same three fields |
| Encoder.WriteNode | whatsapp-util/src/binary/codec/encoder.rs:36-60 | the "0" placeholder is [LIST_EIGHT, LIST_EMPTY]; an encoded node's size is below 65536 |
| Encoder.Encode | whatsapp-util/src/binary/codec/encoder.rs:29-34 | `encode` succeeds exactly when the node is written, and is one 0 flag byte followed by exactly those bytes |
| Encoder.WriteNodeList | whatsapp-util/src/binary/codec/encoder.rs:168-196 | an array that is not all numbers and whose elements are all nodes, in either serde form, is written as its size, then its nodes |
| Decoder.ReadU8 | whatsapp-util/src/binary/codec/decoder.rs:80-80 | reading a byte needs one byte and consumes exactly it |
| Decoder.ReadU16 | whatsapp-util/src/binary/codec/decoder.rs:238-243 | two big-endian bytes, consumed |
| Decoder.ReadBytes | whatsapp-util/src/binary/codec/decoder.rs:146-146 | `read_bytes(n)` needs n bytes and splits the input exactly after them |
| Decoder.ReadSize | whatsapp-util/src/binary/codec/decoder.rs:238-243 | LIST_EIGHT reads one byte, every other tag two |
| Decoder.ReadCustomLength | whatsapp-util/src/binary/codec/decoder.rs:139-143 | three bytes with the first masked to four bits: below 2^20, equal to the big-endian value when the first byte is below 16 |
| Decoder.RemoveLrm | whatsapp-util/src/binary/codec/decoder.rs:152-152 | the result holds no left-to-right mark, and a string without one is unchanged |
| Decoder.BytesToValue | whatsapp-util/src/binary/codec/decoder.rs:157-157 | bytes become an array of the same numbers |
| Decoder.ReadStringUntil | whatsapp-util/src/binary/codec/decoder.rs:145-162 | well-formed UTF-8 becomes a string (without LRM in parse mode); otherwise an array of numbers when not parsing, an error when parsing |
| Decoder.ReadPairsUnpack | whatsapp-util/src/binary/codec/decoder.rs:179-200 | the loop of `read_string_mode` unpacks the next bytes two characters each, high nibble first |
| Decoder.ReadPacked | whatsapp-util/src/binary/codec/decoder.rs:124-137 | the header's top bit and low seven bits decide how many pairs and whether a padded last byte follow |
| Decoder.ReadSingleByte | whatsapp-util/src/binary/codec/decoder.rs:48-51 | a single-byte tag reads SINGLE_BYTE[tag − 1], and fails past the table |
| Decoder.ReadDictionary | whatsapp-util/src/binary/codec/decoder.rs:53-54 | a dictionary tag reads DOUBLE_BYTE[quarter × quadrant + next byte] |
| Decoder.ReadLength32 | whatsapp-util/src/binary/codec/decoder.rs:110-113 | BINARY_THIRTY_TWO reads a two-byte length as written, four bytes corrected |
| Decoder.ReadValue | whatsapp-util/src/binary/codec/decoder.rs:79-122 | `read` always consumes input and dispatches on what its tag byte announces |
| Decoder.ReadTagged | whatsapp-util/src/binary/codec/decoder.rs:82-119 | LIST_EMPTY reads null without consuming more |
| Decoder.ReadString | whatsapp-util/src/binary/codec/decoder.rs:71-77 | succeeds exactly when `read` in parse mode gives a string |
| Decoder.ReadAttributes | whatsapp-util/src/binary/codec/decoder.rs:57-69 | reading no pairs returns the map so far; earlier keys are kept |
| Decoder.ReadList | whatsapp-util/src/binary/codec/decoder.rs:202-209 | a list read succeeds with exactly as many items as asked for |
| Decoder.ReadJidPair | whatsapp-util/src/binary/codec/decoder.rs:211-223 | an identity pair reads as an identity object with a server |
| Decoder.ReadCompanionJid | whatsapp-util/src/binary/codec/decoder.rs:225-236 | a companion identity is built from the agent byte, the device byte and a user string |
| Decoder.ReadNode | whatsapp-util/src/binary/codec/decoder.rs:30-46 | reading a node always consumes input |
| Decoder.ReadNodeContent | whatsapp-util/src/binary/codec/decoder.rs:41-45 | an odd size gives a node without content; the node read has odd size exactly when its content is null |
| Decoder.Decode | whatsapp-util/src/binary/codec/decoder.rs:16-28 | empty input is an error; the flag byte's bit of value 2 decides whether the rest is passed through `deflate_bytes` before the node is read |
| Decoder.ReadBinaryEight | whatsapp-util/src/binary/codec/decoder.rs:101-105 | BINARY_EIGHT reads a one-byte length, then that many bytes |
| Decoder.ReadBinaryTwenty | whatsapp-util/src/binary/codec/decoder.rs:106-109 | BINARY_TWENTY reads the masked three-byte length, then that many bytes |
| Decoder.ReadBinaryThirtyTwo | whatsapp-util/src/binary/codec/decoder.rs:110-113 | corrected, BINARY_THIRTY_TWO reads a four-byte length, then that many bytes |
| Decoder.ReadHexTag | whatsapp-util/src/binary/codec/decoder.rs:98-100 | HEX_EIGHT reads a hex-packed string |
| Decoder.ReadNibbleTag | whatsapp-util/src/binary/codec/decoder.rs:114-114 | NIBBLE_EIGHT reads a nibble-packed string |
| Decoder.ReadListTag | whatsapp-util/src/binary/codec/decoder.rs:87-94 | LIST_EIGHT and LIST_SIXTEEN read a size, then that many nodes |
| CodecStrings.CodeRoundTrip | whatsapp-util/src/binary/codec/decoder.rs:179-200 | each character of a packing alphabet has a code, and the decoder's table maps that code back to the character |
| CodecStrings.PackedRoundTrip | whatsapp-util/src/binary/codec/encoder.rs:226-273 | a short string of one packing alphabet reads back from its packed form, with the bytes after it untouched |
| CodecStrings.RawBytesRoundTrip | whatsapp-util/src/binary/codec/encoder.rs:198-201 | raw bytes behind a corrected length prefix read back as `read_string_until` reads them |
| CodecStrings.MediumPrefix | whatsapp-util/src/binary/codec/encoder.rs:125-130 | a BINARY_TWENTY length below 2^20 reads back as itself |
| CodecStrings.LongPrefix | whatsapp-util/src/binary/codec/encoder.rs:135-136 | a corrected BINARY_THIRTY_TWO length reads back as itself |
| CodecStrings.RawStringRoundTrip | whatsapp-util/src/binary/codec/encoder.rs:111-112 | the UTF-8 bytes of a string read back as that string, in either mode |
| CodecStrings.StringRoundTrip | whatsapp-util/src/binary/codec/encoder.rs:81-115 | `read` gives back every string `write_string` writes, whichever form was chosen |
| CodecStrings.ReadStringRoundTrip | whatsapp-util/src/binary/codec/decoder.rs:71-77 | `read_string` reads back a string `write_string` wrote |
| CodecNodes.CanonicalFieldsForm | whatsapp-util/src/binary/node.rs:123-137 | a canonical node object is exactly the serde form of the node it deserialises to, with a size below 65536 |
| CodecNodes.SizeRoundTrip | whatsapp-util/src/binary/codec/encoder.rs:62-78 | a corrected list size is read back by `read_size` |
| CodecNodes.ItemBytesRoundTrip | whatsapp-util/src/binary/codec/encoder.rs:169-171 | an array of byte-sized numbers goes to bytes and back unchanged |
| CodecNodes.AttributeRoundTrip | whatsapp-util/src/binary/codec/decoder.rs:57-69 | a canonical attribute value reads back in parse mode |
| CodecNodes.ListRoundTrip | whatsapp-util/src/binary/codec/encoder.rs:189-196 | a nonempty list of canonical nodes reads back, in either mode |
| CodecNodes.AllFieldsRoundTrip | whatsapp-util/src/binary/codec/encoder.rs:181-187 | `read_attribute` gives back every field `write_attributes` wrote, in whatever order the map iterated |
| CodecNodes.ContentRoundTrip | whatsapp-util/src/binary/codec/encoder.rs:50-57 | the canonical non-null content of a node reads back in content mode |
| CodecNodes.NodeObjectRoundTrip | whatsapp-util/src/binary/codec/encoder.rs:36-60 | `read_node` gives back a canonical node that `write_node` wrote |
| CodecNodes.EncodeDecode | whatsapp-util/src/lib.rs:17-63 | decoding what `encode` writes gives the node back, for every canonical node (the repository's tests check two instances) |
| CodecNodes.NumberContentBecomesText | whatsapp-util/src/binary/codec/encoder.rs:162-164 | a JSON number is written as its decimal text and read back as that string, not as a number |
| CodecNodes.BoolContentBecomesText | whatsapp-util/src/binary/codec/encoder.rs:161 | a JSON boolean is written as the string "true" or "false" and read back as that string, not as a boolean |
| CodecNodes.ObjectContentBecomesList | whatsapp-util/src/binary/codec/encoder.rs:51-54 | object content is read back as a one-element array, not as the object |
| CodecJid.CompanionRoundTrip | whatsapp-util/src/binary/codec/encoder.rs:141-146 | a companion identity written by `write_jid` reads back as itself |
| CodecJid.PairRoundTrip | whatsapp-util/src/binary/codec/encoder.rs:148-155 | a plain identity on a named server reads back as itself |
| CodecJid.UnnamedServerBecomesCompanion | whatsapp-util/src/binary/codec/decoder.rs:211-223 | an identity on a server without an address reads back on the Companion server |
| Frame.Header | whatsapp-util/src/binary/codec.rs:58-59 | the header has the revision's width (six bytes as written, three corrected) |
| Frame.HeaderValue | whatsapp-util/src/binary/codec.rs:58-59 | read as one big-endian number, the header is the payload length when that fits |
| Frame.EncodeFrame | whatsapp-util/src/binary/codec.rs:51-62 | the prologue when intro, the header, then exactly the data |
| Frame.PrologueIffIntro | whatsapp-util/src/binary/codec.rs:56-56 | the prologue is present exactly when intro is set; the framed part is the same either way |
| Frame.EncodeMessage | whatsapp-util/src/message/codec.rs:9-17 | a serialisation failure is returned before anything is framed; otherwise the serialised message framed like a node |
| Frame.ReadFrames | whatsapp-util/src/binary/codec.rs:72-84 | fewer than three unread bytes end the loop and are left over; a header announcing more than is left fails |
| Frame.DecodeFrame | whatsapp-util/src/message/codec.rs:19-21 | `decode` is the frames of `BinaryMessage::new`; input shorter than three bytes has none |
| Frame.LengthNeverNegative | whatsapp-util/src/binary/codec.rs:68-79 | the decoded length is never negative, so the `continue` branch is dead; as written it is the 16-bit value of the last two header bytes, corrected the 24-bit value of all three |
| Frame.UnreadIsSuffix | whatsapp-util/src/binary/codec.rs:64-85 | the bytes the reader leaves over are the end of its input |
| Frame.AsWrittenLength | whatsapp-util/src/message.rs:27-29 | `decode_length` ignores the first header byte |
| Frame.ReadRecordsAsWritten | whatsapp-util/src/message.rs:11-25 | a concatenation of [x, hi, lo, payload] records decodes to the payloads, in order |
| Frame.FrameRoundTrip | whatsapp-util/src/binary/codec.rs:64-85 | corrected, a framed payload below 2^24 bytes reads back as itself whatever follows |
| Frame.FramesRoundTrip | whatsapp-util/src/binary/codec.rs:64-85 | corrected, a stream of framed payloads decodes to exactly those payloads, in order, with nothing left |
| Jid.Of | whatsapp-util/src/model/contact_jid.rs:26-34 | the first server in declaration order whose address ends the input; Companion's empty address makes it total |
| Jid.OfAddress | whatsapp-util/src/model/contact_jid.rs:134-139 | User is recognised from its own address |
| Jid.OfGroup | whatsapp-util/src/model/contact_jid.rs:134-139 | Group is recognised from its own address |
| Jid.OfBroadcast | whatsapp-util/src/model/contact_jid.rs:134-139 | Broadcast is recognised from its own address |
| Jid.OfCall | whatsapp-util/src/model/contact_jid.rs:134-139 | Call is recognised from its own address |
| Jid.OfWhatsapp | whatsapp-util/src/model/contact_jid.rs:26-34 | any input ending in "s.whatsapp.net" is recognised as Whatsapp |
| Jid.OfEmpty | whatsapp-util/src/model/contact_jid.rs:141-141 | the empty string is recognised as Companion, the first server with an empty address |
| Jid.WithoutServer | whatsapp-util/src/model/contact_jid.rs:121-131 | the result holds no '@' and an input without '@' is unchanged |
| Jid.FromCompanion | whatsapp-util/src/model/contact_jid.rs:54-61 | the user without its server, on Whatsapp, with device and agent as given; a companion exactly when the device is not 0 |
| Jid.FromComplex | whatsapp-util/src/model/contact_jid.rs:63-115 | the server is kept and the user holds no '@'; an empty user gives device and agent 0; a user without '_' is kept whole |
| Jid.UserAgent | whatsapp-util/src/model/contact_jid.rs:105-112 | "user_agent" without a device gives device 0 and a user without '_' |
| Jid.FromComplexPlain | whatsapp-util/src/model/contact_jid.rs:96-103 | a user with no server, agent or device part parses to itself |
| Jid.FromComplexAgentDevice | whatsapp-util/src/model/contact_jid.rs:74-84 | "user_agent:device" parses into its user, numeric agent and numeric device |
| Jid.JidToValue | whatsapp-util/src/model/contact_jid.rs:45-51 | the serde form of an identity has exactly the keys user, server, device and agent |
| Nonces.Nonce | whatsapp-util/src/security.rs:17-23 | a nonce is twelve bytes |
| Nonces.NonceLayout | whatsapp-util/src/security.rs:17-23 | the nonce is four zero bytes, then eight bytes that read back big-endian as the counter |
| Nonces.Increment | whatsapp-util/src/security.rs:25-30 | below the maximum the counter steps by one |
| Nonces.NextNonce | whatsapp-util/src/security.rs:25-30 | `get_increment_nonce_mut` returns the nonce of the old counter and leaves it one step on |
| Nonces.NonceInjective | whatsapp-util/src/security.rs:17-23 | different counters give different nonces |
| Nonces.NonceRunIsRun | whatsapp-util/src/security.rs:25-30 | k successive `get_increment_nonce_mut` calls return the nonce of each counter value in turn, stepping the counter as `+= 1` does |
| Nonces.NonceRunCounts | whatsapp-util/src/security.rs:25-30 | k successive calls return nonce(c), …, nonce(c + k − 1) and leave the counter at c + k |
| Nonces.NonceRunAt | whatsapp-util/src/security.rs:25-30 | without wrap-around, call i of a run returns the nonce of counter + i |
| Nonces.NonceRunEnd | whatsapp-util/src/security.rs:25-30 | without wrap-around, a run of k calls leaves the counter at counter + k |
| Nonces.NonceRunDistinct | whatsapp-util/src/security.rs:25-30 | without wrap-around, no two calls of a run return the same nonce |
| Store.Default | whatsapp-util/src/model/session_store.rs:7-17 | zero keys, zero counters, no companion and no companion identity |
| Store.CountNonce | whatsapp-util/src/model/session_store.rs:25-37 | Ingoing returns the nonce of the read counter and steps only that counter; Outgoing does the same with the write counter |
| Store.Encrypt | whatsapp-util/src/model/session_store.rs:39-45 | seals with the encode key, the read counter's nonce and no associated data; the read counter steps even when sealing fails |
| Store.Decrypt | whatsapp-util/src/model/session_store.rs:47-53 | opens with the decode key and the write counter's nonce; the write counter steps even when opening fails |
| Store.Update | whatsapp-util/src/model/session_store.rs:55-60 | the two keys are the halves of HKDF(salt); counters and companions are untouched |
| Store.EncryptDecrypt | whatsapp-util/src/model/session_store.rs:39-53 | what one end of a paired channel encrypts the other decrypts, and the two ends stay paired |
| Store.SendNoncesFresh | whatsapp-util/src/model/session_store.rs:39-45 | k successive encryptions use the nonces of k successive counter values |
| Store.UpdateDependsOnSalt | whatsapp-util/src/model/session_store.rs:55-60 | the traffic keys depend on the salt alone |
| Session.Default | whatsapp-util/src/binary/session.rs:14-21 | a default store and fresh credentials |
| Session.TransposeDecode | whatsapp-util/src/binary/codec.rs:42-46 | the payload is opened (stepping the write counter) and then decoded; any failure propagates |
| Session.Encode | whatsapp-util/src/binary/session.rs:24-27 | the node is encoded and sealed, then framed with the prologue when intro |
| Session.EncodeBinary | whatsapp-util/src/binary/session.rs:29-31 | the input framed as it is, without sealing or counter use |
| Session.DecodeBinary | whatsapp-util/src/binary/session.rs:33-35 | exactly the frames of the input |
| Session.DecodeAll | whatsapp-util/src/binary/session.rs:41-43 | on success one node per frame |
| Session.DecodeAllCounter | whatsapp-util/src/binary/session.rs:37-46 | the write counter steps once per frame attempted, up to and including a failing one |
| Session.Decode | whatsapp-util/src/binary/session.rs:37-46 | the frames are decoded in order into as many nodes |
| Session.EncodeThenDecode | whatsapp-util/src/binary/session.rs:24-46 | a node one paired session encodes is decoded back by the other, and the stores stay paired |
| Handshake.Rehash | whatsapp-util/src/binary/handshake.rs:89-97 | the hash absorbs the input and nothing else changes |
| Handshake.Start | whatsapp-util/src/binary/handshake.rs:35-47 | hash = H(H(PROTOCOL ‖ PROLOGUE) ‖ ephemeral public key); key = salt = PROTOCOL; iv = 0 |
| Handshake.Mix | whatsapp-util/src/binary/handshake.rs:99-104 | salt and key are the two halves of HKDF(salt, input); iv is reset; the hash is kept |
| Handshake.IvAsNonce | whatsapp-util/src/handshake.rs:79-85 | twelve bytes: four zero bytes, then eight that read back big-endian as the counter |
| Handshake.Decrypt | whatsapp-util/src/binary/handshake.rs:69-77 | opens with the transcript's key, iv and hash; on success the hash absorbs the ciphertext and iv steps; on failure the newer generation has still stepped iv, the older changed nothing |
| Handshake.Encrypt | whatsapp-util/src/binary/handshake.rs:79-87 | seals with key, iv and hash; on success the hash absorbs the ciphertext, not the plaintext, and iv steps |
| Handshake.Finish | whatsapp-util/src/binary/handshake.rs:49-51 | the store's traffic keys are the halves of HKDF(final salt); its counters and companions are kept |
| Handshake.FinishDependsOnSalt | whatsapp-util/src/binary/handshake.rs:49-51 | the traffic keys depend on nothing but the final salt |
| Handshake.DecryptGenerations | whatsapp-util/src/handshake.rs:63-69 | both generations give the same result, and the same transcript after a success |
| Handshake.EncryptGenerations | whatsapp-util/src/handshake.rs:71-77 | as for decrypt |
| Handshake.EncryptThenDecrypt | whatsapp-util/src/binary/handshake.rs:69-87 | a peer at the same transcript opens what was sealed, and both transcripts end equal |
| Handshake.KeyChangesOnlyInMix | whatsapp-util/src/binary/handshake.rs:24-104 | a run of operations without `mix` keeps key and salt |
| Handshake.CounterKeptByRehash | whatsapp-util/src/binary/handshake.rs:89-97 | a run of rehashes keeps iv |
| Auth.DecryptStep | whatsapp-websocket/src/client/auth.rs:81-81 | the transcript's decrypt, recorded as one cipher call; credentials unchanged |
| Auth.EncryptStep | whatsapp-websocket/src/client/auth.rs:38-44 | the transcript's encrypt, recorded as one cipher call |
| Auth.MixEphemeralShared | whatsapp-websocket/src/client/auth.rs:61-69 | the ephemeral key pair exchanges with the server's key, which must be 32 bytes or it panics, and the secret is mixed in |
| Auth.MixNoiseShared | whatsapp-websocket/src/client/auth.rs:71-78 | the same with the noise key pair |
| Auth.MixStatic | whatsapp-websocket/src/client/auth.rs:80-90 | the server static key is decrypted, exchanged with and mixed, leaving iv at 0 |
| Auth.ProcessPayload | whatsapp-websocket/src/client/auth.rs:92-95 | the server payload is decrypted and its plaintext discarded |
| Auth.Receive | whatsapp-websocket/src/client/auth.rs:30-36 | two cipher calls, both at iv 0: the server static key, then the payload |
| Auth.Respond | whatsapp-websocket/src/client/auth.rs:38-51 | the noise public key is sealed, then the client payload at iv 0 under a freshly mixed key; the finish frame is framed without prologue |
| Auth.Prepare | whatsapp-websocket/src/client/auth.rs:30-51 | the finish message framed without prologue |
| Auth.ReceiveLeaves | whatsapp-websocket/src/client/auth.rs:30-36 | after the first half of login, failed or not, only the ephemeral key pair has recorded exchanges, at most two; with a 32-byte server ephemeral key the first is the shared secret with it |
| Auth.RespondLeaves | whatsapp-websocket/src/client/auth.rs:38-44 | after the second half, failed or not, only the noise key pair has recorded an exchange, at most one |
| Auth.Reached | whatsapp-websocket/src/client/auth.rs:61-90 | the credentials `login` leaves behind, failed or not: those of the finished handshake on success; keys unchanged and exchanges only appended; the ephemeral exchange with a 32-byte server key is kept even when the static key then fails to decrypt |
| Auth.LoginWith | whatsapp-websocket/src/client/auth.rs:25-59 | any failure before the send leaves nothing sent and the store untouched, but the credentials keep the exchanges made before it; otherwise exactly the finish frame is sent and the keys come from the final salt |
| Auth.LoginCipherInputs | whatsapp-websocket/src/client/auth.rs:30-48 | a login makes exactly four AES-GCM calls: the server static key, the server payload, the client noise key, then the client payload |
| Auth.LoginCipherCounters | whatsapp-websocket/src/client/auth.rs:30-48 | those four calls run at counters 0, 0, 1 and 0 |
| Auth.LoginCipherKeys | whatsapp-websocket/src/client/auth.rs:34-40 | the second and third of those calls, the server payload and the client noise key, share a key |
| Auth.StepGenerations | whatsapp-util/src/handshake.rs:63-77 | a cipher step has the same outcome in both generations |
| Auth.LoginGenerations | whatsapp-websocket/src/client/auth.rs:25-59 | the login is the same over either handshake generation |
| Auth.Begin | whatsapp-util/src/binary/handshake.rs:35-47 | the transcript starts from the ephemeral key, with no cipher call made |
| Auth.CreateLogin | whatsapp-websocket/src/stream.rs:63-65 | the finish message, whose frame is the one login sends, and a store with the derived keys; a failure returns the failing step's error and leaves the store as it was; in both cases the session's credentials are the ones login leaves behind |
| Auth.CreateLoginIsLogin | whatsapp-websocket/src/client/auth.rs:50-55 | framing what `create_login` returns is the frame `login` sends, and both leave the same keys |
| Keys.Generate | whatsapp-util/src/security/keypair.rs:46-57 | the public key belongs to the secret, and no exchange has been made |
| Keys.Wrap | whatsapp-util/src/security/keypair.rs:85-90 | a slice converts to a key exactly when it has 32 bytes; any other length panics |
| Keys.Exchange | whatsapp-util/src/security/keypair.rs:60-68 | appends exactly one shared secret and returns it; the keys are unchanged |
| Keys.ExchangeWith | whatsapp-util/src/security/keypair.rs:60-68 | exchanging with a slice succeeds exactly on 32 bytes |
| Keys.Clear | whatsapp-util/src/security/keypair.rs:74-76 | the history is empty and the keys are unchanged |
| Keys.Shared | whatsapp-util/src/security/keypair.rs:70-72 | the i-th shared secret is the exchange with the i-th key |
| Keys.ExchangeHistory | whatsapp-util/src/security/keypair.rs:60-72 | after several exchanges the history holds the old secrets followed by the new ones, in order |
| Keys.ClearThenExchange | whatsapp-util/src/security/keypair.rs:70-76 | after clearing, the history holds exactly the exchanges since |
| Keys.SignalPublic | whatsapp-util/src/security/keypair.rs:28-30 | 33 bytes: the type byte 5, then the public key |
| Keys.NewSigned | whatsapp-util/src/security/keypair.rs:21-41 | the 33-byte signal form of the identity's public key, signed with its secret; the key id is kept |
| Keys.SignedKeypairVerifies | whatsapp-util/src/security/keypair.rs:32-34 | with sound signatures, the signed key pair's signature verifies |
| Keys.NewCredentials | whatsapp-util/src/model/credentials.rs:16-28 | registration id in 1..16380, signed key id 1 over the identity key, no exchanges |
| Adv.FormMessage | whatsapp-util/src/protobuf/adv_message.rs:23-28 | [6, 0] ‖ details ‖ the local identity public key; absent details panic |
| Adv.SignedMessage | whatsapp-util/src/protobuf/adv_message.rs:30-35 | [6, 1] ‖ details ‖ identity public key ‖ account signature key, absent fields empty |
| Adv.Sign | whatsapp-util/src/protobuf/adv_message.rs:30-41 | the device signature becomes the signature of the signed message; a failure leaves the identity unchanged |
| Adv.WithoutKey | whatsapp-util/src/protobuf/adv_message.rs:43-51 | the account signature key is cleared and the other fields are copied |
| Adv.DomainSeparated | whatsapp-util/src/protobuf/adv_message.rs:24-31 | the verified message and the signed message never coincide |
| Adv.SignedIdentityVerifies | whatsapp-util/src/protobuf/adv_message.rs:30-51 | with sound signatures, a signed identity keeps a device signature that verifies, even without its key |
| Version.SplitN | whatsapp-util/src/protobuf/version.rs:28-28 | at most n pieces |
| Version.SplitJoin | whatsapp-util/src/protobuf/version.rs:28-28 | joining the pieces gives the string back |
| Version.SplitCount | whatsapp-util/src/protobuf/version.rs:28-28 | the number of pieces is one more than the separators, but at most n |
| Version.SplitPiecesFree | whatsapp-util/src/protobuf/version.rs:28-28 | every piece but the last is free of the separator |
| Version.Parse | whatsapp-util/src/protobuf/version.rs:27-36 | None exactly when there are fewer than three pieces; otherwise each piece is parsed as a u32 on its own |
| Version.TryInto | whatsapp-util/src/protobuf/version.rs:19-25 | Ok exactly when the version has two dots; a malformed version is IntoError("Malformed version") |
| Version.ParseIffTwoDots | whatsapp-util/src/protobuf/version.rs:27-36 | parsing succeeds exactly when the text holds at least two dots |
| Version.FormatThenParse | whatsapp-util/src/protobuf/version.rs:27-36 | three u32 numbers joined by dots parse back to the three numbers |
| Version.FourComponents | whatsapp-util/src/protobuf/version.rs:28-33 | a fourth component stays in the last piece, so "a.b.c.d" has no tertiary |
| Pairing.SendConfirm | whatsapp-websocket/src/stream/digest/iq.rs:30-42 | an "iq" result to s.whatsapp.net with the request's id and the given content; a request without a text id panics |
| Pairing.ConfirmKeepsId | whatsapp-websocket/src/stream/digest/iq.rs:30-42 | confirming a confirmation gives the same confirmation |
| Pairing.Container | whatsapp-websocket/src/stream/digest/iq.rs:106-110 | the first node of the content array; a content that is not a nonempty array panics; with one, it succeeds exactly when the first element is a node in either serde form |
| Pairing.SaveCompanion | whatsapp-websocket/src/stream/digest/iq.rs:87-97 | no "device" child is IqMissingDevice; with one, it succeeds exactly when the entry is a node in either serde form with a "jid" attribute, and then only the companion changes, to that jid |
| Pairing.DeviceIdentityBytes | whatsapp-websocket/src/stream/digest/iq.rs:47-48 | the numbers of the "device-identity" child; a missing child or non-array content panics |
| Pairing.CheckHmac | whatsapp-websocket/src/stream/digest/iq.rs:50-58 | accepted exactly when the HMAC of the details under the signed public key equals the sent HMAC; otherwise IqInvalidSignature |
| Pairing.CheckAccount | whatsapp-websocket/src/stream/digest/iq.rs:60-65 | accepted exactly when the account signature verifies over the formed message; otherwise IqInvalidMessageSignature |
| Pairing.Accept | whatsapp-websocket/src/stream/digest/iq.rs:47-67 | an accepted identity passed both checks and carries the device signature of `sign` |
| Pairing.PairDeviceNode | whatsapp-websocket/src/stream/digest/iq.rs:69-79 | the node exists exactly when the details are present and both conversions succeed; it is "pair-device-sign" holding "device-identity" with the key index and the identity without its key |
| Pairing.PairDeviceSign | whatsapp-websocket/src/stream/digest/iq.rs:69-84 | the confirmation carries "pair-device-sign" holding "device-identity" with the key index and the identity without its key |
| Pairing.Identify | whatsapp-websocket/src/stream/digest/iq.rs:44-85 | the companion is saved before the checks; the identity is stored only when they pass and the reply node is built; any failure but `send_confirm`'s panic leaves the stored identity as it was; credentials never change |
| Pairing.IdentityOnlyAfterChecks | whatsapp-websocket/src/stream/digest/iq.rs:66-81 | a stored identity is the accepted one, and its reply node could be built |
| Pairing.CompanionBeforeChecks | whatsapp-websocket/src/stream/digest/iq.rs:45-45 | the companion is saved whatever the checks decide |
| Pairing.StoredIdentityVerifies | whatsapp-websocket/src/stream/digest/iq.rs:67-81 | with sound signatures, the stored companion identity carries a device signature that verifies |
| Pairing.IqDigest | whatsapp-websocket/src/stream/digest/iq.rs:100-134 | "pair-device" confirms with null content; "pair-success" identifies; any other container panics |
| Connection.NewClient | whatsapp-websocket/src/client.rs:24-27 | a new client starts in Hello with no sink, on the given session or the default |
| Connection.ExtendsTransitive | whatsapp-websocket/src/client.rs:69-90 | what was sent is only ever extended |
| Connection.Close | whatsapp-websocket/src/client.rs:57-67 | without a sink nothing changes; otherwise the sink goes, the state is Reconnect or Closed, a Close message is sent, and keys and counters are zeroed while credentials and companions stay |
| Connection.Accepted | whatsapp-websocket/src/client.rs:80-80 | the sink receives exactly one more message, that frame |
| Connection.SendNode | whatsapp-websocket/src/client.rs:83-88 | the node sealed and framed (prologue only in Hello) is sent; an encoding failure is EncodeNodeError and sends nothing |
| Connection.Send | whatsapp-websocket/src/client.rs:69-90 | no sink is StreamNotInitialized; state and credentials never change; success sends exactly one message |
| Connection.CloseThenSend | whatsapp-websocket/src/client.rs:57-70 | after `close` nothing can be sent |
| Connection.QueryNode | whatsapp-websocket/src/client.rs:92-104 | an "iq" with null id, the given type, to s.whatsapp.net and the given xmlns, whose content deserialises to the body |
| Connection.Query | whatsapp-websocket/src/client.rs:92-104 | without a sink nothing happens; it succeeds exactly when the session encodes the query node, and then the one frame added is that node sealed; state, sink and credentials stay |
| Connection.SendHello | whatsapp-websocket/src/stream.rs:36-57 | outside Hello it is WrongState; otherwise the client hello is sent with the prologue and the state becomes Handshake |
| Connection.Login | whatsapp-websocket/src/stream.rs:59-71 | the session is always the one `create_login` leaves; a failed login returns its error with nothing sent and only the credentials' exchanges changed; otherwise the finish frame is sent and the state becomes Connected |
| Connection.ProcessBinary | whatsapp-websocket/src/stream/processor.rs:22-41 | the close frame is WsClose; a frame starting with two zeros logs in with its first frame; anything else is UnexpectedMessage |
| Connection.StreamErrorOf | whatsapp-websocket/src/stream/digest/error.rs:10-18 | 515 is ForceReconnect, 401 Unauthorized, any other code panics |
| Connection.HandleError | whatsapp-websocket/src/stream/digest/error.rs:21-30 | code 515 closes for reconnection; anything else panics and changes nothing |
| Connection.HandleSuccess | whatsapp-websocket/src/stream/digest/success.rs:6-15 | the passive query is sent, then it panics |
| Connection.Digest | whatsapp-websocket/src/stream/digest.rs:22-47 | dispatch on the description; the digest's session is written back only when it has a reply to send |
| Connection.DigestAll | whatsapp-websocket/src/stream/processor.rs:15-17 | no nodes change nothing |
| Connection.ProcessNode | whatsapp-websocket/src/stream/processor.rs:8-20 | the payload is decoded and its nodes digested in order; a decoding failure propagates |
| Connection.Process | whatsapp-websocket/src/stream/processor.rs:43-57 | Hello is WrongState, Handshake processes binary, Connected processes nodes, Reconnect and Closed ignore the payload |
| Connection.ProcessAll | whatsapp-websocket/src/client.rs:43-51 | no frames change nothing |
| Connection.Attempt | whatsapp-websocket/src/client.rs:34-51 | a failed or non-informational connection fails in Hello; otherwise the hello is the first thing sent |
| Connection.Reconnecting | whatsapp-websocket/src/client.rs:33-52 | the loop ends Ok once the state is neither Hello nor Reconnect |
| Connection.Connect | whatsapp-websocket/src/client.rs:29-55 | Handshake, Connected and Reconnect are StreamAlreadyInitialized; from Closed the loop does not run and it is Ok |
| Connection.ConnectGreetsFirst | whatsapp-websocket/src/client.rs:29-55 | on a successful first connection the first message sent is the client hello with the prologue |
| Connection.BareHeader | whatsapp-websocket/src/stream/processor.rs:34-34 | a frame of a payload under 65536 bytes starts with a zero byte, followed by the length |
| Connection.HelloThenLogin | whatsapp-websocket/src/stream/processor.rs:22-57 | after the hello, a server hello under 256 bytes logs in: the finish frame follows the hello and the state is Connected |
| Connection.HandshakeLoginSends | whatsapp-websocket/src/stream.rs:59-71 | while handshaking, a login that succeeds sends the finish frame without the prologue and connects |
| Connection.LoginAfterHello | whatsapp-websocket/src/stream/processor.rs:22-41 | while handshaking, a framed server hello under 256 bytes is answered with exactly the finish frame, and the client is connected |
| Connection.ServerHelloLogsIn | whatsapp-websocket/src/stream/processor.rs:34-37 | in Handshake, a framed server hello under 256 bytes triggers the login |
| Connection.LongHelloUnexpected | whatsapp-websocket/src/stream/processor.rs:34-39 | a server hello of 256 to 65535 bytes does not start with two zeros and is UnexpectedMessage |
| Connection.PairingFailureKeepsSession | whatsapp-websocket/src/stream/digest.rs:27-44 | when the pairing checks fail, the digest's companion is discarded with its cloned session |
| ClientStream.NewStream | whatsapp-websocket/src/client/stream.rs:36-46 | a new stream starts in Hello on the given session or the default |
| ClientStream.SendNode | whatsapp-websocket/src/client/stream.rs:115-118 | the node sealed and framed (prologue only in Hello) is sent; failure is EncodeNodeError |
| ClientStream.Send | whatsapp-websocket/src/client/stream.rs:106-120 | binary input is framed with the prologue only in Hello; the state never changes |
| ClientStream.SendGenerations | whatsapp-websocket/src/client.rs:69-90 | both generations send the same bytes and leave the same session |
| ClientStream.SendHello | whatsapp-websocket/src/client/stream.rs:48-63 | the client hello is sent, whatever the state |
| ClientStream.Login | whatsapp-websocket/src/client/stream.rs:65-72 | the session is always the one `create_login` leaves; on success the finish frame is sent and the state is kept; a failure returns its error with nothing sent and only the credentials' exchanges changed |
| ClientStream.ProcessBinary | whatsapp-websocket/src/client/stream/processor.rs:33-49 | the close frame is WsClose; two leading zeros give the first frame; anything else is a node |
| ClientStream.Digest | whatsapp-websocket/src/client/stream/processor.rs:51-92 | only an "iq" whose container, in either serde form, is "pair-device" is answered, with the result confirmation; a container that does not deserialise is the error of `try_into` |
| ClientStream.DigestGenerations | whatsapp-websocket/src/stream/digest/iq.rs:113-120 | a reply of the older digest is the confirmation the newer one sends |
| ClientStream.FirstReplyIsFirst | whatsapp-websocket/src/client/stream/processor.rs:20-31 | the reply returned is the digest of one of the nodes |
| ClientStream.NoReplyDigestsAll | whatsapp-websocket/src/client/stream/processor.rs:20-31 | no reply means every node digested to nothing |
| ClientStream.ProcessNode | whatsapp-websocket/src/client/stream/processor.rs:20-31 | the payload is decoded with the session's store and the nodes digested until one replies |
| ClientStream.Answer | whatsapp-websocket/src/client/stream.rs:96-101 | a reply is sent; the state is kept |
| ClientStream.Process | whatsapp-websocket/src/client/stream.rs:74-104 | in Hello or Handshake a server hello logs in (state Handshake) and anything else switches to Iq and is answered; Iq answers and stays |
| ClientStream.IqIsFinal | whatsapp-websocket/src/client/stream.rs:96-103 | once in Iq, the stream never leaves it |

## Left out

- Networking and timing: `connect_async`, the websocket split and `rx.next()` are modelled as a sequence of `Round`s. Each round is a connection outcome and the frames received. `Connection.Connect` and `Connection.Reconnecting` return None when the rounds run out, which stands for a connection loop that never ends.
- The sink is assumed to accept every message. A send failure, and the panic of `close`'s `unwrap` on one, are not modelled.
- `Iq::print` and the QR code of the older digest (`qr2term`, base64, "Missing ref") are output only. Their panics are not modelled.
- `println!` in `transpose` and `encode_frame` is output only.
- All cryptography (SHA-256, HKDF, AES-GCM, X25519, HMAC-SHA256, Ed25519/XEdDSA signatures) is a parameter. Signature randomness (`OsRng`) is folded into the `sign` parameter, and key generation is given the secret.
- `aes::encrypt_no_hash`/`decrypt_no_hash` are modelled as AES-GCM with empty associated data.
- Protobuf parsing and serialisation (`HandshakeMessage`, `ClientHello`, `ClientFinish`, `ClientPayload`, ADV messages) are parameters. `create_user_payload` is a parameter of credentials to bytes. `AppVersion` keeps only its three version fields.
- `Version` is taken as already deserialised; serde's JSON reading of it is not modelled.
- `node.error_code()`, `Node::parse_jid` and `content_array_nums` are not part of this model's sources and are parameters.
- The token tables (`token::SINGLE_BYTE`, `DOUBLE_BYTE`, `HEX`, `NUMBERS`) are not part of this model's sources. They are a parameter constrained by `Tokens.Valid`.
- DEFLATE (`deflate_bytes`) is a parameter.
- `HashMap` iteration order is an arbitrary but fixed ghost order (`Nodes.Keys`). The encoder and the connection operations that encode are ghost for that reason.
- `Credentials.session`, the `Option<Session>` field that nothing reads, is omitted.
- `Nonces.Increment`: a `u64` counter wraps at 2^64 as in a release build. A debug build panics on the overflow, which is not modelled.
- `Nonces.NonceRunDistinct` is stated only for runs that do not wrap, because a wrapped counter repeats nonces.
- The older generation's `State::Hello`-only prologue and its `send_hello` without a state check are modelled as written. Neither stream's `Mutex`/`Arc` locking is modelled, since only one task uses each.
- `Connection.ProcessBinary`: the server-hello test is that the raw websocket message starts with two zero bytes. Under the corrected 3-byte frame header that holds only for hellos below 256 bytes (`Connection.LongHelloUnexpected`). The model records this as written.
- The session, login and connection members below use `Revision.Corrected`, because as written no frame `encode_frame` makes reads back as itself (Findings, codec.rs:58-59). What they state about bytes on the wire holds for the corrected framing only.
- `Session.TransposeDecode`: decodes with the corrected frame reader and node decoder, not the as-written 16-bit length read (whatsapp-util/src/binary/codec.rs:68-69) and nibble, size and length reads.
- `Session.Encode`: frames with the corrected three-byte header, not the six-byte header `encode_frame` writes (whatsapp-util/src/binary/codec.rs:58-59).
- `Session.EncodeBinary`: frames with the corrected three-byte header, not the six-byte header `encode_frame` writes (whatsapp-util/src/binary/codec.rs:58-59).
- `Session.DecodeBinary`: splits frames with the corrected frame reader and node decoder, not the as-written 16-bit length read (whatsapp-util/src/binary/codec.rs:68-69) and nibble, size and length reads.
- `Session.DecodeAll`: decodes with the corrected frame reader and node decoder, not the as-written 16-bit length read (whatsapp-util/src/binary/codec.rs:68-69) and nibble, size and length reads.
- `Session.DecodeAllCounter`: counts the frames of the corrected frame reader and node decoder, not the as-written 16-bit length read (whatsapp-util/src/binary/codec.rs:68-69) and nibble, size and length reads.
- `Session.Decode`: splits and decodes with the corrected frame reader and node decoder, not the as-written 16-bit length read (whatsapp-util/src/binary/codec.rs:68-69) and nibble, size and length reads.
- `Session.EncodeThenDecode`: is the round trip of the corrected codec and framing only; as written, the six-byte header makes the decoder see an empty frame first (`Frame.AsWrittenFrameSplits`).
- `Auth.Respond`: frames the finish message with the corrected three-byte header, not the six-byte header `encode_frame` writes (whatsapp-util/src/binary/codec.rs:58-59).
- `Auth.Prepare`: frames the finish message with the corrected three-byte header, not the six-byte header `encode_frame` writes (whatsapp-util/src/binary/codec.rs:58-59).
- `Auth.LoginWith`: sends a finish frame with the corrected three-byte header, not the six-byte header `encode_frame` writes (whatsapp-util/src/binary/codec.rs:58-59).
- `Auth.CreateLogin`: its frame is built with the corrected three-byte header, not the six-byte header `encode_frame` writes (whatsapp-util/src/binary/codec.rs:58-59).
- `Auth.CreateLoginIsLogin`: compares frames built with the corrected three-byte header, not the six-byte header `encode_frame` writes (whatsapp-util/src/binary/codec.rs:58-59).
- `Connection.SendNode`: sends frames with the corrected three-byte header, not the six-byte header `encode_frame` writes (whatsapp-util/src/binary/codec.rs:58-59).
- `Connection.Send`: sends frames with the corrected three-byte header, not the six-byte header `encode_frame` writes (whatsapp-util/src/binary/codec.rs:58-59).
- `Connection.Query`: sends a frame with the corrected three-byte header, not the six-byte header `encode_frame` writes (whatsapp-util/src/binary/codec.rs:58-59).
- `Connection.SendHello`: sends the hello with the corrected three-byte header, not the six-byte header `encode_frame` writes (whatsapp-util/src/binary/codec.rs:58-59).
- `Connection.Login`: sends the finish frame with the corrected three-byte header, not the six-byte header `encode_frame` writes (whatsapp-util/src/binary/codec.rs:58-59).
- `Connection.ProcessBinary`: reads the server hello's frames with the corrected frame reader and node decoder, not the as-written 16-bit length read (whatsapp-util/src/binary/codec.rs:68-69) and nibble, size and length reads.
- `Connection.ProcessNode`: decodes with the corrected frame reader and node decoder, not the as-written 16-bit length read (whatsapp-util/src/binary/codec.rs:68-69) and nibble, size and length reads.
- `Connection.Process`: decodes with the corrected frame reader and node decoder, not the as-written 16-bit length read (whatsapp-util/src/binary/codec.rs:68-69) and nibble, size and length reads.
- `Connection.Attempt`: sends the hello with the corrected three-byte header, not the six-byte header `encode_frame` writes (whatsapp-util/src/binary/codec.rs:58-59).
- `Connection.ConnectGreetsFirst`: the hello it names is framed with the corrected three-byte header, not the six-byte header `encode_frame` writes (whatsapp-util/src/binary/codec.rs:58-59).
- `Connection.BareHeader`: is about the corrected three-byte header, not the six-byte header `encode_frame` writes (whatsapp-util/src/binary/codec.rs:58-59); as written the first four header bytes are zero for any payload under 65536 bytes.
- `Connection.HelloThenLogin`: frames and reads with the corrected revision: the corrected three-byte header, not the six-byte header `encode_frame` writes (whatsapp-util/src/binary/codec.rs:58-59), and the corrected frame reader and node decoder, not the as-written 16-bit length read (whatsapp-util/src/binary/codec.rs:68-69) and nibble, size and length reads.
- `Connection.LoginAfterHello`: frames and reads with the corrected revision: the corrected three-byte header, not the six-byte header `encode_frame` writes (whatsapp-util/src/binary/codec.rs:58-59), and the corrected frame reader and node decoder, not the as-written 16-bit length read (whatsapp-util/src/binary/codec.rs:68-69) and nibble, size and length reads.
- `Connection.HandshakeLoginSends`: the finish frame it names is framed with the corrected three-byte header, not the six-byte header `encode_frame` writes (whatsapp-util/src/binary/codec.rs:58-59).
- `Connection.ServerHelloLogsIn`: the server hello is framed with the corrected three-byte header, not the six-byte header `encode_frame` writes (whatsapp-util/src/binary/codec.rs:58-59).
- `Connection.LongHelloUnexpected`: is about the corrected three-byte header, not the six-byte header `encode_frame` writes (whatsapp-util/src/binary/codec.rs:58-59).
- `ClientStream.SendNode`: sends frames with the corrected three-byte header, not the six-byte header `encode_frame` writes (whatsapp-util/src/binary/codec.rs:58-59).
- `ClientStream.Send`: sends frames with the corrected three-byte header, not the six-byte header `encode_frame` writes (whatsapp-util/src/binary/codec.rs:58-59).
- `ClientStream.SendHello`: sends the hello with the corrected three-byte header, not the six-byte header `encode_frame` writes (whatsapp-util/src/binary/codec.rs:58-59).
- `ClientStream.Login`: sends the finish frame with the corrected three-byte header, not the six-byte header `encode_frame` writes (whatsapp-util/src/binary/codec.rs:58-59).
- `ClientStream.ProcessBinary`: reads the server hello's frames with the corrected frame reader and node decoder, not the as-written 16-bit length read (whatsapp-util/src/binary/codec.rs:68-69) and nibble, size and length reads.
- `ClientStream.ProcessNode`: decodes with the corrected frame reader and node decoder, not the as-written 16-bit length read (whatsapp-util/src/binary/codec.rs:68-69) and nibble, size and length reads.
- `ClientStream.Process`: frames and reads with the corrected revision: the corrected three-byte header, not the six-byte header `encode_frame` writes (whatsapp-util/src/binary/codec.rs:58-59), and the corrected frame reader and node decoder, not the as-written 16-bit length read (whatsapp-util/src/binary/codec.rs:68-69) and nibble, size and length reads.
- `ClientStream.Answer`: sends the reply with the corrected three-byte header, not the six-byte header `encode_frame` writes (whatsapp-util/src/binary/codec.rs:58-59).
- The encoder's JSON numbers are integers; floating-point JSON numbers are not modelled.
- `CodecNodes.EncodeDecode` is proved for the `Corrected` revision only. The as-written codec's round trip, which holds only for lists under 256 items, strings and byte arrays under 2^20 bytes, and nibble strings that do not end oddly in '-' or '.', is not stated; the Findings rows exhibit the inputs where it breaks. It is proved for canonical nodes. Keys and strings must not hold a left-to-right mark, which the decoder deletes in parse mode. Attribute values are null, strings or nonempty lists of canonical nodes. Content is null, a string, a byte array or a nonempty list of canonical nodes. Numbers, booleans and objects do not come back as themselves, by design: `CodecNodes.NumberContentBecomesText`, `CodecNodes.BoolContentBecomesText` and `CodecNodes.ObjectContentBecomesList` state what comes back instead. Canonical lists hold node objects: a list element in serde's array form is written exactly as its object form (`Encoder.WriteArrayAsObject`), so it reads back as that object, not as the array.

## Findings

| source | as written | input that shows it | evidently intended | confidence | as-written member | corrected member |
|---|---|---|---|---|---|---|
| whatsapp-util/src/binary/codec/encoder.rs:69-72 | a size from 256 to 65535 is written as LIST_SIXTEEN and only its low byte, while `read_size` reads two bytes | a list of 300 nodes | both big-endian bytes of the size | not executed | Findings.ListSixteenLosesSize | CodecNodes.SizeRoundTrip |
| whatsapp-util/src/binary/codec/encoder.rs:135-136 | a length above the 20-bit limit is written as BINARY_THIRTY_TWO and one truncated byte, while the decoder reads two | a byte string of 1048577 bytes | a four-byte length on both sides | not executed | Findings.ThirtyTwoLosesLength | CodecStrings.LongPrefix |
| whatsapp-util/src/binary/codec/encoder.rs:125-129 | the limit I32_20_MAX_VALUE = 1048576 admits a length whose 0x10 top byte the decoder masks to 0 | a byte string of exactly 1048576 bytes | the limit 2^20 − 1 | not executed | Findings.TwentyBitMaxReadsZero | CodecStrings.MediumPrefix |
| whatsapp-util/src/binary/codec/decoder.rs:132-134 | the padded last character of an odd-length nibble string is looked up in the HEX table | the nibble string "-" (packed 0xAF) reads back as "A" | the NUMBERS table, as for the other characters | not executed | Findings.NibbleLastReadAsHex | CodecStrings.PackedRoundTrip |
| whatsapp-util/src/binary/codec.rs:58-59 | `encode_frame` writes a six-byte header (4 + 2 bytes) while `decode_frame` reads three-byte headers | any payload under 65536 bytes decodes to [[], payload] | a three-byte 24-bit length header | not executed | Frame.AsWrittenFrameSplits | Frame.FramesRoundTrip |
