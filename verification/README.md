# OSynaptic-FX: verified model of the wire protocol

OSynaptic-FX is a small C library with which sensor nodes talk to a gateway. A node prints its
readings as a text body. The fusion layer caches the last body per (aid, tid) on both sides and sends
a FULL body, a bitmask DIFF of the changed slots, or an empty HEART. Frames carry a CRC-8 and a
CRC-16. After a handshake the bodies are masked with a per-aid key. A gateway leases aids.

This project models that protocol in Dafny and proves what it promises:

- **Fusion** (`fusion_text`, `fusion_diff`, `fusion_table`, `fusion_runs`, `fusion_history`,
  `fusion_loss`, `fusion_lossy_delivery`, `fusion_recovery`, `fusion_receiver`, `fusion_state`). The
  class `FusionState` holds the table as an array that is updated in place, as the sources do; its
  methods are proved against functions on the table, and the theorems about runs are about those
  functions. Sender and receiver stay equal over every delivered run; with lost DIFFs and HEARTs
  every slot still holds, and every later packet still hands on, the last value carried for it; a
  delivered FULL repairs any pair of tables; and where the protocol does not recover, that is proved
  too. For packets of any origin it is said exactly what the receiver reads, changes, refuses and
  reports.
- **Codecs** (`bytes`, `numerals`, `bits`, `crc`, `solidity`, `payload_crypto`, `commands`,
  `packet`, `template`, `sensor_body`). CRC burst detection at any frame length, frame, Base62,
  timestamp-token, template and body round trips, most of them as an if and only if.
- **End to end** (`facade`, `secure_facade`). What the facade prints is what the other side decodes,
  whichever packet kind the fusion layer chose and whether or not the body was masked. The
  multi-sensor encoder replaces a field by a constant when the build's switch for it is off; every
  switch is a parameter, and a field comes back if and only if its switch is on or it equals that
  constant (`Facade.FieldsArriveIff`). In the shipped build units are off
  (`include/osfx_build_config.h:53-54`): every unit arrives as "NA". The single-sensor packets,
  plain and secure, carry the unit in every build.
- **Handshake** (`secure_session`, `key_derivation`, `dispatch`, `handshake_runs`,
  `session_lifetime`, `key_lifetime`, `key_agreement`). The session store is a bank of independent
  per-aid machines; over any mix of packets, local sends and cleanups its invariant holds, replies
  are not repeated, timestamps of accepted packets increase, and a session lasts exactly until a
  cleanup comes later than its expiry after the last event for its aid. Six key bytes determine the
  32-bit seed they came from, so two timestamps share a key exactly when they fold alike (the
  exclusive or of their two 32-bit words), and only if they are equal below 2^32, and no two aids
  share one at the same time. From that follow exactly which events change a key and when two
  parties agree on one.
- **Leases** (`id_allocator`, `id_lease`). Aids in use stay distinct and in range, the smallest free
  one is granted, the search is bounded by the number of aids in use, and no aid is handed out twice
  within its lease, whose length is given exactly by the load.

Conventions. Bytes and words are ranges of `int`; every truncation and wrap-around of the C types is
written out. A C string is the bytes before its terminator. Table sizes and widths are the defaults of
`include/osfx_fusion_state.h`, `include/osfx_template_grammar.h` and `include/osfx_user_config.h`; the
DIFF codec is proved for any number of slots. `None` stands for a zero return. A `hide` statement in a proof only
keeps a definition from the solver that the proof does not need.

Where code and documentation disagree, the code is modelled:

- `README.md:213` describes a periodic FULL. The code has none: the packet kind depends only on the
  last body for the key (`FusionHistory.PacketKind`), so a receiver that missed the FULL of a structure
  stays without an entry for as long as that structure stands (`FusionRecovery.StrandedReceiver`).
- `osfx_fusion_encode` updates its cache before framing can fail. Exactly when that leaves the cache
  ahead is `FusionRecovery.FailedEncodeIff`; a delivered run keeps the tables equal exactly when it never
  happens (`FusionRecovery.LockstepIff`).
- An exhausted pool is meant to be answered with a NACK, but the 16-byte reply buffer is too short for
  its reason text, so nothing is answered (`Dispatch.IdRequestAnswer`).
- The secure decoder's body buffer is shorter than the encoder's, so some packets the encoder
  produces cannot be read (`SecureFacade.SecureTransparentIff`).
- With the timestamp switch off a FULL carries the time 0, but a DIFF or HEART is rebuilt under the
  packet's own time (`Facade.TimeArrivesIff`).
- The facade takes a unit for every reading, but the shipped build sends none of them
  (`Facade.FieldsArriveIff`, `Facade.DefaultBuildDropsUnit`).
- A key is not final: from an empty store, a plaintext send after the key was set and a later
  SECURE_DICT_READY replace it if the two times fold differently (`KeyLifetime.LatePlaintextRekeysIff`,
  `KeyLifetime.KeyChanges`). `KeyLifetime.KeyIsFinalIff` says exactly when a key stays.
- Two plaintext frames outstanding leave the parties with one key exactly when their times fold alike
  (`KeyAgreement.TwoOutstandingAgreeIff`), so they can disagree (`KeyAgreement.TwoOutstandingDisagree`).

## Model

| member | source | states |
|---|---|---|
| FusionHistory.Lockstep | src/osfx_fusion_state.c:264-586 | over every run of sends to any keys, delivered in order to a receiver that also started empty, in which no refused packet leaves the cache ahead, the two tables are equal |
| FusionHistory.RoomyIsFaithful | src/osfx_fusion_state.c:291-442 | packet capacity for each body and for the largest DIFF is enough for that |
| FusionRecovery.LockstepIff | src/osfx_fusion_state.c:359-442 | the condition is exact: in a run with every packet delivered and no NUL in a header the tables are equal after every step if and only if no send left the cache ahead |
| FusionHistory.FaithfulDelivery | src/osfx_fusion_state.c:485-577 | after such a run every produced packet decodes if the output buffer is large enough: to the body itself from a FULL, otherwise to the text of its slots under the 48-bit time |
| FusionHistory.ProducedIff | src/osfx_fusion_state.c:297-343 | with enough packet capacity a nonempty body yields a packet if and only if it does not parse or its key has or finds an entry |
| FusionHistory.CacheIsLastBody | src/osfx_fusion_state.c:359-417 | after any run the sender's entry for a key exists exactly if a parsable body was encoded for it with room in the table, and holds the structure and slots of the last one |
| FusionHistory.PacketKind | src/osfx_fusion_state.c:345-432 | the packet kind depends on the run only through the last body for the key: FULL exactly for a new structure, HEART exactly for no change |
| FusionRuns.CachedHoldsBody | src/osfx_fusion_state.c:359-417 | whichever kind was chosen, the cache then holds the body just encoded, as if a FULL had stored it |
| FusionRuns.StepInLockstep | src/osfx_fusion_state.c:450-586 | one delivered packet makes equal tables equal again and yields the body, exactly or rebuilt from the cache |
| FusionLoss.Received | src/osfx_fusion_state.c:480-577 | under equal templates a packet touches only its key's entry at the receiver, and there does what the sender's choice says, even if the slot values differed before |
| FusionLoss.LossyRun | src/osfx_fusion_state.c:359-577 | if every FULL of a parsable body arrives and any other packets are lost, the receiver's slots are at every moment the last values delivered for them |
| FusionLoss.NothingInvented | src/osfx_fusion_state.c:526-577 | in such a run each slot the receiver holds equals the value in the last delivered packet that carried that slot |
| FusionLossyDelivery.LossyDelivery | src/osfx_fusion_state.c:526-577 | in such a run a DIFF or HEART that arrives hands on the text of the last values carried for its slots, its own included, and so the slots just encoded if and only if each was last carried with its present value |
| FusionRecovery.Resynchronised | src/osfx_fusion_state.c:485-524 | from any two tables one delivered FULL with a parsable body makes the receiver's entry hold it, unless its table is full, and leaves every other key alone |
| FusionRecovery.NewKeyIsFull | src/osfx_fusion_state.c:337-375 | a key without an entry, as after a reset, is announced by a FULL |
| FusionRecovery.StrandedReceiver | src/osfx_fusion_state.c:345-390 | a receiver without an entry for a cached structure stays without one however long packets with that structure keep arriving |
| FusionRecovery.FailedEncodeIff | src/osfx_fusion_state.c:435-442 | unless the header holds a NUL, an encode fails and still changes the cache if and only if a FULL or DIFF it chose does not fit the packet buffer |
| FusionRecovery.RefusedFullStrands | src/osfx_fusion_state.c:359-442 | a refused FULL followed by the same body with room yields a HEART that a fresh receiver cannot use |
| FusionText.BodyRoundTrip | src/osfx_fusion_state.c:43-222 | parsing the printed text of well-formed slots gives them back, whatever the time |
| FusionText.ParsedWellFormed | src/osfx_fusion_state.c:115-157 | every accepted body has slots that could have been printed |
| FusionText.BodyAcceptedIff | src/osfx_fusion_state.c:66-157 | a body with any time token is parsed exactly if its signature is under 64 bytes and some segment is good, and then to that signature and the first four good segments |
| FusionText.HeadlessRefused | src/osfx_fusion_state.c:66-88 | a body without a '|', or without a '.' before its first one, is not parsed |
| FusionText.ReprintIff | src/osfx_fusion_state.c:90-157 | printing the parsed segments reproduces the text if and only if no segment is skipped or left over and each is closed |
| FusionText.BodyReprintIff | src/osfx_fusion_state.c:43-222 | reconstructing a parsed body changes nothing but the timestamp if and only if its segments are canonical |
| FusionText.SplitSegment | src/osfx_fusion_state.c:98-141 | the scanning code finds the segment of the specification, or none |
| FusionText.ParseSensors | src/osfx_fusion_state.c:90-158 | the segment loop fills the tag and slot arrays with the parsed sensors in order and counts them |
| FusionText.ParseBodySlots | src/osfx_fusion_state.c:43-159 | parse_body_slots computes the parse of the body, signature included |
| FusionDiff.DiffRoundTrip | src/osfx_fusion_state.c:402-431 | for any equal number of slots the DIFF body applied to the old slots yields the new ones, and mask bit i is set exactly when slot i differs |
| FusionDiff.ApplyMerges | src/osfx_fusion_state.c:535-563 | applied to any other cells the DIFF body sets exactly the slots that differed, leaves the rest alone and is read to its end |
| FusionDiff.DiffLength | src/osfx_fusion_state.c:402-417 | the DIFF body is ceil(N/8) bytes plus one length byte and the value for each changed slot |
| FusionDiff.MaskRoundTrip | src/osfx_fusion_state.c:419-427 | big-endian mask write and read are inverse for every mask width |
| FusionState.FusionState.Encode | src/osfx_fusion_state.c:264-448 | on the array, encode leaves exactly the table and produces exactly the packet of the specification, cache changes of failed calls included |
| FusionState.FusionState.DecodeApply | src/osfx_fusion_state.c:450-586 | on the array, decode leaves exactly the specified table and body, partial changes by a malformed DIFF included |
| FusionReceiver.MetaOfPacket | src/osfx_fusion_state.c:472-585 | whatever packet arrives at whatever table, a body and metadata come together or not at all, and the metadata are those read from the packet |
| FusionReceiver.SentMeta | src/osfx_fusion_state.c:435-447 | the packet of any send reads as its sender's: command, aid, tid, the low 48 bits of the time, body length, both checksums good |
| FusionReceiver.DeliveredMeta | src/osfx_fusion_state.c:582-584 | what any receiver hands on for a sender's packet it hands on with exactly those metadata |
| FusionReceiver.OnlyItsOwnEntry | src/osfx_fusion_state.c:478-577 | no packet, however malformed, changes the entry of another aid or tid |
| FusionReceiver.ChecksumsOnlyReported | src/osfx_fusion_state.c:472-577 | packets that differ in their checksum bytes alone do the same to the table and hand on the same body |
| FusionReceiver.Ignored | src/osfx_fusion_state.c:472-581 | a short packet, any other command, and a DIFF or HEART without a filled entry change and hand on nothing |
| FusionReceiver.AnyHeart | src/osfx_fusion_state.c:569-577 | any HEART for a filled entry leaves the table and, whatever body it carries, hands on the text of the entry's slots under its own time if the entry has a header and the text fits |
| FusionReceiver.AnyFull | src/osfx_fusion_state.c:485-524 | any FULL hands on its body if it fits, and its entry then holds the slots if it parses and there is room; otherwise the table stays |
| FusionReceiver.AnyDiff | src/osfx_fusion_state.c:526-568 | any DIFF for a filled entry leaves what could be read of it in the cells and hands on a text exactly if all of it could be read and the text fits |
| FusionReceiver.DiffReadIff | src/osfx_fusion_state.c:532-563 | the DIFF bodies that are read, exactly: a mask followed by the pieces of the new values, with whatever tail; cells without a bit keep their value |
| FusionReceiver.DiffRefusedIff | src/osfx_fusion_state.c:546-563 | a DIFF is refused exactly at its first missing, cut or oversized piece, and the slots before that piece keep their new values |
| FusionState.FusionState.EncodeParsed | src/osfx_fusion_state.c:345-433 | chooses the packet kind, builds the wire body and updates the one entry |
| FusionState.FusionState.BuildDiff | src/osfx_fusion_state.c:402-431 | the loop that builds the DIFF while it overwrites the cache compares every slot with its old value |
| FusionState.FusionState.ApplyMask | src/osfx_fusion_state.c:532-563 | the in-place loop applies the DIFF as specified, stopping at the first fault |
| FusionState.FusionState.StoreParsed | src/osfx_fusion_state.c:359-375 | overwrites the entry up to the new counts and leaves stale cells behind them |
| FusionState.FusionState.CompareStructure | src/osfx_fusion_state.c:345-357 | true exactly when signature, slot count or a tag differs |
| FusionState.FusionState.AnySlotChanged | src/osfx_fusion_state.c:377-384 | true exactly when the cached slots up to the count are not the new ones |
| FusionState.FusionState.FindEntry | src/osfx_fusion_state.c:224-235 | the first used entry of the key, or none |
| FusionState.FusionState.AllocEntry | src/osfx_fusion_state.c:237-252 | claims the first unused entry zeroed and touches nothing else |
| FusionState.FusionState.Reset | src/osfx_fusion_state.c:254-262 | leaves the empty table |
| FusionState.ReconstructBody | src/osfx_fusion_state.c:171-222 | writes the text of the entry's slots under the decimal time, or nothing if it does not fit |
| FusionState.WriteMask | src/osfx_fusion_state.c:419-427 | the shifting loop writes the big-endian field |
| FusionState.ReadMask | src/osfx_fusion_state.c:540-544 | the shifting loop reads the big-endian field |
| Crc.CrcIsBitwise | src/osfx_solidity.c:80-118 | the byte-wise checksum is the bit-serial polynomial register over the message |
| Crc.BurstDetected | src/osfx_solidity.c:80-118 | two different messages of any length whose differences lie within as many consecutive bits as the checksum has never share a checksum |
| Crc.Residue | src/osfx_solidity.c:100-118 | a CRC-16 sent after its message is right exactly when the register over both is zero |
| Packet.ChecksumParameters | src/osfx_fusion_packet.c:51-60 | the empty message and single bits give the initial values 0 and 0xFFFF and the polynomials 0x07 and 0x1021 |
| Crc.ComputeCrc8 | src/osfx_solidity.c:80-98 | the nested byte and bit loops compute the specified CRC-8 |
| Crc.ComputeCrc16 | src/osfx_solidity.c:100-118 | the nested byte and bit loops compute the specified CRC-16 |
| Solidity.Text62RoundTrip | src/osfx_solidity.c:5-78 | every value in (-2^63, 2^63) decodes to itself |
| Solidity.Text62Length | src/osfx_solidity.c:5-39 | and prints in at most 12 characters, so a 13-byte buffer suffices |
| Solidity.Base62Digits | src/osfx_solidity.c:5-39 | the digits are 0-9, a-z, A-Z in this order, the highest place first, behind a minus sign |
| Solidity.Canonical62Iff | src/osfx_solidity.c:41-78 | decoding and printing again reproduces a text if and only if it is canonical and in range |
| Solidity.EncodeI64 | src/osfx_solidity.c:5-39 | the digit loop writes that text and a terminator if and only if it fits |
| Solidity.DecodeI64 | src/osfx_solidity.c:41-78 | the accumulating loop returns the value of the text modulo 2^64 as a signed number, or fails |
| Solidity.U32ToA | src/osfx_solidity.c:120-136 | writes the decimal numeral and a terminator if and only if it fits |
| Solidity.TsTokenRoundTrip | src/osfx_solidity.c:141-164 | the eight base64url characters determine the low 48 bits and contain no delimiter |
| Solidity.TokenAt | src/osfx_solidity.c:141-164 | character k is the URL-safe letter of the k-th highest six of the 48 bits |
| Solidity.B64UrlTs6 | src/osfx_solidity.c:141-164 | the six-byte, two-group encoder writes that token (section 5 of RFC 4648) |
| PayloadCrypto.MaskInvolution | src/osfx_payload_crypto.c:5-28 | masking twice with the same key and offset gives the payload back |
| PayloadCrypto.MaskLaw | src/osfx_payload_crypto.c:21-27 | masked and clear byte i differ by the key byte at (i + offset mod 32) mod the key length and by offset mod 32; without a key they are equal |
| PayloadCrypto.MaskedAlikeIff | src/osfx_payload_crypto.c:25-27 | two keys mask a payload alike if and only if they agree at every position it meets |
| PayloadCrypto.UnmaskedIff | src/osfx_payload_crypto.c:25-27 | unmasking with another key gives the payload back under that same condition |
| PayloadCrypto.XorPayload | src/osfx_payload_crypto.c:5-28 | the loop writes the masked payload and nothing else |
| Commands.SecureVariantIsMasked | src/osfx_handshake_cmd.c:17-41 | the secure variant is recognised as masked exactly for data commands, and normalizes back |
| Commands.DictReadyFields | src/osfx_handshake_cmd.c:107-131 | the dispatcher reads back the fields of the replies |
| Commands.ReplyBytes | src/osfx_handshake_cmd.c:52-131 | each reply byte by byte: its command, then its fields high byte first |
| Commands.BuildNack | src/osfx_handshake_cmd.c:52-69 | writes the refusal and its reason, or nothing if they do not fit the buffer |
| Commands.BuildIdAssign | src/osfx_handshake_cmd.c:71-79 | writes the assignment, or nothing into a buffer under 7 bytes |
| Commands.BuildTimeResponse | src/osfx_handshake_cmd.c:90-105 | writes the 64-bit time, or nothing into a buffer under 11 bytes |
| Commands.BuildDictReady | src/osfx_handshake_cmd.c:107-122 | writes aid and timestamp, or nothing into a buffer under 13 bytes |
| Commands.BuildChannelAck | src/osfx_handshake_cmd.c:124-131 | writes the aid, or nothing into a buffer under 5 bytes |
| Packet.FrameRoundTrip | src/osfx_fusion_packet.c:67-122 | for every header, body and key, extraction returns body and header with the time modulo 2^48 whenever the command byte on the wire announces the masking mode, the mask offset being recovered from the CRC-8 |
| Packet.AssembleDecodes | src/osfx_fusion_packet.c:124-171 | every assembled frame decodes to its own fields with a good CRC-16, whatever CRC-8 it carries |
| Packet.FrameBytes | src/osfx_fusion_packet.c:32-64 | a frame byte by byte: command, route count 1, aid, tid, 48-bit time, body, CRC-8 of the body, CRC-16 of all before it, high bytes first |
| Packet.RoutedDecodes | src/osfx_fusion_packet.c:124-171 | a frame with any route of up to 255 entries decodes to its first entry as source and to the fields behind its last one |
| Packet.DecodedIsAssembled | src/osfx_fusion_packet.c:124-171 | a frame with one route entry and a good CRC-16 is the frame of the fields read from it |
| Packet.ExtractIff | src/osfx_fusion_packet.c:193-240 | of frames with one route entry, extraction yields body and header exactly from those that an encoder writes for them under that key, if the buffer holds the body |
| Packet.OtherKeyOpensIff | src/osfx_fusion_packet.c:67-240 | a secure frame opened with another key gives its body back if and only if the two keys agree at the positions the body meets |
| Packet.Crc16OkIsResidue | src/osfx_fusion_packet.c:150-168 | crc16_ok holds exactly when the register over the whole frame, checksum included, is zero |
| Packet.BurstFlagged | src/osfx_fusion_packet.c:150-168 | any change of a good frame within 16 consecutive bits is refused or flagged, and never extracted with any key |
| Packet.BodyBurstFlagged | src/osfx_fusion_packet.c:150-168 | in clear frames the CRC-8 flag catches any change within 8 consecutive body bits |
| Packet.EncodeFull | src/osfx_fusion_packet.c:19-65 | writes the clear frame if and only if the buffer holds body plus 16 bytes |
| Packet.EncodeEx | src/osfx_fusion_packet.c:67-122 | writes the clear or masked frame under the same condition |
| Packet.ExtractBody | src/osfx_fusion_packet.c:193-240 | yields body and header, or fails on a bad checksum or a short buffer |
| Template.RoundTripIff | src/osfx_template_grammar.c:38-232 | decoding inverts encoding if and only if every field avoids its delimiters and fits its width, extensions included |
| Template.ReadMsgClean | src/osfx_template_grammar.c:117-232 | whatever text is accepted, the message read out could have been printed |
| Template.ReadAcross | src/osfx_template_grammar.c:117-232 | a message printed by one build, with empty segments and an open one behind it, is read by another: with the fields both carry if it has at most four slots, not at all otherwise |
| Template.EncodeMsg | src/osfx_template_grammar.c:38-115 | the appending code succeeds if and only if the text and its terminator fit, and writes exactly it |
| Template.DecodeMsg | src/osfx_template_grammar.c:117-232 | the decoder, with its unbounded searches compared with the segment end afterwards, reads what the grammar says from every C string |
| Template.DecodeSlot | src/osfx_template_grammar.c:169-225 | three chained searches from the segment start find the fields of the segment, or the segment is refused |
| Template.FindNextExtMarker | src/osfx_template_grammar.c:6-27 | three unbounded searches find the nearest mark before the segment end |
| Facade.MessageTransparency | src/osfx_core_facade.c:464-714 | after any faithful run the receiver decodes the message that was encoded; after DIFF or HEART with a decimal time and the slots the fusion parser accepts; a FULL needs room for its terminator only |
| Facade.TimeReadsBack | src/osfx_fusion_state.c:171-222 | the decimal time of a DIFF or HEART body reads back as the 48-bit time of the send |
| Facade.TimeArrivesIff | src/osfx_core_facade.c:597-602 | the time of a multi-sensor message arrives from a FULL if and only if its switch is on or it is 0, and from a DIFF or HEART, whatever the switch, if and only if it is below 2^48 |
| Facade.TransparentIff | src/osfx_core_facade.c:464-714 | node, state, sensors, units and values survive DIFF and HEART if and only if the fusion parser accepts every slot |
| Facade.AcceptedIff | src/osfx_fusion_state.c:98-141 | acceptance of any clean printed slot is a matter of three lengths: its id, and the two parts into which the last ':' of the text behind '>' cuts it, be that one inside a message or URL |
| Facade.AcceptedPlainIff | src/osfx_fusion_state.c:98-141 | without ':' in value or extension these are the id, state and unit, and value with extensions |
| Facade.SensorTransparency | src/osfx_core_facade.c:217-340 | one sensor's id, unit and scaled value come back exactly after any faithful run, whatever the packet kind and however long the fields |
| Facade.SensorHeadReadsBack | src/osfx_core_facade.c:76-119 | the node of a single-sensor body reads as the sender's aid and its time as the low 48 bits of the time |
| Facade.SensorOutIff | src/osfx_core_facade.c:322-339 | after any faithful run the decoder hands out id, unit and value if and only if they fit the caller's buffers |
| Facade.MultiTransparency | src/osfx_core_facade.c:464-714 | after any faithful run, for every setting of the payload switches, the node fields and slots that the build sends come back if the fusion parser accepts every slot, and the scaled values if the build sends values |
| Facade.MultiOutIff | src/osfx_core_facade.c:622-714 | the multi-sensor decoder hands out every value if and only if node, state and number of sensors fit what the caller gave |
| Facade.MultiMeta | src/osfx_core_facade.c:508-510 | what is handed on comes with the sender's aid and 48-bit time, and with its tid if the build sends it and 0 otherwise |
| Facade.FieldsArriveIff | src/osfx_core_facade.c:508-595 | under the same conditions node id, node state and each id, state, unit, value, geohash, message and URL arrive as given if and only if the switch is on or the field equals its stand-in; so no unit but "NA" arrives while units are off |
| Facade.SlotGivesBackIff | src/osfx_core_facade.c:530-594 | the same for one slot of the encoder |
| Facade.DefaultBuildDropsUnit | src/osfx_core_facade.c:554-557 | in the shipped build a reading in "kPa" is sent in "NA" |
| Facade.SensorMsgText | src/osfx_core_facade.c:76-119 | the hand-written single-sensor body is the one the template encoder prints |
| Facade.EncodeSensorAuto | src/osfx_core_facade.c:217-288 | prints and sends the one-sensor message, or leaves the table alone if it does not fit |
| Facade.DecodeSensorAuto | src/osfx_core_facade.c:290-340 | returns the first sensor of what the fusion layer received, or fails on an output buffer |
| Facade.BuildSlots | src/osfx_core_facade.c:520-595 | the loop fills the slots, switched-off fields with their stand-ins, or fails if and only if some field that is sent is too wide |
| Facade.EncodeMultiAuto | src/osfx_core_facade.c:464-620 | prints and sends the message that the switches leave of all readings, under template 0 if template ids are off, or leaves the table alone |
| Facade.DecodeMultiAuto | src/osfx_core_facade.c:622-714 | returns node, state, slots and values of what the fusion layer received, or fails on an output buffer |
| SensorBody.SensorTextReadIff | src/osfx_core_facade.c:137-215 | scanning the single-sensor body returns id, unit and value exactly if and only if the id has no '>', the unit no ':', neither is empty and both fit |
| SensorBody.DecodeSensorBody | src/osfx_core_facade.c:137-215 | the position-scanning code computes that reading on every byte string |
| SensorBody.WriteSensorText | src/osfx_core_facade.c:76-119 | the copying code writes the body if and only if it fits 256 bytes with a terminator |
| SecureFacade.SecureTransparentIff | src/osfx_core_facade.c:342-462 | with one key on both sides a secure packet is read back exactly if and only if its body is at most 192 bytes and its names are readable and fit |
| SecureFacade.PlainPacketIff | src/osfx_core_facade.c:41-135 | a plain packet is built exactly if the body is under 256 bytes and the frame fits, and any extraction gives body, aid, tid and 48-bit time back |
| SecureFacade.SecurePacketIff | src/osfx_core_facade.c:342-428 | a secure packet is built exactly if there also is a key; that key opens it to body, aid, tid and time, and another one exactly if it agrees where the body meets it |
| SecureFacade.SecureSensorDelivered | src/osfx_core_facade.c:342-462 | once both stores hold a key of one timestamp, after any further runs of both sides that do not rekey a secure sensor packet delivers id, unit and value |
| SecureFacade.EncodeSensor | src/osfx_core_facade.c:41-135 | writes the plain FULL frame of the body, or fails on a size |
| SecureFacade.EncodeSensorSecure | src/osfx_core_facade.c:342-428 | writes the masked frame under the session's key, or fails without a key or on a size |
| SecureFacade.DecodeSensorSecure | src/osfx_core_facade.c:430-462 | unmasks with the key of the frame's aid and reads the body |
| SecureSession.ReachableStoresAreSound | src/osfx_secure_session.c:96-205 | in every reachable store there is one session per aid, a key exactly when the dictionary is ready, and each key is derived from the time kept with it |
| SecureSession.ApplyLookup | src/osfx_secure_session.c:9-30 | every call changes the session of its own aid, if there is room, and no other |
| SecureSession.CleanupLookup | src/osfx_secure_session.c:104-117 | cleanup drops exactly the expired sessions |
| SecureSession.ComputeKey | src/osfx_secure_session.c:45-52 | the 32-bit generator loop fills the key of the specification |
| SecureSession.SecureStore.FindOrAlloc | src/osfx_secure_session.c:9-30 | one pass finds the session of the aid or claims the first unused one, cleared |
| SecureSession.SecureStore.NotePlaintextSent | src/osfx_secure_session.c:119-130 | on the array: a new pending key for the aid, invariant kept, refused only by a full store |
| SecureSession.SecureStore.ConfirmDict | src/osfx_secure_session.c:132-149 | on the array: the pending key, derived now if there was none, becomes the key |
| SecureSession.SecureStore.MarkChannel | src/osfx_secure_session.c:151-160 | on the array: the channel is confirmed, with or without a key |
| SecureSession.SecureStore.CheckAndUpdateTimestamp | src/osfx_secure_session.c:187-205 | on the array: accepted exactly if newer than the mark or the mark is zero |
| SecureSession.SecureStore.CleanupExpired | src/osfx_secure_session.c:104-117 | on the array: the loop clears exactly the expired sessions |
| SecureSession.SecureStore.EncryptionDue | src/osfx_secure_session.c:162-168 | true exactly when the aid's session has dictionary and key |
| SecureSession.SecureStore.ReadKey | src/osfx_secure_session.c:170-177 | the key of the aid's session, if set |
| Dispatch.Classify | src/osfx_handshake_dispatch.c:42-210 | one call on the shared store and allocator does to both, and answers, what the specification of the step says |
| Dispatch.ClassifyData | src/osfx_handshake_dispatch.c:67-121 | the same for the data branch and its order of store calls |
| Dispatch.ClassifyControl | src/osfx_handshake_dispatch.c:123-209 | the same for the control branches |
| Dispatch.IdRequestAnswer | src/osfx_handshake_dispatch.c:154-178 | an address request is answered with ID_ASSIGN exactly when a lease is granted, echoing the sequence number, for an aid that was free or expired and is leased afterwards; an exhausted pool gets no answer |
| Dispatch.RefusalsLeaveWorld | src/osfx_handshake_dispatch.c:67-77 | a packet refused as malformed, damaged or unsupported changes neither store nor allocator |
| Dispatch.KindIff | src/osfx_handshake_dispatch.c:57-209 | the first byte alone decides whether a packet is data, control or unknown, and an empty one is an error |
| Dispatch.ControlAcceptedIff | src/osfx_handshake_dispatch.c:123-209 | a packet that is no data packet is accepted exactly under the length of its command and with the object it speaks to |
| Dispatch.IdRequestRefused | src/osfx_handshake_dispatch.c:154-164 | a refused address request is answered with a NACK under its own sequence number, or 0 if it has none |
| Dispatch.DataWithoutStore | src/osfx_handshake_dispatch.c:67-82 | without a session store a data packet is accepted exactly if it decodes with a good CRC-16 |
| Dispatch.EchoedReplies | src/osfx_handshake_dispatch.c:126-152 | PING and TIME_REQUEST are answered with their own sequence number, the latter with the dispatcher's time, and change nothing |
| HandshakeRuns.StoreIsPerAid | src/osfx_handshake_dispatch.c:83-200 | the store is a bank of independent sessions: a packet moves its subject's session by one machine and leaves all others |
| HandshakeRuns.RunKeepsSound | src/osfx_secure_session.c:104-205 | the store invariant holds at every moment of every run of packets, sends and cleanups |
| HandshakeRuns.KeptGrows | src/osfx_secure_session.c:132-205 | while a session lasts no flag is lowered and the replay mark never goes back |
| SessionLifetime.TouchIsSeen | src/osfx_secure_session.c:119-205 | whatever is for an aid and finds room, a refused replay included, leaves its session last seen at that moment |
| SessionLifetime.LastsIff | src/osfx_secure_session.c:104-117 | after the last event for an aid, at time t, its session is there unchanged if and only if no cleanup since came more than its expiry after t |
| SessionLifetime.NeverTouched | src/osfx_secure_session.c:9-30 | an aid that no event of a run is for gets no session |
| SessionLifetime.RoomIff | src/osfx_secure_session.c:9-30 | an aid finds room if and only if it has a session or some place is unused |
| SessionLifetime.VerdictIff | src/osfx_handshake_dispatch.c:83-119 | the exact reason of every refusal of a data packet, by its time, the mark, the room and the key; a newer masked packet without a key moves the mark |
| SessionLifetime.StateFollows | src/osfx_secure_session.c:119-168 | the state of a session is the last step of the handshake: a plaintext frame sent, a dictionary or a channel confirmed by a reply or by the peer |
| HandshakeRuns.AtMostOneReply | src/osfx_handshake_dispatch.c:95-119 | over any run an aid gets at most one SECURE_DICT_READY and at most one SECURE_CHANNEL_ACK while its session lasts |
| HandshakeRuns.OneReplyPerAid | src/osfx_handshake_dispatch.c:95-119 | without cleanups the bound is for the whole run, from any sound store |
| HandshakeRuns.SecureNeedsDictionary | src/osfx_handshake_dispatch.c:105-111 | from an empty store, no secure data packet is accepted before a dictionary confirmation for its aid |
| HandshakeRuns.TimestampsIncrease | src/osfx_secure_session.c:187-205 | while an aid's session lasts, everything accepted after a packet with a nonzero timestamp is strictly newer |
| HandshakeRuns.TimestampsIncreaseThroughout | src/osfx_secure_session.c:187-205 | without cleanups that holds for the whole run, from any sound store |
| HandshakeRuns.ExpiredReplayAcceptedIff | src/osfx_secure_session.c:104-117 | once a cleanup has dropped the session, the packet accepted before is accepted again if and only if it is a plaintext one |
| HandshakeRuns.ReplayAcceptedIff | src/osfx_handshake_dispatch.c:83-93 | an accepted packet delivered again is accepted again if and only if its timestamp is zero |
| KeyLifetime.KeyAfterPacket | src/osfx_handshake_dispatch.c:180-191 | to an existing key any packet does nothing, except a SECURE_DICT_READY for the aid, which installs the key of the pending timestamp |
| KeyLifetime.KeyChangesIff | src/osfx_secure_session.c:132-149 | an event changes the key of a session that outlives it if and only if it is a SECURE_DICT_READY for the aid while a differently folding timestamp is pending |
| KeyLifetime.KeyIsFinalIff | src/osfx_secure_session.c:132-149 | through any stretch of any run in which its session lasts a key stays what it is if and only if no such event occurs |
| KeyLifetime.SilenceKeepsKey | src/osfx_secure_session.c:119-149 | no such event occurs at a node that sends no plaintext for an aid once it has a key for it |
| KeyLifetime.LatePlaintextRekeysIff | src/osfx_secure_session.c:119-149 | from an empty store a confirmation at t, a plaintext send at u and any further confirmation end with the key of u, another key if and only if t and u fold differently |
| KeyLifetime.KeyChanges | src/osfx_secure_session.c:119-149 | a concrete run from an empty store whose key changes |
| KeyDerivation.KeysEqualIff | src/osfx_secure_session.c:45-52 | for one aid two timestamps derive the same key if and only if they fold alike, that is, the exclusive ors of their two words are equal |
| KeyDerivation.KeysMeetIff | src/osfx_secure_session.c:45-52 | two aids, each at its own time, derive the same key if and only if aid and folded time mix to the same word |
| KeyDerivation.DevicesSeparate | src/osfx_secure_session.c:45-52 | at one time two aids share a key if and only if they are equal |
| KeyDerivation.KeyBytes | src/osfx_secure_session.c:45-52 | every key byte in closed form: the high byte of a linear function of the seed, reduced once at the end |
| KeyDerivation.KeyOfSeven | src/osfx_secure_session.c:45-52 | the key of aid 7 and time 1 begins with the bytes 61, 210, 237, 251, 64, 201 |
| KeyDerivation.SeedsSeparate | src/osfx_secure_session.c:45-52 | the first six key bytes already determine the 32-bit seed of the generator |
| KeyDerivation.ShortTimesSeparate | src/osfx_secure_session.c:45-52 | below 2^32 only equal timestamps derive the same key |
| HandshakeRuns.AssignedAgain | src/osfx_handshake_dispatch.c:165-177 | over any run an aid is assigned a second time only if an address request arrived later than the end of the first lease |
| KeyAgreement.KeysAfterHandshake | src/osfx_handshake_dispatch.c:95-104 | after a plaintext frame that is new to the server and its delivered answer each side holds the key of its pending timestamp, or of the frame's 48-bit time if it had none |
| KeyAgreement.FirstContact | src/osfx_secure_session.c:119-149 | two fresh parties, one noted plaintext frame below 2^48 and its answer always end with the key of that timestamp on both sides |
| KeyAgreement.AgreementIff | src/osfx_secure_session.c:119-149 | the keys are equal if and only if those two timestamps fold alike |
| KeyAgreement.SecureFramesRecovered | src/osfx_fusion_packet.c:67-122 | if those two timestamps fold alike, after any further runs of both that do not rekey, every secure frame of either side is recovered by the other |
| KeyAgreement.TwoOutstandingAgreeIff | src/osfx_secure_session.c:119-130 | with two plaintext frames outstanding and the first delivered, two fresh parties end with one key if and only if the two times fold alike |
| KeyAgreement.TwoOutstandingDisagree | src/osfx_secure_session.c:119-130 | the same handshake with the times 1 and 2 ends with different keys |
| KeyAgreement.SecureFrameAcceptedIff | src/osfx_handshake_dispatch.c:83-119 | a party with a key accepts a secure frame if and only if its 48-bit time is newer than the last accepted one, or there is none |
| KeyAgreement.PlaintextFrameAcceptedIff | src/osfx_handshake_dispatch.c:67-104 | the server accepts a plaintext frame under the same condition, given room in its store |
| IdAllocator.AllocateIsLeast | src/osfx_id_allocator.c:187-220 | after expired leases are dropped, allocation succeeds if and only if some aid of the range is unused and an entry is free; it grants the smallest such aid, and the ledger of leases gains that one and nothing else |
| IdAllocator.ExaminedBound | src/osfx_id_allocator.c:196-218 | however wide the range, the candidates up to the stop are no more than the aids in use, plus one |
| IdAllocator.ExaminedToStop | src/osfx_id_allocator.c:196-218 | after cleanup they are exactly the candidates from the start to the one granted |
| IdAllocator.RunKeepsExclusive | src/osfx_id_allocator.c:175-247 | over any mix of allocate, touch, release, cleanup and policy changes the aids in use stay distinct and in range |
| IdAllocator.LeaseIsHeld | src/osfx_id_allocator.c:175-247 | a leased aid stays leased and is not handed out through any run without its release and without an allocation or cleanup later than its current lease end |
| IdAllocator.ReleaseDrops | src/osfx_id_allocator.c:222-229 | release removes exactly that lease and succeeds exactly if there was one |
| IdAllocator.TouchExtends | src/osfx_id_allocator.c:231-247 | touch moves exactly that lease's end |
| IdAllocator.LeaseBounds | src/osfx_id_allocator.c:29-74 | adaptive leases and extensions keep the policy's bounds |
| IdAllocator.LoadShortens | src/osfx_id_allocator.c:50-73 | more load never lengthens a lease: a higher allocation count and more aids in use give a lease at most as long |
| IdLease.LeaseByLoad | src/osfx_id_allocator.c:50-73 | the exact lease by the load: the default times the factor of each threshold that is reached, in whole seconds within the bounds |
| IdLease.IdleLease | src/osfx_id_allocator.c:34-74 | below both thresholds, and always without adaptation, the lease is the default |
| IdLease.FirstGrant | src/osfx_id_allocator.c:102-220 | a new allocator grants its lowest address until a full default lease later and opens a window with one grant |
| IdLease.WindowAfterGrant | src/osfx_id_allocator.c:43-49 | the rate window counts the grants and starts anew with the first one after its end |
| IdLease.GrantEndByLoad | src/osfx_id_allocator.c:43-56 | a grant is measured by the grants of the running window before it and by the number of leases that have not ended |
| IdLease.CountIsLedgerSize | src/osfx_id_allocator.c:8-20 | the count of aids in use is the number of leases |
| IdLease.TouchEnd | src/osfx_id_allocator.c:231-247 | a touch ends the lease at its moment plus the default times the policy's factor, in whole seconds within the bounds |
| IdLease.SeenWhen | src/osfx_id_allocator.c:202-246 | the entry of an aid keeps the moment of its grant or of its last touch |
| IdAllocator.Allocator.Allocate | src/osfx_id_allocator.c:187-220 | on the array: the candidate loop does what the specification says, invariant kept, and its counted turns are at most the aids in use after cleanup, plus one |
| IdAllocator.Allocator.ComputeLease | src/osfx_id_allocator.c:29-74 | brings the rate window up to date and measures the lease |
| IdAllocator.Allocator.Release | src/osfx_id_allocator.c:222-229 | on the array: clears the entry of the aid |
| IdAllocator.Allocator.Touch | src/osfx_id_allocator.c:231-247 | on the array: moves the end of the lease, clipped to the policy |
| IdAllocator.Allocator.CleanupExpired | src/osfx_id_allocator.c:175-185 | on the array: the loop clears exactly the expired entries |
| IdAllocator.Allocator.SetPolicy | src/osfx_id_allocator.c:123-147 | settings out of range fall back to their defaults; leases and range are kept |
| IdAllocator.Allocator.constructor | src/osfx_id_allocator.c:102-121 | a new allocator has the default policy and no leases |

## Left out

- Unit standardization and the multiplication and division of values by 10000: the scaled value is an integer and the unit an opaque string here.
- File and LittleFS storage and the text persistence of sessions, leases and rules, with the hex codec they use: the invariants are for runs without a load.
- CLI, platform runtime, plugins, port forwarder, service runtime, transporter, protocol matrix, and the easy and glue wrappers: routing and string formatting with easier claims.
- `osfx_ops.c`, the catalog, examples, tools, scripts and CMake presets: tables and build plumbing. Presets with 2 * MAX_SENSORS > MAX_VALS (such as cmake/arch_presets/cortexm4.cmake:12-14) are outside the model.
- The id pool request and response and the parsers of ID_ASSIGN and TIME_RESPONSE: no modelled function calls them.
- `osfx_id_set_policy`: the short form of the modelled `osfx_id_set_policy_ex`.
- Null-pointer checks: a missing store or allocator of the dispatcher is modelled, other pointers are always valid.
- Table sizes and buffer widths other than the header defaults; the payload switches are parameters.
- IdAllocator.Allocator.ComputeLease: factors and thresholds are real numbers, so the rounding of `double` is not modelled.
- IdAllocator.Allocator.Allocate: needs end_id < 2^32 - 1, because the loop counter of the source wraps otherwise; lease ends wrap at 2^64 as in the source.
- Solidity.EncodeI64: excludes the smallest 64-bit value, whose negation is undefined in C.
- FusionText.ParseBodySlots: header signatures are byte strings; the cache compares them up to a NUL, as strnlen does.
- FusionState.FusionState.DecodeApply: promises neither rejection of frames with bad checksums nor atomicity, because the source has neither.
- SecureSession.SecureStore.MarkChannel: the SECURE state does not imply a key, because the source sets it unconditionally.
