# Verification of the SNMP agent

This project models the SNMP agent of the package — the BER codec and request handlers of
`src/protocol.c`, the MIB table of `src/mib.c`, and the OID order and text form of `src/utils.c` —
and proves what a manager can rely on, from single octets up to whole walks over the wire.

The model keeps the form of the C code. Packet and value buffers are arrays written in place;
`client_t`, `request_t`, `response_t` and `g_mib` are classes; a `data_t` is a pointer with two
lengths, so values copied into a response share their buffers with the table. Every method is proved
against a specification function over sequences, and the laws are lemmas about those functions.

| files | content |
|---|---|
| Types, Machine | constants, value types, 32-bit arithmetic, shifts |
| Ber, IntegerCodec, OidCodec | X.690 headers, nesting, integers and OIDs, and what the agent's forms mean |
| OidOrder, Answers, AnswerLaws | `oid_cmp`, the two searches, GET, GETNEXT and GETBULK as answers; their laws |
| Messages, RoundTrip | the message as a tree, its size, what is sent of it, decoding as a function, encode/decode laws |
| Grammar, OverrunGrammar | the language of accepted packets; that of packets on which the decoder reads beyond its buffer |
| Decoder, Writer, Encoder | the decoding, writing and encoding code |
| OidText | `oid_ntoa` and `oid_aton` |
| Mib, MibTable | building, updating and searching the table; the table of this agent |
| Handlers, Snmp | the request handlers and `snmp()` |
| RequestLaws | what the decoder takes and reads, with types, limits and order of fields written out |
| AgentLaws, ReplyLaws | whole exchanges: arriving packets, conservation, walks; replies as octets |
| WireLaws | what each request is answered, with types, statuses and exceptions written out |

The main results:

- `Snmp.Serve`: the code of `snmp()`, with all buffers and aliasing, computes the function
  `Snmp.Respond` of the table, the configuration, the packet and the octets behind it in its buffer.
- `Encoder.EncodeResponse`: the backward encoder succeeds exactly when the closed-form size is at most
  2048, and its packet is then the forward serialization of the message tree, octet for octet; where the
  recorded size of a name is too large, old octets of the buffer stand in front of its value.
  `Messages.SentAsMeant`: it is the message meant if and only if all recorded sizes are exact.
- `Grammar.AcceptedLanguage`: the decoder accepts exactly the packets put together from pieces described
  without a cursor, and what lies behind a packet does not matter. `OverrunGrammar.OverrunLanguage`:
  likewise for the packets on which it reads beyond its buffer. `RoundTrip.MessageRoundTrip`: what is
  encoded decodes to itself.
- `AnswerLaws.BulkClosedForm` and `AnswerLaws.BulkEnds`: GETBULK is iterated successor, and ends within
  one round more than the table has entries, on any table and for any limit.
- `RequestLaws.LooseMessageLaw`: which serialized messages are taken, for all PDU types, lengths, versions,
  communities and numbers of bindings, and what is read; all others are refused.
- `WireLaws.AccessLaw`, `WireLaws.OtherRequests`, `WireLaws.GetLaw`, `WireLaws.NextLaw` and
  `WireLaws.BulkWireLaw`: what every packet that is taken is answered, octet for octet, by PDU type, version,
  community and table; `WireLaws.ResponseIsRead`: what a manager reads in it.
- `AgentLaws.SdkWalk`: a GETNEXT walk through encoding, `snmp()` and decoding names every cell of this
  agent once and in order, whatever values the cells hold and whatever the packet buffer held before.

## Where the code departs from what it is meant to do

Each of these is kept in the model and stated as a lemma.

- The guard against reading past the packet is unsigned, so it means what it says only for lengths up to
  one above the packet size (`Messages.GuardMeaning`). It lets a longer element through, with one of three
  outcomes. A value is skipped without being read, so an overlong last value is accepted, with the cursor
  behind the end of the packet (`Grammar.EndsWithPacket`, `Grammar.OpenValueAccepted`). An integer, name or
  community is read on behind the packet; if it ends within the 2048 octets of the buffer, the request is
  refused because nothing follows (`OverrunGrammar.IntegerWithinBuffer`). An integer or name that goes on
  beyond the buffer is read out of bounds, and the model stops with Overrun (Undefined in `Snmp`); a name is
  refused before that if it has too many subidentifiers, which may depend on what an earlier packet left in
  the buffer (`OverrunGrammar.OverrunLanguage`, `OverrunGrammar.IntegerBeyondBuffer`,
  `OverrunGrammar.NameDependsOnBuffer`). `size_t` is taken to have 32 bits; a wider one gives the same
  meaning.
- `oid_cmp` reads subids as signed with -1 for "ended". It is a total preorder on all OIDs, but the
  lexicographic order exactly on sign-safe pairs, which all OIDs with subids below 2^31 are
  (`OidOrder.CmpIsLexicographic`, `OidOrder.CmpMisorders`).
- A name is sent in a slot of the size it had in the request. For one that came with superfluous octets the
  slot is larger than the name, and the packet is not the message it stands for: the octets between hold what
  the buffer held before, and count as the start of the value. For error replies that happens exactly if some
  name is inexact (`ReplyLaws.RefusalRoundTrip`), for others exactly if a name sent back under an exception is
  (`ReplyLaws.SentExactly`). Such a packet may still decode, with another value
  (`ReplyLaws.GapInRefusal`).
- Counters, gauges and time ticks are written without a leading zero octet, so a BER reader misreads
  those whose first octet has its top bit (`IntegerCodec.UnsignedReadAsSigned`).
- The length of a variable binding's own sequence is not checked (`RoundTrip.BindingLengthIgnored`).
- `snmp_packet_complete` answers -1 where it could wait for the rest of a packet
  (`AgentLaws.ArrivingPacket`), and 0 where there is nothing to wait for (`AgentLaws.WaitsForNothing`).
- Error indexes count from zero (`AgentLaws.VersionOneGet`, `AgentLaws.VersionOneNext`).
- A failing `mib_build_entry` leaves the entry it has begun in the table (`Mib.Mib.BuildEntry`). The size of a
  string's buffer is kept in a short, so a string of more than 32763 octets is never built
  (`Mib.BuildingFate`). A string that is refused for its length has overwritten the first octet of the value
  before (`Mib.Mib.UpdateEntry`).
- Printing an OID truncates at 161 characters; only then does reading it back fail
  (`OidText.TextRoundTrip`).

## Model

| member | source | states |
|---|---|---|
| IntegerCodec.IntegerRoundTrip | src/protocol.c:476-495 | the contents octets written for any 32-bit int have that value in two's complement |
| IntegerCodec.IntegerContentIsShortest | src/protocol.c:476-495 | among all octet strings of at most that length with that value, they are the only one (X.690 8.3.2) |
| IntegerCodec.UnsignedRoundTrip | src/mib.c:178-200 | the octets written for an unsigned value have that value when read as unsigned |
| IntegerCodec.UnsignedReadAsSigned | src/mib.c:178-200 | read as a BER integer they are right exactly if the top bit of the first octet is clear; modulo 2^32 also if there are four octets |
| OidCodec.OidRoundTrip | src/protocol.c:539-594 | for OIDs of 2 to 16 subids, decoding the contents written gives back the subids if and only if the OID is canonical |
| OidCodec.OidReencode | src/protocol.c:175-240 | any accepted contents re-encode to no more octets, and to the same octets exactly if they are minimal |
| OidCodec.GroupReencode | src/protocol.c:216-230 | the same for one subidentifier, whose value is reduced modulo 2^32 |
| OidOrder.OidCmp | src/utils.c:229-247 | the loop computes the comparison the laws below are about |
| OidOrder.CmpIsTotalPreorder | src/utils.c:229-247 | reflexive, antisymmetric and transitive, on all OIDs, with ties transitive too |
| OidOrder.CmpIsLexicographic | src/utils.c:229-247 | it is lexicographic comparison if and only if the pair is sign-safe |
| OidOrder.LowCmp | src/utils.c:229-247 | so it is for subids below 2^31, and 0 only for equal OIDs |
| OidOrder.CmpMisorders | src/utils.c:236-237 | an extension below its prefix, and two different OIDs that compare equal |
| Answers.FindNextFrom | src/mib.c:593-605 | the first entry that compares above the key, or the end |
| Answers.FindFrom | src/mib.c:577-591 | the first entry that is or extends the key, or the end |
| AnswerLaws.FindNextMonotone | src/mib.c:593-605 | on any table a larger key never finds an earlier successor |
| AnswerLaws.FindNextSplits | src/mib.c:593-605 | on an ascending table exactly the entries from the successor on are above the key |
| AnswerLaws.NextOfEntry | src/mib.c:593-605 | the successor of an entry is the entry after it |
| AnswerLaws.BlockHasNoGaps | src/mib.c:577-591 | on an ascending table the entries extending a key are contiguous |
| AnswerLaws.FindExact | src/mib.c:577-591 | an OID in the table is found before anything that extends it |
| AnswerLaws.GetAnswerMeaning | src/protocol.c:767-826 | GET gives an entry exactly if its OID is in the table, noSuchInstance exactly if the first entry below it is one subid longer, noSuchObject exactly if there is none or it is longer still |
| AnswerLaws.BulkClosedForm | src/protocol.c:943-976 | answer n + j*r + k is the successor of what repeater k reaches in j successors |
| AnswerLaws.BulkStart | src/protocol.c:904-932 | the first n answers are single successors; the number of all answers is n + rounds * r |
| AnswerLaws.CountUntilMeaning | src/protocol.c:943-976 | for any test, the steps are all up to the limit or up to the first that says stop; BulkLaw says what the test is |
| AnswerLaws.LiveRepeaterRanks | src/protocol.c:965 | every round a repeater survives uses up an entry above its starting point, on any table |
| AnswerLaws.BulkEnds | src/protocol.c:943-976 | at most one round more than the table has entries; a larger limit changes nothing |
| AnswerLaws.RepeaterReadsOn | src/protocol.c:943-976 | on an ascending table a repeater reads consecutive entries, then stays on the last under endOfMibView |
| AnswerLaws.BulkLaw | src/protocol.c:882-979 | the answers alone: single successors of the first names, then rows of one answer per other name, each going on from the row before; only the last row may have no entry, and has none if there are fewer rows than asked for; at most one row more than entries |
| AnswerLaws.NextIsBulk | src/protocol.c:831-872 | a version 2c GETNEXT has the answers of a GETBULK with counts 0 and 1 |
| Messages.SerializeMessage | src/protocol.c:666-738 | the serialized tree is the nesting of headers and fields the encoder prepends |
| Messages.ReplySizeIsExact | src/protocol.c:596-738 | the closed-form size is that of the serialized tree exactly if all recorded OID sizes are exact, and larger otherwise |
| Messages.SentAsMeant | src/protocol.c:596-738 | what is sent has the closed-form size for any old buffer, and equals the serialized message if and only if all recorded OID sizes are exact |
| Messages.GuardMeaning | src/protocol.c:246 | the unsigned guard means pos + length <= size exactly for lengths up to size + 1 |
| Messages.RecordedSize | src/protocol.c:180-190 | a decoded OID's recorded size is never below what is written, equal exactly if it came in as many octets, always for minimal contents |
| RoundTrip.HeadRoundTrip | src/protocol.c:42-116 | reading a shortest header anywhere in a packet gives its type and length |
| RoundTrip.IntegerElement | src/protocol.c:118-138 | reading an encoded integer anywhere in a packet gives its value and the position after it |
| RoundTrip.OidElement | src/protocol.c:175-240 | reading an encoded canonical OID gives its subids and the same recorded size |
| RoundTrip.MessageRoundTrip | src/protocol.c:257-426 | decoding a serialized message gives its version, community, PDU type, three integers and names, whatever lies behind it |
| RoundTrip.BindingLengthIgnored | src/protocol.c:385-393 | a name and value are accepted under any announced binding length above zero, though only one is right |
| RequestLaws.HeadLaw | src/protocol.c:42-116 | a shortest header is read exactly for the type octets written out |
| RequestLaws.LengthForms | src/protocol.c:86-113 | every form of a length that is read, and its value; all others are refused |
| RequestLaws.IntegerLaw | src/protocol.c:316-326 | an integer field is an INTEGER that is not empty |
| RequestLaws.VersionLaw | src/protocol.c:273-289 | the version is an INTEGER of one octet, 0 or 1 |
| RequestLaws.CommunityLaw | src/protocol.c:291-308 | the community is an OCTET STRING of at most 63 octets, read up to its first NUL, not empty |
| RequestLaws.NameLaw | src/protocol.c:394-406 | a name is an OBJECT IDENTIFIER with acceptable contents, recorded with the size of its shortest-header form |
| RequestLaws.NameLimits | src/protocol.c:190-236 | of an OID of any length, the decoder takes those with at most 16 subids and a first octet below 128, and reads the first two subids from that octet |
| RequestLaws.ValueLaw | src/protocol.c:407-420 | a value may have any known type; NULL is empty, and nothing else is |
| RequestLaws.BindingLaw | src/protocol.c:384-420 | a binding is a SEQUENCE that announces anything but zero |
| RequestLaws.LooseMessageLaw | src/protocol.c:257-426 | a message with any announced lengths, version, community, PDU type and number of bindings is read to its fields and names if and only if it meets the conditions written out, and refused otherwise |
| RequestLaws.MessageLaw | src/protocol.c:257-426 | the same for messages with the right lengths |
| RequestLaws.BulkPacketIsRead | src/protocol.c:257-426 | a GETBULK packet of 28 octets is read to its fields |
| Grammar.AcceptedLanguage | src/protocol.c:257-426 | a packet decodes to a message if and only if it is put together from pieces that say that message, overlong last values included |
| Grammar.MessageAccepted | src/protocol.c:257-426 | everything put together from the pieces is accepted, shortest forms or not, and where the cursor ends |
| Grammar.MessageComesApart | src/protocol.c:257-426 | every accepted packet comes apart into the pieces, which make up the whole packet |
| Grammar.EndsWithPacket | src/protocol.c:375-425 | the cursor ends at the size of an accepted packet if and only if its last value is as long as announced |
| Grammar.OpenValueAccepted | src/protocol.c:242-255 | a packet of 36 octets is accepted with the cursor at 4126 |
| OverrunGrammar.OverrunLanguage | src/protocol.c:118-240 | the decoder reads beyond the buffer if and only if the packet is put together from pieces up to the head of an integer or name that announces more than the guard can tell and the buffer has, and that name is not refused before |
| OverrunGrammar.CutOverruns | src/protocol.c:118-240 | everything put together that way overruns, or is refused if the name gives up |
| OverrunGrammar.CutComesApart | src/protocol.c:118-240 | every packet that overruns comes apart that way |
| OverrunGrammar.AcceptedForAllBuffers | src/protocol.c:257-426 | an accepted packet is read the same whatever lies behind it |
| OverrunGrammar.IntegerBeyondBuffer | src/protocol.c:118-138 | a packet on which an integer is read beyond the buffer |
| OverrunGrammar.IntegerWithinBuffer | src/protocol.c:118-138 | one on which it is read behind the packet only, and the request refused |
| OverrunGrammar.NameDependsOnBuffer | src/protocol.c:175-240 | one whose fate depends on the octets left in the buffer |
| Decoder.DecodeTypeLength | src/protocol.c:42-116 | the loop over length octets reads what HeadAt says |
| Decoder.DecodeInteger | src/protocol.c:118-138 | the two's complement value of contents of any length, modulo 2^32; behind the packet those of the buffer |
| Decoder.DecodeUnsigned | src/protocol.c:140-157 | the unsigned value of contents of any length, modulo 2^32; behind the packet those of the buffer |
| Decoder.DecodeString | src/protocol.c:159-173 | the contents up to the first NUL; a length below 64 never leads beyond the buffer |
| Decoder.DecodeSubid | src/protocol.c:216-230 | the octets up to the first without continuation bit as one base-128 number modulo 2^32; an unfinished one is an error, or an overrun if the buffer ends first |
| Decoder.SubidsWhole | src/protocol.c:207-232 | contents that are all there give the subidentifiers of the codec |
| Decoder.SubidsCut | src/protocol.c:207-232 | contents that the buffer cuts off are refused if they end too many groups, and overrun otherwise |
| Decoder.DecodeOid | src/protocol.c:175-240 | the nested loops consume exactly the announced length and give at most 16 subids; when they fail and when they leave the buffer |
| Decoder.DecodeVoid | src/protocol.c:242-255 | a value is skipped by its announced length whenever the guard lets it through |
| Decoder.DecodeBinding | src/protocol.c:384-420 | name and value of one binding, and the position after it |
| Decoder.DecodeRequest | src/protocol.c:257-426 | the request fields are those of ParseRequest on the whole packet, or the same kind of failure |
| Decoder.PacketComplete | src/protocol.c:987-1012 | the result is that of Completeness, which ArrivingPacket and WaitsForNothing explain |
| Writer.WriteOctets | src/protocol.c:491-493 | the shift loop writes the low-order octets, most significant first, and nothing else |
| Writer.EncodeHeader | src/protocol.c:520-537 | exactly the shortest X.690 header, and nothing else in the buffer |
| Writer.EncodeInteger | src/protocol.c:476-495 | exactly the shortest integer element |
| Writer.EncodeString | src/protocol.c:497-518 | exactly the octet string element, or nothing above 64 KiB |
| Writer.OidContentLength | src/protocol.c:544-557 | the predicted length is the length of the contents |
| Writer.WriteSubid | src/protocol.c:574-591 | the shift loop writes the minimal base-128 form of X.690 8.19.2 |
| Writer.EncodeOid | src/protocol.c:539-594 | exactly the OID element |
| Encoder.IntegerLength | src/protocol.c:434-445 | the predicted length is that of the element written |
| Encoder.SequenceHeaderLength | src/protocol.c:463-474 | the predicted length is that of the header written, up to 64 KiB |
| Encoder.StringLength | src/protocol.c:447-461 | the predicted length is that of the element written, up to 64 KiB |
| Encoder.EncodeVarbind | src/protocol.c:596-632 | fails exactly if the sizes do not fit below the cursor; changes nothing outside; the octets are those of the binding with the old octets of the gap in front of its value |
| Encoder.EncodeVarbinds | src/protocol.c:666-671 | the bindings with their gaps, last first, end up in order at the end of the buffer |
| Encoder.EncodeEnvelope | src/protocol.c:672-738 | every enclosing length is exact; fails exactly if the envelope does not fit |
| Encoder.EncodeMessage | src/protocol.c:666-738 | the serialized tree with the gaps at the end of the buffer, exactly if its closed-form size fits |
| Encoder.EncodeResponse | src/protocol.c:634-750 | success exactly up to 2048 octets, then that size and the serialized tree with the gaps; error replies carry the names asked for with NULLs |
| OidText.OidNtoa | src/utils.c:185-200 | the dotted text, cut at 161 characters |
| OidText.OidAton | src/utils.c:202-227 | the parse by repeated strtoul in base 0 |
| OidText.TextRoundTrip | src/utils.c:185-227 | reading the printed text gives the OID back, for all 32-bit subids, if and only if the text fits 161 characters |
| OidText.PrintedSubid | src/utils.c:185-200 | a dot and the signed decimal value of the subid, without leading zeros |
| OidText.ReadsHexadecimal | src/utils.c:202-227 | a number behind 0x is read in base 16, up to 2^32 - 1 |
| OidText.ReadsOctal | src/utils.c:202-227 | a number behind 0 is read in base 8, up to 2^32 - 1 |
| Mib.BuildingFate | src/mib.c:285-334 | the buffer allotted when an entry is built holds its first value, for strings exactly up to 32763 octets |
| Mib.EncodeElementInteger | src/mib.c:63-85 | the buffer starts with the same element the packet encoder writes, and its length is recorded |
| Mib.EncodeElementUnsigned | src/mib.c:178-200 | likewise for the unsigned types |
| Mib.EncodeElementString | src/mib.c:87-113 | likewise for strings |
| Mib.EncodeElementOid | src/mib.c:115-176 | likewise for OIDs |
| Mib.EncodingLaw | src/mib.c:285-334 | the encoded value for every type octet, with the value it stands for; all other types are refused |
| Mib.Mib.BuildEntry | src/mib.c:208-337 | exactly when it succeeds, is refused or spills over; on success one entry is added with exact OID size, its value and a buffer of its own; what failures leave |
| Mib.Mib.UpdateEntry | src/mib.c:340-425 | finds the first entry at or after the cursor, moves the cursor there, changes that value in place and nothing else in the table; what a refused string has changed; spills exactly if the value is larger than the buffer |
| Mib.Mib.MibFind | src/mib.c:577-591 | the loop computes the prefix search |
| Mib.Mib.MibFindNext | src/mib.c:593-605 | the loop computes the successor search |
| MibTable.CursorAgrees | src/mib.c:362-370 | searching from the cursor agrees with searching from the start exactly if the entry does not lie before the cursor |
| MibTable.CursorFollows | src/mib.c:362-370 | for any updates in table order every one finds what a full search would |
| MibTable.CellsMakeATable | src/mib.c:470-497 | the cells in build order are strictly ascending, canonical and below 2^31 |
| MibTable.CellNames | src/mib.c:454-497 | the names of the table, written out |
| MibTable.MibBuild | src/mib.c:454-506 | never fails; all cells under the names written out in SdkNames, ascending, zero, in buffers of their own |
| MibTable.MibUpdate | src/mib.c:508-575 | never fails after mib_build; a full update sets every value to any 32-bit word, a partial one nothing |
| Handlers.HandleGet | src/protocol.c:758-829 | the answers of GET are appended, or error and zero-based index set; fails exactly for lack of room |
| Handlers.HandleGetNext | src/protocol.c:831-872 | likewise for GETNEXT |
| Handlers.HandleSet | src/protocol.c:874-880 | noSuchName or noAccess, index 0 |
| Handlers.BulkSingles | src/protocol.c:904-932 | the first loop appends single successors of the non-repeaters |
| Handlers.BulkRound | src/protocol.c:945-972 | the inner loop appends one successor per repeater, advances each that has one and reports whether any had |
| Handlers.BulkRounds | src/protocol.c:943-976 | the outer loop appends all rounds to be sent, or fails exactly if they do not fit |
| Handlers.HandleGetBulk | src/protocol.c:882-979 | clamps negative counts; appends the answers of the closed form, or fails exactly if there are too many |
| Snmp.DecisionFits | src/protocol.c:1044-1070 | every name in a response has room for itself in its slot |
| Snmp.Handle | src/protocol.c:1028-1070 | the access checks and the dispatch decide as Decide does, and leave a response the encoder can take |
| Snmp.SendResponse | src/protocol.c:1071-1075 | what was decided goes out, octet for octet, or not at all |
| Snmp.Serve | src/protocol.c:1014-1078 | the packet buffer ends up as Respond says for the packet and what lay behind it; the table is unchanged |
| AgentLaws.ArrivingPacket | src/protocol.c:987-1012 | of any packet that is complete in the end: 0 for prefixes below 25 octets, -1 for longer proper prefixes, 1 for the whole |
| AgentLaws.WaitsForNothing | src/protocol.c:987-1012 | from 25 octets on, 0 exactly if more octets are there than the header announces, and then no continuation is complete; 1 exactly if as many |
| AgentLaws.MessageIsComplete | src/protocol.c:987-1012 | a serialized message is complete exactly from 25 octets on |
| AgentLaws.OpenValueAnswered | src/protocol.c:242-255 | the packet with an overlong last value is answered like the request in it |
| AgentLaws.Conservation | src/protocol.c:758-872 | a GET or GETNEXT is always answered with one binding per name; GET keeps the names; GETNEXT moves on or says endOfMibView |
| AgentLaws.VersionOneGet | src/protocol.c:767-826 | on an ascending table all entries asked for, or noSuchName with the zero-based place of the first name the table has not |
| AgentLaws.VersionOneNext | src/protocol.c:831-872 | on an ascending table the least entry above every name asked for, or noSuchName with the zero-based place of the first name with none above |
| AgentLaws.OneExchange | src/protocol.c:1014-1078 | the octets of a GETNEXT request give the octets of the reply with the successor if it fits, or endOfMibView, whatever the buffer held before |
| AgentLaws.WalkReadsOn | src/protocol.c:1014-1078 | n exchanges from any name on decode to the n entries that follow it, and break off exactly if one of them does not fit the buffer |
| AgentLaws.WalkIsComplete | src/protocol.c:1014-1078 | a walk from below the first entry names every entry once and in order if and only if every entry fits a reply; after the last the agent says that the table ends |
| AgentLaws.SdkTableIsWalkable | src/mib.c:454-575 | the table kept by mib_build and mib_update satisfies what a walk needs, for all values |
| AgentLaws.SdkWalk | src/mib.c:454-506 | the walk over this agent's table is complete |
| ReplyLaws.SentExactly | src/protocol.c:607-618 | a reply with values equals the serialized message if and only if all names sent back under an exception came in exact size, GETBULK included |
| ReplyLaws.AnswersExact | src/protocol.c:758-979 | which names are sent back under an exception, by request type and counts |
| ReplyLaws.ExactNamesAreSentWhole | src/protocol.c:607-618 | requests with exactly sized names get the serialized message of what was decided, or nothing |
| ReplyLaws.RefusalRoundTrip | src/protocol.c:643-654 | an error reply equals the serialized message if and only if the names came in exact size, and then decodes to those names, the status and the index |
| ReplyLaws.GapInRefusal | src/protocol.c:607-618 | a name with leading zero groups is accepted; its refusal holds two old octets of the buffer, is not the message meant, and decodes if those start a value |
| WireLaws.TransmitLaw | src/protocol.c:634-750 | a response is version, community and a 0xA2 PDU with id, status, index and bindings in this order, at most 2048 octets |
| WireLaws.ResponseIsRead | src/protocol.c:634-750 | a manager reads in a response the version, community, id, type 0xA2, status, index and names, field by field |
| WireLaws.SendsWhole | src/protocol.c:596-632 | without inexact names the old contents of the buffer do not show in a response |
| WireLaws.MessagesThatFail | src/protocol.c:1024-1026 | a serialized message whose version, community, PDU type and number of names are among those written out is taken, and any other dropped as a failure |
| WireLaws.AccessLaw | src/protocol.c:1028-1042 | for any packet: a wrong community in version 2c gets status 6 and version 1 under authentication status 5, index 0, whatever the PDU type and the table; all others are served as without access control |
| WireLaws.OtherRequests | src/protocol.c:874-880 | a SET gets status 2 or 6 by version without a look at the table |
| WireLaws.GetLaw | src/protocol.c:758-829 | a GET gets the entry of every name, or the name under 0x80 or 0x81 exactly by what lies under it; in version 1 status 2 with the place of the first missing name |
| WireLaws.NextLaw | src/protocol.c:831-872 | a GETNEXT gets the least entry above every name, or the name under 0x82; in version 1 status 2 with the place of the first name with none above |
| WireLaws.RefusalIsRead | src/protocol.c:643-654 | a refusal is read as the fields of the request with status and index, for exactly sized names |
| WireLaws.RefusedAccessIsRead | src/protocol.c:1028-1042 | a manager that is not admitted reads status 6 or 5 and index 0 under its own names |
| WireLaws.GetIsRead | src/protocol.c:758-829 | a GET of names in the table is read as those names with status and index 0 |
| WireLaws.BulkWireLaw | src/protocol.c:882-979 | the bindings of a GETBULK: what follows the first names, then rows of what follows the others, each from the row before; when the rows end; nothing above 128 |
| WireLaws.BulkExchange | src/protocol.c:1014-1078 | the octets of a GETBULK request (0xA5) give the octets of its reply |

## Left out

- Sockets, the daemon loop, timing, signals, logging, the serial thread, the text server and the `/proc` readers.
- Device readings and demo random numbers are arbitrary 32-bit words; a build with or without `__DEMO__` is a parameter.
- `snmp_element_as_string` and the dump functions, which only serve logging.
- Allocation failure and `errno`.
- Decoder.DecodeRequest: says nothing about the fields of a request that was not accepted, since `snmp()` drops it.
- Encoder.EncodeResponse: requires at most 16 names, the capacity of the request, so the check for more than 128 has no branch here.
- Snmp.Serve: stops with Undefined where the C code reads beyond the packet buffer; what it would find there is not modelled.
- Mib.Mib.BuildEntry: stops with Spilled where the C code writes beyond the new buffer or gets none for a negative size. A null buffer is an empty one, and an unfinished entry is described only as far as the entries before it.
- Mib.Mib.UpdateEntry: stops with Spilled where the C code, which assumes that the new value fits the buffer allotted at build time, writes beyond it.
- MibTable.MibBuild: calls the builder in a loop over the list of cells where the C code spells out the calls; so does MibTable.MibUpdate.
- OidText.OidAton: strtoul is a function of the model, with an unsigned long of 32 bits as on the target; only the subids of the static result are modelled.
- Strings are octet sequences without NUL, and the C library's locale does not matter.
