# Protocol cores of the OpenFlow agent

A Dafny model of the parts of the agent where correctness is hardest to see: libtelnet's option
negotiation, byte-stream parser and subnegotiation handlers; the DHCP message store, codec and lease
state machine; the flow tables of the datapath with flow-mod messages and emergency protection; action
lists; the packet-buffer ring; and the two arithmetic kernels, CRC and Internet checksum.

Code that updates structures in place is modelled by classes and methods with the same fields, loops and
branches; each is proved against a specification over plain values (a rule list, a map, a byte-at-a-time
fold, an eager interpreter, polynomial division, ...), and the properties are proved of that specification.
Where a specification reads or writes bytes or chooses between cases, further laws say in numbers, bytes and
offsets alone what comes of it.

| file | models |
|---|---|
| `Bytes.dfy`, `Words.dfy`, `Options.dfy` | octets, network byte order, 32-bit words as bits, a value or none |
| `QMethod.dfy`, `Negotiation.dfy`, `Endpoints.dfy`, `Answers.dfy` | one option under RFC 1143 and the option table; two endpoints over two FIFO channels, first with a map each, then with the table of the code; what an endpoint answers and tells its application |
| `Environ.dfy`, `Zmp.dfy` | the in-place ENVIRON parser, ZMP frames |
| `TelnetWire.dfy`, `Telnet.dfy`, `TelnetRoundTrip.dfy` | the byte-at-a-time reference, the state tracker, what is sent is what is received |
| `CommandBytes.dfy`, `Payloads.dfy` | commands and subnegotiations spelled out byte by byte; two trackers joined by two streams |
| `DhcpArena.dfy`, `DhcpCodec.dfy`, `DhcpLayout.dfy` | the option arena, parsing and assembling, the layout of a message |
| `Lease.dfy`, `DhcpClient.dfy`, `DhcpReplies.dfy` | T1, T2 and the running out of a lease; the client; which frame decides what it does |
| `FlowKey.dfy`, `FlowList.dfy`, `TableLinear.dfy`, `TableHash.dfy`, `Chain.dfy`, `TopPriority.dfy`, `OlderCopy.dfy`, `FlowMod.dfy`, `Protection.dfy` | keys, packets and matching, rule lists, the tables, the chain and two runs of it, flow-mod messages, emergency protection |
| `Frames.dfy`, `Prefixes.dfy`, `Selections.dfy` | what a key says about a frame, which packets a match fits, which flows a message concerns |
| `Actions.dfy`, `OutputLists.dfy`, `PacketBuffers.dfy` | action lists, lists of outputs byte by byte, the packet-buffer ring |
| `Crc32.dfy`, `Checksum.dfy` | table-driven CRC, the Internet checksum |

Parameters stand for what comes from outside: the time, random draws, received frames, the hash functions
of the flow tables, the tests by which `flow_extract` finds a header in a frame, the packet rewriting of
`set_*` actions, the MSSP handler of libtelnet, whether a socket buffer is shared, and the offer-validation
hook of the DHCP client. The event handler of libtelnet only records what it is given.

Where code and documentation disagree the model follows the code:

- WONT in state WANTNO-OPPOSITE: section 7 of RFC 1143 sends DO, `libtelnet-master/libtelnet.c:405-408`
  does not. `Endpoints.DoRequestSafeIff` says exactly which requests this makes unsafe, as long as the same
  thing is not requested again; `Endpoints.RegretDisagrees` is a run from the start that ends in disagreement.
- A NEGOTIATE event is documented to carry the command that was received (`libtelnet-master/README:348-377`).
  DONT in state WANTNO raises a WONT event (`libtelnet-master/libtelnet.c:453-456`), after a change of mind the
  event is that of the new request, and a refusal of what was asked for raises none. `Answers.NoticesTellIff`
  says exactly which events leave an application that goes by them wrong about what is on and what is off;
  `Answers.OwnEndIsMisreported` is a run from the start to the first of them.
- An ENVIRON list whose last string ends in byte 2 is refused as unfinished although the byte is escaped, as
  RFC 1572 wants it (`Payloads.EnvironIff`).
- The option table is a map exactly as long as no 64th option is stored (`QMethod.SetIsUpdateIff`,
  `Endpoints.RunRefinesIff`), and the 64th makes an end forget what was agreed on (`Endpoints.SixtyFourthForgets`).
- `openflow/lib/dhcp.c:694` pulls the size of a pointer, not of the cookie; `width` is a parameter of
  `DhcpCodec.Decode`, and with eight bytes no message at all comes back as it was sent
  (`DhcpCodec.WidePointerNeverRoundTrips`).
- `calc_t1` bounds T1 by T2 for long leases only (`Lease.T1BeforeT2Iff`, `Lease.ShortLeaseGoesWrong`).
- A forced renewal computes `deadline * 3 / 4` in an `int`. Overflow, which C leaves undefined, is taken to
  wrap around; `Lease.ForcedOnTimeIff` says for which deadlines the timers come out right.
- Retransmission delays are doubled before the limit is applied: with a limit of 2^31 seconds or more the
  product wraps around first (`DhcpClient.DelaysDouble`).
- `dhclient_changed` also reports the creation of the client and an ACK that changes the binding.
- `csum_finish` folds once (`Checksum.SingleFoldIff`, `Checksum.CsumCanBeWrong`).
- `csum_continue` adds an odd last byte as a number, which is padding it with zero on a little-endian machine
  only (`Checksum.Csum`, `Checksum.OddByteWrong`).
- A wildcard flow may be given the priority of exact flows, and the hash tables answer before the list does:
  `Chain.Chain.Lookup` says exactly when the best rule is not the answer, `TopPriority.HashedComesFirst` is a
  run to such a state.
- A delete filtered by output port may remove a flow and leave an older copy of it, with other actions, in a
  later table. `Chain.Chain.Delete` says exactly when that happens; `OlderCopy.CopyResurfaces` is a run from a new
  chain to a packet that gets the older copy.
- The overlap check is to find flows that a single packet may match. It misses none, but it also objects to flows
  that ask for something no packet has, such as a VLAN priority without a tag: `FlowKey.SharedIff` and
  `FlowMod.CheckIsRightIff` say exactly when, `FlowMod.CheckIsOvercautious` is a run with such a refusal.
- The overlap check asks the working tables even about an emergency flow (`openflow/datapath/forward.c:237-248`,
  `openflow/datapath/chain.c:161-175`), so it does not keep emergency flows apart: `FlowMod.EmergencyApartIff`,
  `FlowMod.CheckIsBlind`, and `Protection.BlindCheckShows` for what that does to packets.

## Model

| member | source | states |
|---|---|---|
| Endpoints.NegotiationIsSafe | libtelnet-master/libtelnet.c:330-475 | two endpoints with the option table of the code: over every interleaving of deliveries and requests in which neither table is made to store a 64th option and DO is never requested while the him half is WANTNO, the "answered by" error branches are never reached, and when both channels are empty the two ends agree, settled, about every option in both directions |
| Endpoints.NegotiationCannotLoop | libtelnet-master/libtelnet.c:357-474 | in those runs at most two messages are ever processed per application request, over all options together |
| Endpoints.DoRequestDecides | libtelnet-master/libtelnet.c:1223-1237 | after any such run, and whatever is delivered or requested afterwards short of a 64th option and except about the same option in the same direction, the ends agree about an option asked for with DO in a quiet state if and only if the him half was not WANTNO |
| Endpoints.DoRequestSafeIff | libtelnet-master/libtelnet.c:1223-1237 | such a request leads to agreement in every quiet state if and only if the him half is not WANTNO; otherwise every such state disagrees, and, at most 63 options having been asked for, one is always reached |
| Endpoints.RegretDisagrees | libtelnet-master/libtelnet.c:405-408 | a run from the start: an option is agreed on, DONT and then DO are requested, and on a quiet line the requester waits for an answer that nobody owes it |
| Endpoints.SixtyFourthForgets | libtelnet-master/libtelnet.c:286-317 | a run from the start that asks for 64 options, never riskily: with 63 both ends hold the first one as agreed, after the 64th the requester reads NO for it on a quiet line |
| Endpoints.RunRefinesIff | libtelnet-master/libtelnet.c:286-475 | two endpoints with tables take, step by step, the run of two endpoints with total maps if and only if no step stores a 64th option in a table |
| Endpoints.SixtyThreeFit | libtelnet-master/libtelnet.c:286-317 | none does while applications ask for at most 63 options, at either end and in any order |
| Answers.UnsupportedRefused | libtelnet-master/libtelnet.c:330-475 | in every run from the start, however full the tables get: what an end neither supports nor asks for stays off there, an offer of it is answered with DONT and a request for it with WONT |
| Answers.SupportedFollows | libtelnet-master/libtelnet.c:357-474 | what an end supports and never asks for itself is, in every run that overflows no table, as the peer last said; a change is answered in kind, a repetition not at all |
| Answers.FreshOffer | libtelnet-master/libtelnet.c:361-368 | an offer, or a request, that finds an option off is agreed to, stored and reported if it is supported, and refused without an event if it is not |
| Answers.WishIsSent | libtelnet-master/libtelnet.c:1190-1254 | a wish of the application goes out at once or after the answer to the opposite one, and never twice; the one exception is DO while the end of it is being confirmed |
| Answers.WishesCount | libtelnet-master/libtelnet.c:357-474 | whatever the peer answers: what the application wants off is off after two answers at the latest, and what it wants on is on after an affirmative one |
| Answers.NoticesTellIff | libtelnet-master/libtelnet.c:330-475 | an application that believes right what is on and off, and goes by the NEGOTIATE events, still does so after a step if and only if the step is not one of those that mislead (DONT in WANTNO or WANTNO-OPPOSITE, WONT in WANTNO-OPPOSITE); any other event is raised exactly where what is on has changed, or goes on after the application changed its mind, so a refused request raises none |
| Answers.EventsTellIff | libtelnet-master/libtelnet.c:330-475 | over every run from the start that overflows no table it is right all along if and only if no such step occurs |
| Answers.EventsTell | libtelnet-master/libtelnet.c:1173-1255 | none occurs unless the application turns its own option off or makes the risky DO request |
| Answers.OwnEndIsMisreported | libtelnet-master/libtelnet.c:453-456 | a run from the start: an option is offered, accepted and taken back, and when its end is confirmed the application is told WONT, that the other end has turned its own off |
| Negotiation.SafeOnMaps | libtelnet-master/libtelnet.c:330-475 | safety and agreement of endpoints with total maps, without a bound on the number of options |
| Negotiation.TrafficOnMaps | libtelnet-master/libtelnet.c:357-474 | the bound of two messages per request, likewise |
| Negotiation.LinkedKeptByDelivery | libtelnet-master/libtelnet.c:357-474 | the joint invariant of one option in one direction (performer, requester, both channels) survives every delivery, none is a protocol error, and each strictly lowers the weight of what is under way |
| Negotiation.LinkedKeptByRequest | libtelnet-master/libtelnet.c:1190-1254 | requests keep that invariant and add at most 2 to the weight, the risky one excepted |
| Negotiation.StepOnLink | libtelnet-master/libtelnet.c:330-475 | a step of the whole network moves exactly one option in one direction, as that option's own semantics says |
| QMethod.SetIsUpdateIff | libtelnet-master/libtelnet.c:286-317 | writing an option is a map update exactly unless a 64th option wraps `q_size`, and then everything reads NO/NO |
| QMethod.RoomForSixtyThree | libtelnet-master/libtelnet.c:286-317 | with at most 63 options in play, in any order, there is always room in the table |
| QMethod.ReceiveRefinesIff | libtelnet-master/libtelnet.c:330-475 | a received command does to the table's map what it does to a total map that defaults to NO/NO, if and only if it does not store a 64th option |
| QMethod.AskRefinesIff | libtelnet-master/libtelnet.c:1173-1255 | so does an application request |
| Telnet.Tracker.Lookup | libtelnet-master/libtelnet.c:268-284 | the pair stored for an option, NO/NO if there is none |
| Telnet.Tracker.Store | libtelnet-master/libtelnet.c:286-317 | the table after the write, its 8-bit size included |
| Telnet.Tracker.CheckTelopt | libtelnet-master/libtelnet.c:243-266 | the first entry for the option decides |
| Telnet.Tracker.OnCommand | libtelnet-master/libtelnet.c:330-475 | the table and the events after a received WILL, WONT, DO or DONT, in proxy mode too |
| Telnet.Tracker.Request | libtelnet-master/libtelnet.c:1173-1255 | the table and what is sent for an application request |
| CommandBytes.SupportsIff | libtelnet-master/libtelnet.c:243-266 | an option counts as supported if and only if the first entry for it says 251 for the own end, or 253 for the other |
| CommandBytes.CommandRead | libtelnet-master/libtelnet.c:937-1013 | the bytes 255, 251 to 254 and an option, read in state DATA, do to table and events what WILL, WONT, DO and DONT do, and nothing else |
| CommandBytes.ProxyRead | libtelnet-master/libtelnet.c:335-343 | a proxy is told of every command, and keeps and answers nothing |
| CommandBytes.StreamRefused | libtelnet-master/libtelnet.c:357-474 | after any stream of bytes whatever, an unsupported option that the application does not ask for: IAC WILL is answered by the bytes 255 254 and the option, IAC DO by 255 252, with no event and nothing stored |
| CommandBytes.OfferAccepted | libtelnet-master/libtelnet.c:357-474 | if it is supported and off, by 255 253 and by 255 251, with the event, and YES is stored unless the table is full |
| CommandBytes.WarnedIff | libtelnet-master/libtelnet.c:373-382 | a warning is raised if and only if WILL or DO arrives while the end of it is being asked for |
| CommandBytes.Give | libtelnet-master/libtelnet.c:1107-1162 | a command whose bytes arrive cut in any way: the new table, the events and the bytes of the reply |
| CommandBytes.Take | libtelnet-master/libtelnet.c:1173-1255 | a request: the new table and the bytes of the message |
| CommandBytes.Play | libtelnet-master/libtelnet.c:330-475 | two trackers joined by two byte streams, with any requests and deliveries cut in any way: tables and bytes under way are those of the two endpoints after the same steps, so that everything proved of their runs is true of the trackers |
| Environ.ParseInPlace | libtelnet-master/libtelnet.c:489-628 | for every payload the in-place parser returns what the grammar of section 2 of RFC 1572 gives on an untouched copy: nothing, the reason for rejection, or types, names and values |
| Environ.Unescape | libtelnet-master/libtelnet.c:567-585 | one string is unescaped up to its end marker; the write cursor stays behind the reader and no unread byte is touched |
| Environ.ParseVariables | libtelnet-master/libtelnet.c:560-615 | exactly the counted number of variables, ending exactly at the end of the payload |
| Environ.CountVariables | libtelnet-master/libtelnet.c:541-550 | the counting pass counts the variable starts of the token sequence |
| Environ.GroupLength | libtelnet-master/libtelnet.c:541-565 | counting pass and grammar see the same number of variables |
| Payloads.EnvironIff | libtelnet-master/libtelnet.c:489-628 | any list of variables, whatever bytes names and values hold, written as section 2 of RFC 1572 has it, is read back with kinds, names and values, strings up to their first NUL, if and only if its last string does not end in byte 2 |
| Payloads.ValueKeepsMarks | libtelnet-master/libtelnet.c:567-611 | a name ends at a VALUE byte, a value does not |
| Payloads.ReadBack | libtelnet-master/libtelnet.c:489-628 | the in-place parser recovers the list, or rejects it, exactly so |
| Payloads.EnvironRead | libtelnet-master/libtelnet.c:803-846 | as a subnegotiation of option 36 or 39 the list raises the two events |
| Payloads.Receive | libtelnet-master/libtelnet.c:937-1104 | a tracker that is given it, cut in any way, raises these, keeps its options and is ready for more |
| Payloads.BadPayload | libtelnet-master/libtelnet.c:489-535 | malformed ENVIRON, ZMP and TERMINAL-TYPE payloads raise the warning that says why, and nothing more |
| Payloads.TerminalRead | libtelnet-master/libtelnet.c:752-800 | the name of a terminal up to its first NUL, and the question for it |
| Payloads.ZmpRead | libtelnet-master/libtelnet.c:710-749 | a command of NUL-free arguments written one after the other with a NUL behind each |
| Payloads.OtherRead | libtelnet-master/libtelnet.c:803-846 | any other payload is passed on as it is, that of option 70 to the MSSP handler too |
| Payloads.SubRead | libtelnet-master/libtelnet.c:1014-1057 | 255 250, the option, a payload of up to 16384 bytes with every 255 twice and 255 240 are one subnegotiation |
| Payloads.BrokenRead | libtelnet-master/libtelnet.c:1068-1092 | a payload that is ended by IAC and another byte than SE: a warning, the payload, and then the byte as the command it is, unless the payload was a list of variables, after which the tracker waits for another byte |
| Zmp.Parse | libtelnet-master/libtelnet.c:710-749 | accepted exactly if NUL-terminated, and then split at the NULs |
| Zmp.SplitFrame | libtelnet-master/libtelnet.c:723-738 | splitting a frame of NUL-free arguments gives the arguments back |
| Telnet.Tracker.BufferByte | libtelnet-master/libtelnet.c:899-935 | succeeds until 16384 bytes are held; growing loses nothing |
| Telnet.Tracker.Subnegotiate | libtelnet-master/libtelnet.c:803-846 | the events of a complete subnegotiation, and when the caller must start over |
| Telnet.Tracker.Process | libtelnet-master/libtelnet.c:937-1104 | one chunk: state, buffered bytes, table and events are those of the byte-at-a-time fold, through deferred DATA, the recursive call and re-entry |
| Telnet.Tracker.RecvAll | libtelnet-master/libtelnet.c:1107-1162 | chunk invariance: however a stream is cut into calls, final state, buffer, table and events (adjacent DATA merged) are those of reading it byte by byte |
| Telnet.Tracker.SendData | libtelnet-master/libtelnet.c:1258-1280 | the bytes sent are the data with every IAC doubled |
| Telnet.Tracker.SendSubnegotiation | libtelnet-master/libtelnet.c:1293-1304 | header, escaped payload, trailer |
| Telnet.Tracker.SendZmp | libtelnet-master/libtelnet.c:1492-1539 | the envelope around all arguments, each with its NUL |
| TelnetRoundTrip.DataRoundTrip | libtelnet-master/libtelnet.c:937-1104 | escaped data comes out as it went in and leaves the state alone |
| TelnetRoundTrip.SubnegotiationRoundTrip | libtelnet-master/libtelnet.c:1014-1095 | a payload arrives unchanged up to 16384 bytes; a longer one becomes a warning, data and a stray SE |
| TelnetRoundTrip.ZmpRoundTrip | libtelnet-master/libtelnet.c:710-749 | a command arrives as one SUBNEGOTIATION and one ZMP event with the same arguments if and only if its frame has at most 16384 bytes |
| TelnetRoundTrip.ZmpLoopback | libtelnet-master/libtelnet.c:1492-1539 | the full stack: what one tracker sends, cut in any way, makes another in state DATA raise exactly those two events and return to DATA |
| DhcpArena.Arena.Put | openflow/lib/dhcp.c:187-207 | appends to exactly one option and leaves every other unchanged; PAD, END and a zero-length put before any allocation do nothing |
| DhcpArena.Arena.Prealloc | openflow/lib/dhcp.c:146-159 | room for n more bytes; relocation loses nothing |
| DhcpArena.Arena.CopyData | openflow/lib/dhcp.c:170-183 | compaction: every option moves unchanged, segments disjoint and in bounds, the assertion holds |
| DhcpArena.Arena.AppendData | openflow/lib/dhcp.c:161-168 | the bytes go on top, nothing below changes |
| DhcpArena.Arena.Copy | openflow/lib/dhcp.c:136-144 | an independent copy with the same options |
| DhcpArena.Install | openflow/lib/dhcp.c:196-206 | giving one option a segment at the end of the arena keeps all options disjoint, in bounds and as they were |
| DhcpCodec.RoundTripIff | openflow/lib/dhcp.c:654-841 | parsing an assembled message returns header, type and options (with option 53, and 43 if vendor options are set) if and only if every option has a length its class allows and vendor options come with class "OpenFlow" |
| DhcpCodec.DecodeEncode | openflow/lib/dhcp.c:654-841 | what arrives, for every message that can be sent at all |
| DhcpCodec.ChunksRead | openflow/lib/dhcp.c:766-787 | an option of any length, split into 248-byte chunks, is read back whole (section 4.1 of RFC 2131) |
| DhcpCodec.WidePointerNeverRoundTrips | openflow/lib/dhcp.c:694-735 | with 8-byte pointers no message comes back as it was sent, however long its options: the length byte of the type option is lost, and no other byte can stand in for it |
| DhcpCodec.WidePointerLosesType | openflow/lib/dhcp.c:694-735 | and one without options is not accepted at all |
| DhcpCodec.PutOption | openflow/lib/dhcp.c:754-787 | the loop writes those chunks |
| DhcpCodec.Assemble | openflow/lib/dhcp.c:790-841 | the assembled bytes, read from the arena |
| DhcpCodec.ParseOptions | openflow/lib/dhcp.c:575-609 | the arena after any byte string, well-formed or not |
| DhcpCodec.ValidateOptions | openflow/lib/dhcp.c:611-649 | keeps exactly the options with an allowed length |
| DhcpCodec.ParseMessage | openflow/lib/dhcp.c:654-735 | accepts and rejects as the specification does, with the same result |
| DhcpLayout.DecodedFromItsPlace | openflow/lib/dhcp.c:675-692 | of any bytes that are accepted: op, xid, secs, flags, the four addresses and the hardware address are what stands at offsets 0, 4, 8, 10, 12, 16, 20, 24 and 28, numbers as weighted sums of single bytes |
| DhcpLayout.GrantedAtSixteen | openflow/lib/dhcp.c:675-692 | the address a client takes from a message is the number at offset 16 |
| DhcpLayout.EncodedToItsPlace | openflow/lib/dhcp.c:797-841 | of any message that is assembled: the fields in these places, zeros in between, the cookie 99 130 83 99 at offset 236, then 53, 1 and the type, and 255 at the end |
| DhcpLayout.AcceptedAs | openflow/lib/dhcp.c:654-735 | a message with the cookie is accepted if and only if option 53 is a single byte, which is its type, and has exactly the options whose lengths are allowed |
| DhcpLayout.WithoutCookie | openflow/lib/dhcp.c:694-730 | without the cookie it is refused |
| DhcpLayout.OptionWritten | openflow/lib/dhcp.c:754-787 | an option is its code, a length of at most 255 and that many bytes; more are cut into pieces of 248 |
| DhcpLayout.OptionRead | openflow/lib/dhcp.c:575-609 | and so it is read, added to what there is under its code; 0 is passed over and 255 ends the list |
| DhcpLayout.OptionCutShort | openflow/lib/dhcp.c:590-602 | an option that is cut short is not read |
| DhcpLayout.OverloadedFields | openflow/lib/dhcp.c:700-712 | bit 0 of option 52 has options read from offset 108, and then bit 1 from offset 44 |
| DhcpLayout.LengthsAllowed | openflow/lib/dhcp.c:611-649 | the length each option of RFC 2132 may have |
| Lease.SatAdd | openflow/lib/sat-math.h:40-45 | the sum, or the largest value |
| Lease.Fuzz | openflow/lib/dhcp-client.c:1063-1070 | the draw is added without leaving the range of the type |
| Lease.T2Within | openflow/lib/dhcp-client.c:1078-1083 | for every draw T2 lies strictly within the lease |
| Lease.T1BeforeT2Iff | openflow/lib/dhcp-client.c:1085-1090 | for every draw T1 < T2 if and only if the lease is at least 60, or T2 exceeds half of it, or the server gave a T1 below T2 |
| Lease.TimeoutsSumIff | openflow/lib/dhcp-client.c:729-739 | the three state timeouts sum to the lease exactly then, or when T2 is exactly half of it |
| Lease.ShortLeaseGoesWrong | openflow/lib/dhcp-client.c:732-739 | a 30-second lease with T2 after 5 seconds: the RENEWING timeout underflows |
| Lease.OwnTimesLie | openflow/lib/dhcp-client.c:1078-1090 | for every draw: T2 of the client's own lies within 10 seconds of seven eighths and T1 of half of a lease of at least 60, and exactly there for a shorter one |
| Lease.TimersFollow | openflow/lib/dhcp-client.c:729-739 | what becomes of any T1 and T2 in a message, said in seconds since the lease began |
| Lease.ClockRunsOut | openflow/lib/dhcp-client.c:761-785 | any bound state, run every d seconds without a reply: the address is kept at every run until its timers are over, and has been given up at every run from one d per state still to come later on |
| Lease.LeaseRunsOut | openflow/lib/dhcp-client.c:761-785 | a fresh lease, not renewed, is kept at every run before it expires and has been given up at every run from 2d after its end on |
| Lease.ForcedOnTimeIff | openflow/lib/dhcp-client.c:270-291 | for every `int` deadline: the timers that a forced renewal sets end with its limit, a second for rounding aside, if and only if the client is rebinding or the limit is at most 0x2aaaaaaa |
| DhcpClient.AckTimersSumIff | openflow/lib/dhcp-client.c:712-739 | the timeouts chosen for an ACK sum to its lease if and only if the times in the message leave room for one another |
| DhcpClient.OwnTimesOfAck | openflow/lib/dhcp-client.c:712-739 | an ACK that names its lease only: renewing begins at about half and rebinding at about seven eighths of it, exactly there below 60 seconds (section 4.4.5 of RFC 2131) |
| DhcpClient.GivenTimesOfAck | openflow/lib/dhcp-client.c:712-739 | an ACK with T1 < T2 < lease: these are the times, read from the bytes of options 58, 59 and 51 |
| DhcpClient.AckTimesFollow | openflow/lib/dhcp-client.c:712-739 | any ACK: what its times become, T1 and T2 counted from the beginning of the lease |
| DhcpClient.LeaseIsKeptThenGivenUp | openflow/lib/dhcp-client.c:761-811 | the same for the client itself: kept while the lease lasts unless refused, given up at any run from 2d after its end, hence within 3d |
| DhcpClient.Operate | openflow/lib/dhcp-client.c:246-337 | after any sequence of arrivals, runs, restarts, releases, forced renewals and polls: a binding is held exactly in BOUND, RENEWING and REBINDING, the address, netmask and router are those it granted, every binding ever held is an ACK of this transaction that arrived, with a lease of at least 15 seconds and a netmask, and each answer of dhclient_changed is true exactly if, since the one before, an address was gained or lost or the binding changed at any transition, even if all is as before again, or the client was created |
| DhcpClient.Client.Run | openflow/lib/dhcp-client.c:794-811 | always terminates; every round is a turn as RunState describes it and every binding on the way is noted; without an acceptable ACK in the queue the clock settles, or stops after a refusal |
| DhcpClient.Client.RunState | openflow/lib/dhcp-client.c:797-810 | one round: what each state does with the frames it finds and the time it is given |
| DhcpClient.Client.StateTransition | openflow/lib/dhcp-client.c:838-873 | the new state, the binding dropped exactly when the address is lost, the change noted, the queue drained; the assertion holds |
| DhcpClient.Client.ReceiveAck | openflow/lib/dhcp-client.c:697-750 | the state, address, binding, expiration and timers after the first NAK or ACK in the queue, and that nothing else changes them |
| DhcpClient.Client.ChooseTimers | openflow/lib/dhcp-client.c:724-739 | the timeouts are those of some draws; the assertion on the lease holds |
| DhcpClient.Client.Adopt | openflow/lib/dhcp-client.c:712-749 | the granted address, netmask, router, expiration and timers are in use, and a changed binding is noted |
| DhcpClient.Client.AwaitAck | openflow/lib/dhcp-client.c:752-785 | a reply decides; without one the state ends exactly when its timeout is over |
| DhcpClient.Client.RunSelecting | openflow/lib/dhcp-client.c:622-649 | the first acceptable offer that names its server is taken, even after the server was forgotten |
| DhcpClient.Client.RunInit | openflow/lib/dhcp-client.c:545-566 | a wait of one to three seconds |
| DhcpReplies.ReplyDecides | openflow/lib/dhcp-client.c:698-785 | a client that awaits an ACK goes by the first ACK or NAK of its transaction among the frames and by no other: a NAK sends it back to the start, an ACK with a lease of at least 15 seconds and a netmask, which the caller accepts, binds it with the address, netmask, router, expiration and times in its bytes, any other leaves it waiting |
| DhcpReplies.WithoutReply | openflow/lib/dhcp-client.c:752-785 | without one it waits: 60 seconds, or until its lease is to be rebound or is over |
| DhcpReplies.BoundWaits | openflow/lib/dhcp-client.c:761-767 | a bound client reads nothing until it is time to renew |
| DhcpReplies.OfferDecides | openflow/lib/dhcp-client.c:622-649 | a client that looks for a server asks the one that the first offer it can take names, in option 54, for the address it offers |
| DhcpReplies.WithoutOffer | openflow/lib/dhcp-client.c:622-634 | without one it forgets after a minute the server it knew |
| DhcpReplies.LeaseAlikeIs | openflow/lib/dhcp-client.c:651-695 | two ACKs are the same binding if and only if the address and fifteen named options are the same |
| DhcpClient.RunIsSourced | openflow/lib/dhcp-client.c:698-811 | every binding noted in a run, even for a moment only, is such an ACK and was among the frames |
| DhcpClient.Client.ReceiveMsg | openflow/lib/dhcp-client.c:922-980 | the next message; 50 frames of junk empty the queue |
| DhcpClient.Client.ReceiveKind | openflow/lib/dhcp-client.c:577-597 | messages of other kinds or transactions are passed over |
| DhcpClient.DelaysDouble | openflow/lib/dhcp-client.c:875-891 | retransmission delays are 4, 8, 16, ... seconds up to the configured limit (section 4.1 of RFC 2131); a limit of 2^31 or more is never reached, the delays start over |
| DhcpClient.Client.ForceRenew | openflow/lib/dhcp-client.c:270-320 | for every `int` deadline the state and timers after a forced renewal, in every state; what was received before is dropped |
| DhcpClient.ClientRunsOut | openflow/lib/dhcp-client.c:761-811 | the client, bound in any way and run every d seconds with any arrivals but an acceptable ACK, keeps the address until its timers are over unless refused, and has given it up one d per state still to come later |
| DhcpClient.ForcedIsKeptThenGivenUp | openflow/lib/dhcp-client.c:270-297 | so does a client whose renewal was forced, whatever the deadline, with the timers that this set |
| DhcpClient.ForcedInTime | openflow/lib/dhcp-client.c:292-297 | with a limit in range that means: kept until a second before the limit, given up at any run from d after it on |
| DhcpClient.Client.Restart | openflow/lib/dhcp-client.c:245-252 | the start state, and no binding |
| DhcpClient.Client.Release | openflow/lib/dhcp-client.c:256-268 | RELEASED, with one message sent if an address was bound |
| DhcpClient.Client.Changed | openflow/lib/dhcp-client.c:331-337 | true exactly if there is news among the bindings noted since the last call |
| DhcpClient.NoNewsNoChange | openflow/lib/dhcp-client.c:328-337 | without news every binding held since the last call, also in between, has the same address and the same compared options as then, or there was none throughout |
| DhcpClient.Client.Lookup | openflow/lib/dhcp-client.c:369-398 | the reported address is the one the reported binding granted |
| FlowKey.SharedIff | openflow/datapath/flow.c:58-66 | some packet matches two normalised keys if and only if they overlap and, together, ask neither for a VLAN priority without a tag nor for a VLAN id, VLAN priority, ICMP type or ICMP code that is too large |
| FlowKey.PacketIffExtracted | openflow/datapath/flow.c:381-485 | what counts as the key of a packet: exactly what extraction makes of some frame |
| FlowKey.OverlapWithoutPacket | openflow/datapath/flow.c:58-66 | untagged frames and frames of VLAN priority 3: the keys overlap, and no packet matches both |
| FlowKey.ExtractNormal | openflow/datapath/flow.c:98-155 | extraction normalises every match |
| FlowKey.ExtractFill | openflow/datapath/flow.c:104-172 | extraction after filling in is the identity on normalised keys |
| FlowKey.ExactMatches | openflow/datapath/flow.c:48-53 | a key without wildcards matches exactly one packet |
| Frames.LinkRead | openflow/datapath/flow.c:381-430 | what a key says of the link layer: port, addresses, and a type that is the number in the header, the one SNAP names, or 1535 |
| Frames.TagRead | openflow/datapath/flow.c:416-426 | VLAN and priority of a tag, and the type behind it |
| Frames.IpRead | openflow/datapath/flow.c:433-485 | what it says of an IPv4 packet, and what is not given away of a fragment or of a packet without its transport header |
| Prefixes.AgreeIsPrefix | openflow/datapath/flow.c:98-102 | addresses agree under the mask for n wildcarded bits if and only if they are the same number once divided by 2^n, always for n of 32 and more |
| Prefixes.MatchesIff | openflow/datapath/flow.c:28-56 | a packet is matched if and only if it has every field that the match does not leave out: network fields count if the match is about IP, the low two bits of the type of service never, transport fields if it is about TCP, UDP or ICMP |
| Prefixes.AddAndLookup | openflow/datapath/chain.c:73-99 | a flow added to tables without rules answers for exactly the packets its match fits |
| Prefixes.PrefixDecides | openflow/datapath/chain.c:73-99 | of two packets that differ in their addresses only it answers for both exactly if these agree but for the wildcarded bits |
| Selections.SameIff | openflow/datapath/flow.c:58-66 | the test by which an insert replaces a flow: the same wildcards and the same packets |
| Selections.StrictIff | openflow/datapath/flow.c:68-82 | a strict modify or delete concerns exactly the flow with the same packets, wildcards and priority |
| Selections.LooseIff | openflow/datapath/flow.c:68-82 | a loose one concerns, of the flows that leave out no more than it does, exactly those all of whose packets it matches |
| Selections.StrictConflictIff | openflow/datapath/flow.c:84-96 | the strict form of the overlap test looks for the same flow |
| Selections.AddThen | openflow/datapath/forward.c:211-373 | a flow added to tables without rules and a modify or delete that follows: it is changed or gone exactly if the message concerns it in that sense |
| FlowList.FirstIsBest | openflow/datapath/table-linear.c:25-73 | the first hit in the priority list is the rule of highest priority, the earliest inserted of those |
| TableLinear.Linear.Insert | openflow/datapath/table-linear.c:37-73 | replaces the rule with the same match and priority or adds one, fails exactly when full; both lists and the count stay in step with the rules |
| TableLinear.Linear.Lookup | openflow/datapath/table-linear.c:25-35 | the best rule for the packet |
| TableLinear.Linear.Modify | openflow/datapath/table-linear.c:75-91 | exactly the selected rules get the actions, and are counted |
| TableLinear.Linear.Delete | openflow/datapath/table-linear.c:118-134 | exactly the selected rules with an output to the given port, if one is given, go and are counted |
| TableLinear.Linear.HasConflict | openflow/datapath/table-linear.c:93-106 | true exactly if a rule of that priority overlaps |
| TableHash.Hash.Insert | openflow/datapath/table-hash.c:46-71 | succeeds exactly for an exact flow whose bucket no other key holds, and turns any wildcard flow away; every other key is found as before; the count is right |
| TableHash.Hash.Modify | openflow/datapath/table-hash.c:73-102 | one bucket or all of them: exactly the selected flows change |
| TableHash.Hash.Delete | openflow/datapath/table-hash.c:145-171 | exactly the selected flows, by output port too, go, though the priority is not looked at |
| TableHash.Hash.HasConflict | openflow/datapath/table-hash.c:104-130 | looking at one bucket for an exact key misses nothing |
| TableHash.Hash2.Lookup | openflow/datapath/table-hash.c:303-315 | the flow found under a key, in the first table that has one |
| TableHash.Hash2.Insert | openflow/datapath/table-hash.c:317-324 | the first table takes the flow if its bucket is free for it, else the second; it is then found under its key even if an older copy stays behind |
| TableHash.Hash2.Modify | openflow/datapath/table-hash.c:326-335 | what is found under each key changes as selected, older copies with it |
| TableHash.Hash2.Delete | openflow/datapath/table-hash.c:346-356 | each subtable loses exactly the selected flows; for any port no older copy comes to light |
| TableHash.Hash2.HasConflict | openflow/datapath/table-hash.c:337-344 | older copies do not change the verdict |
| Chain.Chain.Lookup | openflow/datapath/chain.c:73-99 | the answer of the hash tables, else of the list; it is the best rule of the one rule list (highest priority, ties to the earliest) if and only if it is not that the hash tables hold the exact flow while an older wildcard flow of priority 65535 matches, and then it is the exact flow |
| Chain.Chain.Insert | openflow/datapath/chain.c:108-125 | the rule list after an insert of any flow that add_flow builds, wildcard flows of priority 65535 included; refused exactly if no bucket is free for it and the list is full |
| Chain.Chain.Modify | openflow/datapath/chain.c:133-154 | the rule list after a modify; the count is positive exactly if a rule was selected |
| Chain.Chain.Delete | openflow/datapath/chain.c:187-206 | by output port or for any port: the rules left are those not selected if and only if no older copy of a deleted flow comes to light; otherwise the tables still stand for some rule list |
| Chain.Chain.HasConflict | openflow/datapath/chain.c:161-175 | true exactly if a rule of that priority overlaps |
| Chain.LookupAgreesIff | openflow/datapath/chain.c:88-96 | looking in the hash tables and then in the list finds the best rule, under exactly that condition |
| Chain.RefinesKeepIff | openflow/datapath/chain.c:187-206 | the refinement of the rule list by three tables survives a delete if and only if no copy comes to light |
| Chain.AnyPort | openflow/datapath/chain.c:187-206 | a delete for any port brings nothing to light, and its count is positive exactly if a rule was selected |
| Chain.TablesStandForRules | openflow/datapath/chain.c:88-96 | whatever the hash tables hold, there is a rule list that they and the list refine |
| Chain.FullMeansCrowded | openflow/datapath/chain.c:108-125 | if no working table takes a flow, it is new and there are at least as many rules as the list has room for |
| TopPriority.HashedComesFirst | openflow/datapath/chain.c:73-99 | on any empty chain: a wildcard flow of priority 65535, then an exact flow; the packet gets the exact flow, though the older wildcard flow is the best rule |
| TopPriority.ListedWaitsItsTurn | openflow/datapath/chain.c:73-125 | on any chain an exact flow that finds no bucket free goes to the list, where its packet gets the best rule |
| OlderCopy.CopyResurfaces | openflow/datapath/chain.c:187-206 | on any new chain whose first hash table puts two keys in one bucket, four operations lead to a delete by output port that should leave no rule, and the packet gets an older copy |
| FlowMod.Run | openflow/datapath/forward.c:375-402 | over any run of add, modify and delete messages, to the working and the emergency table, every verdict is one the message may meet with (all tables full only for a new flow while there are at least as many rules as the list has room for) and every delete leaves the rules it should leave exactly if no older copy comes to light; if none ever does, and deletes for any port bring none, the rule lists are those that messages and verdicts determine, and while there is room for all rules they depend on the messages only |
| FlowMod.AddFlow | openflow/datapath/forward.c:211-299 | refused if the overlap check says so, if an emergency flow has timeouts, or, in this order, if no table takes it, which is exactly Chain.Full; otherwise inserted |
| FlowMod.ModFlow | openflow/datapath/forward.c:301-351 | modifies what is selected or, if nothing is, inserts, and is refused exactly if no table takes the flow |
| FlowMod.ReceiveFlow | openflow/datapath/forward.c:375-402 | one message of any kind to either table: its verdict and both rule lists; for a delete these are exact if and only if no older copy comes to light |
| FlowMod.RoomyIsUnbounded | openflow/datapath/forward.c:211-351 | as long as neither list ever needs more room than there is, the rules are those of tables without bounds |
| FlowMod.CheckIsRightIff | openflow/datapath/forward.c:237-248 | the overlap check misses no flow of the same priority that some packet matches together with the new one, and refuses the new flow without need if and only if it asks for something impossible with every flow it overlaps |
| FlowMod.CheckIsOvercautious | openflow/datapath/forward.c:237-248 | a run from a chain without rules in which the check refuses a flow that no packet matches together with the one there |
| FlowMod.OnePerPriorityIff | openflow/datapath/forward.c:237-248 | no packet matches two flows of one priority if and only if those that overlap ask for something impossible together |
| FlowMod.InsertApartIff | openflow/datapath/forward.c:237-248 | adding a flow keeps same-priority flows free of overlaps exactly if the check lets it pass |
| FlowMod.CheckedRunsAreUnambiguous | openflow/datapath/forward.c:237-248 | after any run of checked messages no packet matches two flows of one priority |
| FlowMod.EmergencyApartIff | openflow/datapath/forward.c:237-258 | an emergency flow that the check lets pass keeps the emergency table free of overlaps if and only if it overlaps none of its flows, which the check did not look at |
| FlowMod.CheckIsBlind | openflow/datapath/forward.c:237-258 | on a chain without flows two overlapping emergency flows of one priority are both added with the check |
| Protection.Protect | openflow/datapath/private-msg.c:48-110 | no insert fails; the working tables then hold exactly the emergency table's flows, one entry each, without timeouts |
| Protection.FlushWorking | openflow/datapath/private-msg.c:48-57 | no flow is left, older copies included |
| Protection.CopyEmergency | openflow/datapath/private-msg.c:59-110 | the flows are inserted newest first, and there is room for each |
| Protection.LookupProtected | openflow/datapath/private-msg.c:93-110 | a packet is answered with the copy of the flow the emergency table has for it if and only if the hash tables hold its exact flow and no older wildcard flow of that priority matches, or they do not and no second flow ties with the best one |
| Protection.ReversedAgreesIff | openflow/datapath/private-msg.c:93-110 | of tied flows the emergency table prefers the oldest and the copies the newest: the best rules correspond if and only if nothing ties |
| Protection.ApartIsFaithful | openflow/datapath/private-msg.c:93-110 | if no two emergency flows of one priority overlap, every packet is answered as the emergency table says |
| Protection.BlindCheckShows | openflow/datapath/private-msg.c:93-110 | two flows added with the overlap check, and a packet that fares differently before and after protection |
| Actions.ValidIff | openflow/datapath/dp_act.c:346-425 | exactly the encodings of lists of allowed actions validate |
| Actions.ValidateActions | openflow/datapath/dp_act.c:387-425 | terminates on every byte string, with the code of the first thing wrong |
| Actions.Decode | openflow/datapath/dp_act.c:387-425 | the list of allowed actions that validated bytes encode |
| Actions.Datapath.ExecuteActions | openflow/datapath/dp_act.c:464-520 | sends the same packets, ports and lengths in the same order as an interpreter that outputs at once, consumes exactly the list, and disposes of the packet's buffer and every copy exactly once |
| OutputLists.SendTo | openflow/datapath/dp_act.c:464-520 | for any list of ports and lengths spelled 0 0 0 8, port, length, high bytes first: if every port is usable the packet goes as it is to exactly those ports, in order and each with its length; if not the verdict is BAD_OUT_PORT and nothing is sent |
| OutputLists.SingleVerdict | openflow/datapath/dp_act.c:346-425 | the verdict on any single action, by its bytes |
| OutputLists.NoLength | openflow/datapath/dp_act.c:346-425 | and on one that names no length |
| Actions.Datapath.Rewrite | openflow/datapath/dp_act.c:428-436 | a shared buffer is copied first and released; a lost one is gone |
| PacketBuffers.Ring.Save | openflow/datapath/forward.c:536-579 | the packet is refused, and the id all ones, exactly if there is a packet in the next slot that is still too young to go; otherwise it is held under the next id of its slot, and a packet it replaces is freed, never before its second is over, through wrap-around of the clock |
| PacketBuffers.Ring.Retrieve | openflow/datapath/forward.c:581-600 | the packet last saved in the slot exactly if the cookie is current and it is still held; then it is handed out and held no more |
| PacketBuffers.Ring.Discard | openflow/datapath/forward.c:620-637 | frees that packet and no other |
| PacketBuffers.Ring.DiscardAll | openflow/datapath/forward.c:602-618 | frees every held packet, changes nothing else |
| PacketBuffers.Run | openflow/datapath/forward.c:536-637 | any run is determined by its operations and their times; every copy is handed out at most once, a copy once freed or handed out never comes back, and an id returned by a save fetches its packet if and only if nothing took it away before (a later packet in its slot, a retrieval or discard under that id, a discard of all), and fetches another one only once 2^24 - 1 packets were saved in its slot |
| PacketBuffers.HeldOn | openflow/datapath/forward.c:536-637 | an operation takes a packet away exactly if it is one of those |
| PacketBuffers.TicketHonouredIff | openflow/datapath/forward.c:568-590 | what a retrieval returns is the packet its id was given out for if and only if fewer than 2^24 - 1 packets were saved in the slot since |
| PacketBuffers.FreshIsBefore | openflow/datapath/forward.c:552-557 | a packet less than a second old is seen as fresh, whatever the counter's turn |
| Crc32.Crc.constructor | openflow/datapath/crc32.c:10-25 | every table entry is the remainder of its byte |
| Crc32.Crc.Calculate | openflow/datapath/crc32.c:29-43 | the table-driven value is the remainder of bit-by-bit division, for every polynomial and message |
| Crc32.RemainderIsDivision | openflow/datapath/crc32.c:10-43 | that value is the one word r for which the message times x^32 is a multiple of x^32 + poly, plus r |
| Crc32.DividendAt | openflow/datapath/crc32.c:29-43 | the polynomial that is divided: bit j of the byte that k others follow is the coefficient of x^(32 + 8k + j), and there are no others |
| Crc32.ShiftsLinear | openflow/datapath/crc32.c:17-22 | shifting is linear under exclusive or |
| Checksum.Csum | openflow/lib/csum.c:37-42 | on a machine of either byte order, the checksum of RFC 1071 for a packet of up to 131072 bytes exactly if the single fold does not carry and, on a big-endian machine, there is no odd last byte but zero; for a packet of any length exactly if all that the sum loses is a multiple of 65535 and zero is not mistaken for 65535 |
| Checksum.CsumExactIff | openflow/lib/csum.c:63-87 | the condition for any length: wraps of the accumulator, the carry of the fold and 255 times a misplaced odd byte |
| Checksum.ReferenceVerifies | openflow/lib/csum.c:37-42 | with the checksum of RFC 1071 the words add up to all ones, and with no other but its second form of zero |
| Checksum.Continue | openflow/lib/csum.c:63-79 | the sum modulo 2^32 of the 16-bit words in the byte order of the machine, an odd last byte counting as a number |
| Checksum.SingleFoldIff | openflow/lib/csum.c:81-87 | for any words whose sum fits the accumulator, right if and only if the fold does not carry in turn |
| Checksum.CsumCanBeWrong | openflow/lib/csum.c:81-87 | a packet whose checksum comes out wrong because the fold carries |
| Checksum.OddByteWrong | openflow/lib/csum.c:74-77 | and one, of a single byte, because the machine is big-endian |
| Checksum.Recalc16Iff | openflow/lib/csum.c:89-105 | an incremental update agrees modulo 65535 with recomputing (equation 3, section 3 of RFC 1624) if and only if its three-term sum is not 0x1ffff |
| Checksum.Recalc16ExactIff | openflow/lib/csum.c:89-105 | bit for bit, a changed packet of nothing but zeros is the only other exception |
| Checksum.Recalc32Iff | openflow/lib/csum.c:107-115 | a 32-bit update is right if and only if neither of its two steps has that sum |

## Left out

- zlib (MCCP2) in libtelnet, its printf wrappers, `telnet_begin_newenviron` and `telnet_newenviron_value`: foreign library, formatting, and a sender that does not escape.
- `_mssp_telnet`: any function from payload to events; its parser is a simpler form of the ENVIRON one.
- Failing allocations, logging, locks, RCU and netlink; table operations are atomic steps.
- Timeouts of flows: removing a flow that has expired may bring an older copy of it back to light, as `Chain.RefinesKeepIff` states for deletes.
- Paged iteration over flow tables, statistics and hardware tables.
- FlowMod.Run: once a delete by output port has brought an older copy to light, the rules are those of some rule list that the tables stand for, not one that the messages determine.
- FlowMod.Run: actions are taken to be valid (module `Actions` models their validation), and buffered packets named in a message are not retrieved.
- TableLinear.Linear.Modify: the source changes a record that is on two lists; the model changes both lists.
- TableHash.Hash.Insert: the hash is any function of the key's fields; that it is the CRC of module `Crc32` plays no role.
- Serial numbers of flows, which only paged iteration looks at.
- `set_*` and `strip_vlan` on packet bytes, `update_csum` and the header tests of `flow_extract`: kernel helpers that are not part of this model; `Actions` holds for any rewriting function.
- DhcpCodec.ParseMessage: vendor bytes are read as a value, not as an alias of the arena that grows while they are read.
- DhcpClient.Client.SendReliably: when something is sent, not what; message contents, UDP and Ethernet framing are left out.
- DhcpClient.Client.Run: no frame arrives and no time passes within one call.
- config_service, the command-line utilities, bitmaps and dynamic strings: easy members only.
