# Model of the hybrid-downgrade fault injection tools

The repository measures how TLS and SSH peers negotiate hybrid post-quantum key exchange when an on-path proxy edits
their first messages. This project models the part that decides what the measurements mean, and proves it correct:

- `Bytes`, `Filter`, `Tlvs`, `ClientHelloFrame`, `Extensions`: octets, dropping list elements, type-length-value lists,
  the three nested lengths of a ClientHello record, and the two extensions that name groups.
- `ClientHelloStrip`, `ClientHelloForge`, `ForgeAndStrip`: removing a group from a ClientHello, flipping the
  post-quantum half of a key share, and how the two interact.
- `CaptureReader`, `CaptureProperties`, `CaptureStability`, `ServerHelloFormat`, `CaptureContents`: the lenient second
  parser over capture bytes, its agreement with the strict one, its stability, and exactly which hellos of a capture it
  lists.
- `NameList`, `SshKex`: the same rewrites on SSH packets.
- `ProxyLog`, `Relay`, `Mutators`: the one-shot relay over every interleaving of chunks, what it conserves, the
  exception that may end it, its log, and the verifiers that read the log.
- `RecordStream`, `OnPath`, `ServerStream`: the records and packets inside a chunk, what reaches the server over a whole
  run with each of the four installed mutators chunk by chunk, and the stream of records or packets it then reads.
- `Verdict`, `VerdictProperties`, `Evidence`: the counters, the verdict over them, and what a true verdict says about
  the capture of every run.
- `WireVectors`: complete messages byte by byte, and what the tools make of them.

Loops of the source are methods with loops, proved equal to functions; the properties are lemmas about those functions.
The ClientHello, ServerHello, KEXINIT and KEX_ECDH_INIT layouts are also given as printers, independent of any parser,
and the parsers are proved inverse to them in both directions. The printers and the main statements name wire codes and
field values as numbers and texts, not through the constants and tests the modelled code uses.

Python exceptions are results. `ValueError`, `KeyError`, `IndexError` and `FileNotFoundError` are values of a `Result`;
`OverflowError` and every index that cannot be out of range are excluded by preconditions proved at each use.

## Where code and description differ

- `run_proxy` is described as transforming the first client payload only; it transforms the first payload that its
  mutator changes, however many came before (`ServerStream.LaterPayloadRewritten`). `Relay.FirstPayloadOnly` gives the
  chunks for which the description is right.
- The stripping mutators look at the record or packet a chunk starts with, and the server reads them all. A second
  ClientHello record in the changed chunk keeps the group (`ServerStream.SecondHelloSurvives`), and so does one in a
  later chunk; a KEXINIT in one chunk with the version banner passes as it is (`ServerStream.CoalescedKexinitSurvives`).
  `ServerStream.OnPathRecords` and `ServerStream.OnPathPackets` give the records and the packets that the server reads
  in every run, and when none of them names what was to be removed.
- A changed chunk takes the place of its record or packet in the stream if and only if it starts where one starts, as
  the same two theorems state; inside a record or a packet it throws the stream out of step
  (`ServerStream.HelloInsideRecord`, `ServerStream.KexinitInsidePacket`).
- A ClientHello fragmented over several records passes (`RecordStream.FragmentPasses`): what is said here about naming a
  group is said of single records.
- Between the end of the extensions and the end of the record `strip_hybrid` drops bytes, but only if it changes
  something.
- `strip_kexinit_algorithm` drops what follows the packet, but only if it changes something, and does not pad again
  (`RecordStream.SshStrippedPackets`, `Mutators.SshStripperConserves`).
- The name-list filter law is false of the code when one empty name is left (`SshKex.EmptyNameIsLost`);
  `SshKex.SshStripLaw` states exactly when it holds.
- The proxy log does not exist before the first mutation, so after a run that changed nothing its readers raise instead
  of answering no (`Mutators.EmptyLogAnswers`).
- Two missing answers about a retry count as agreement in the counters; what keeps a missing capture from passing is the
  ServerHello count and the precondition (`Evidence.MissingCaptureFails`).
- An expected final group other than the two known ones is judged as the classical one
  (`VerdictProperties.OtherGroupAccepted`); `VerdictProperties.FinalGroupJudged` is the exact condition.

## Model

| member | source | states |
|---|---|---|
| `Bytes.FlipInPlace` | tools/faultinject/tls_clienthello.py:152-156 | The XOR loop over a `bytearray` complements exactly the bytes of the range, in place. |
| `Bytes.ComplementIsXor` | tools/faultinject/tls_clienthello.py:155 | Complementing a byte is `^ 0xFF` on its eight bits. |
| `Tlvs.ParsePrint` | tools/faultinject/tls_clienthello.py:56-62 | Every list of type-length-value entries reads back from its printed form. |
| `Tlvs.PrintParse` | tools/faultinject/tls_clienthello.py:86-92 | Every byte string the walk accepts is the printed form of what it yields; otherwise the exception is `ValueError`. |
| `Tlvs.ParseAt` | tools/faultinject/tls_clienthello.py:86-92 | One turn of a cursor loop takes one entry off the front of the list, or fails exactly when the whole rest is malformed. |
| `ClientHelloFrame.LocatorExact` | tools/faultinject/tls_clienthello.py:23-49 | The locator accepts exactly the records whose nested lengths fit, and can raise nothing but `ValueError`. |
| `ClientHelloFrame.PrintFrameOf` | tools/faultinject/tls_clienthello.py:23-49 | Every located record is the printed form of an RFC 8446 frame. |
| `ClientHelloFrame.FrameOfPrint` | tools/faultinject/tls_clienthello.py:23-49 | The locator finds the extension block of every printed frame, and the frame is determined by the bytes. |
| `Extensions.DecodeEncode` | tools/faultinject/tls_clienthello.py:95-126 | A decoded supported_groups or key_share extension survives encoding and decoding. |
| `Extensions.EncodeDecode` | tools/faultinject/tls_clienthello.py:95-126 | What decodes re-encodes to the same bytes, so re-serialising an unchanged key_share changes nothing. |
| `ClientHelloStrip.FilterGroups` | tools/faultinject/tls_clienthello.py:101-102 | The two comprehensions yield the ids of the vector and the encoding of those other than the group. |
| `ClientHelloStrip.StripGroups` | tools/faultinject/tls_clienthello.py:95-105 | The supported_groups branch refuses a malformed vector and otherwise encodes the filtered list, reporting whether an id went. |
| `ClientHelloStrip.FilterShares` | tools/faultinject/tls_clienthello.py:113-125 | The share loop keeps exactly the entries of other groups, or raises when an entry is cut short. |
| `ClientHelloStrip.StripShares` | tools/faultinject/tls_clienthello.py:107-126 | The key_share branch refuses a malformed vector and otherwise encodes the filtered entries, with no length overflow. |
| `ClientHelloStrip.RewriteExtensions` | tools/faultinject/tls_clienthello.py:82-131 | The extension loop produces the encoding of the decoded list without the group, or `ValueError` if any extension is malformed. |
| `ClientHelloStrip.StripHybrid` | tools/faultinject/tls_clienthello.py:80-140 | The rewriter computes the removal at the level of meaning, and none of its fixed-width lengths can overflow. |
| `ClientHelloStrip.StripAcceptance` | tools/faultinject/tls_clienthello.py:80-131 | Whether the rewriter raises depends on the record only, never on the group; it raises `ValueError` only. |
| `ClientHelloStrip.StripMeaning` | tools/faultinject/tls_clienthello.py:80-140 | The output is accepted again; its decoded extension list is the original with the group removed; version, everything before the extensions and everything after the record are unchanged. |
| `ClientHelloStrip.StripLengths` | tools/faultinject/tls_clienthello.py:102-140 | A record changes exactly when it names the group; a changed one has its extension, handshake and record ends coincide and is shorter by exactly 2 bytes for each removed group, 4 and the value for each removed share, and the two slacks. |
| `ClientHelloStrip.AcceptedOnTheWire` | tools/faultinject/tls_clienthello.py:80-131 | The rewriter accepts exactly the located records with a complete extension list whose extensions 0x000A are even vectors and whose extensions 0x0033 are vectors of complete entries. |
| `ClientHelloStrip.StripOnTheWire` | tools/faultinject/tls_clienthello.py:82-131 | Extension by extension: 0x000A keeps the ids and 0x0033 the entries of other groups, in order and with exact lengths; every other extension keeps its bytes. |
| `ClientHelloStrip.StripIdempotent` | tools/faultinject/tls_clienthello.py:80-140 | Stripping the same group twice is stripping it once. |
| `ClientHelloStrip.StripCommutes` | tools/faultinject/tls_clienthello.py:80-140 | Strips of two groups commute on every accepted record, slack included. |
| `ClientHelloForge.ReadShares` | tools/faultinject/tls_clienthello.py:63-75 | The inner loop locates every entry of one key_share extension, or raises when the vector or an entry is malformed. |
| `ClientHelloForge.FindKeyShare` | tools/faultinject/tls_clienthello.py:52-77 | `find_key_share` locates every share of every key_share extension, in order, by absolute offset. |
| `ClientHelloForge.LocatedOnTheWire` | tools/faultinject/tls_clienthello.py:52-77 | Shares are located exactly in the records with a complete extension list whose extensions 0x0033 are vectors of complete entries; other extensions are not looked at. |
| `ClientHelloForge.BlockLayout` | tools/faultinject/tls_clienthello.py:143-156 | Flipping bytes at a located offset is flipping part of the value of the first share of that group, and moves no other share. |
| `ClientHelloForge.ForgePqComponent` | tools/faultinject/tls_clienthello.py:143-156 | `forge_pq_component` complements the target range, with `KeyError` for an unknown group and `ValueError` for a missing or short share. |
| `ClientHelloForge.ForgeFraming` | tools/faultinject/tls_clienthello.py:143-156 | Exactly the target bytes change; length, extension bounds and every located offset and length stay. |
| `ClientHelloForge.ForgeKeepsClassicalHalf` | tools/faultinject/tls_clienthello.py:10-14 | Which 1184 bytes of the share change for each of the two groups; the X25519 half stays in both. |
| `ClientHelloForge.ForgeInvolution` | tools/faultinject/tls_clienthello.py:143-156 | Forging twice gives the record back. |
| `ForgeAndStrip.ForgeMeaning` | tools/faultinject/tls_clienthello.py:143-156 | On accepted records forging succeeds exactly when a long enough share is offered, and forges the decoded list inside the same frame. |
| `ForgeAndStrip.ForgeKeepsAcceptance` | tools/faultinject/tls_clienthello.py:80-156 | A forged record is accepted by the rewriter exactly when the original is. |
| `ForgeAndStrip.StripForgetsForge` | tools/faultinject/tls_clienthello.py:80-156 | Stripping a group after forging it gives the bytes, or the exception, of stripping it alone. |
| `ForgeAndStrip.ForgeAndStripCommute` | tools/faultinject/tls_clienthello.py:80-156 | For different groups the two rewrites give the same result in either order, exceptions included, exactly when the forged group is known or the record is accepted. |
| `CaptureReader.LenientGroupsExact` | tools/faultinject/pcap_hello.py:60 | The comprehension yields the ids after the first two bytes, whatever those two bytes say, and raises exactly on an odd rest. |
| `CaptureReader.ReadGroupList` | tools/faultinject/pcap_hello.py:60 | The loop form of that comprehension computes it. |
| `CaptureReader.ReadShareIds` | tools/faultinject/pcap_hello.py:62-65 | The share loop reads every entry id without checking that the last value is complete. |
| `CaptureReader.LenientSharesExact` | tools/faultinject/pcap_hello.py:62-65 | The ids read are those of a share list exactly when the bytes print it, whole or with only its last value cut short; any other bytes are refused. |
| `CaptureReader.ClientHello` | tools/faultinject/pcap_hello.py:43-66 | The lenient ClientHello reader, with its generator, computes one pass over the extension list. |
| `CaptureReader.ServerHello` | tools/faultinject/pcap_hello.py:69-83 | The ServerHello reader computes the retry flag and the group of the last key_share. |
| `CaptureReader.ClientHelloRaises` | tools/faultinject/pcap_hello.py:54-66 | The ClientHello reader raises nothing but `ValueError` on any bytes. |
| `CaptureReader.ServerHelloRaises` | tools/faultinject/pcap_hello.py:69-72 | The ServerHello reader raises `IndexError` on exactly one family of inputs, five bytes announcing an empty record, and otherwise only `ValueError`. |
| `CaptureReader.ReadMatch` | tools/faultinject/pcap_hello.py:91-100 | One match of the scan yields what parses there; the only exception that can reach the scan is the one it catches. |
| `CaptureReader.SummarizeHellos` | tools/faultinject/pcap_hello.py:86-101 | The non-overlapping scan terminates on every byte string and yields what trying the parsers at every offset yields. |
| `CaptureReader.SkipMatch` | tools/faultinject/pcap_hello.py:15 | No match of the record marker starts inside another, so skipping three bytes loses no hello. |
| `CaptureProperties.WalkersAgree` | tools/faultinject/pcap_hello.py:54-66 | On every record the rewriter accepts, `find_key_share` succeeds, its offsets denote the shares of the record, and the capture reader reports the same ids and the last group list. |
| `CaptureProperties.StripSeenByWalkers` | tools/faultinject/tls_clienthello.py:52-140 | On a stripped record both other walkers find what they found before, without the group, values included. |
| `CaptureStability.ClientHelloStable` | tools/faultinject/pcap_hello.py:54-66 | A ClientHello that parses parses to the same with any bytes appended. |
| `CaptureStability.ServerHelloStable` | tools/faultinject/pcap_hello.py:69-83 | A ServerHello that parses parses to the same with any bytes appended. |
| `CaptureStability.HellosSurvive` | tools/faultinject/pcap_hello.py:86-101 | The hellos of a capture are a subsequence of those of every extension of it. |
| `CaptureStability.RecordInCapture` | tools/faultinject/pcap_hello.py:86-101 | A ClientHello record is reported as it reads alone, whatever surrounds it in the capture. |
| `CaptureStability.StrippedRecordInCapture` | tools/faultinject/pcap_hello.py:86-101 | Wherever a stripped record lies in a capture, the summary lists it with the remaining groups and shares. |
| `ServerHelloFormat.ServerHelloReadsBack` | tools/faultinject/pcap_hello.py:69-83 | Every ServerHello laid out as section 4.1.3 of RFC 8446 says, followed by any bytes, reads as (random is the retry constant, group of the last key_share); it is refused exactly when a key_share payload cannot hold a group. |
| `ServerHelloFormat.ServerHelloIsPrinted` | tools/faultinject/pcap_hello.py:69-83 | Everything the reader accepts is such a ServerHello. |
| `CaptureContents.SummaryExact` | tools/faultinject/pcap_hello.py:86-101 | The summary lists exactly the ClientHellos and the ServerHellos printed in the capture, retry requests included, each at its offset, in order. |
| `CaptureContents.ServerHelloInCapture` | tools/faultinject/pcap_hello.py:86-101 | A printed ServerHello is listed wherever it lies, with its retry flag and its last group. |
| `NameList.NamesOfJoin` | tools/faultinject/ssh_kexinit.py:63 | A joined name-list reads back as itself, except that the list of one empty name reads back empty. |
| `NameList.LeavesOneEmptyExact` | tools/faultinject/ssh_kexinit.py:71-73 | A removal leaves one empty name exactly when one name is empty and every other name is the removed one. |
| `SshKex.EcdhInitFound` | tools/faultinject/ssh_kexinit.py:10-23 | The locator finds the public value of every printed KEX_ECDH_INIT packet. |
| `SshKex.EcdhInitIsPrinted` | tools/faultinject/ssh_kexinit.py:10-23 | It finds one only in such a packet. |
| `SshKex.ForgeSshPqComponent` | tools/faultinject/ssh_kexinit.py:26-37 | The forger complements the first 1158 bytes of the located value, or raises `ValueError` when there is none or it is too short. |
| `SshKex.ForgeSshExact` | tools/faultinject/ssh_kexinit.py:10-32 | The bytes that are forged: a complete packet with message number 30 whose public value lies in the payload and has 1158 + 32 bytes or more; any other raises `ValueError`. |
| `SshKex.ForgeSshPrinted` | tools/faultinject/ssh_kexinit.py:26-37 | A printed KEX_ECDH_INIT is forged exactly from 1190 bytes of public value on, into the same packet with the first 1158 of them complemented. |
| `SshKex.ForgeSshFraming` | tools/faultinject/ssh_kexinit.py:26-37 | Offset and length stay, exactly those 1158 bytes change, the X25519 tail stays, and forging twice is the identity. |
| `SshKex.PrintKexinitOf` | tools/faultinject/ssh_kexinit.py:40-54 | Every packet whose bounds are found is the printed form of a KEXINIT. |
| `SshKex.KexinitOfPrint` | tools/faultinject/ssh_kexinit.py:40-54 | The bounds of every printed KEXINIT are found and its parts are determined by the bytes. |
| `SshKex.SshStripRaises` | tools/faultinject/ssh_kexinit.py:66-70 | Whether the SSH rewriter raises depends on the packet only: no KEXINIT, or a name-list that is not ASCII. |
| `SshKex.SshStripAccepts` | tools/faultinject/ssh_kexinit.py:40-70 | The bytes that are accepted: a complete packet with message number 20 whose first name-list lies in the payload and is ASCII. |
| `SshKex.SshStripLaw` | tools/faultinject/ssh_kexinit.py:66-81 | The packet changes exactly when it lists the algorithm; cookie, remaining payload and padding stay; the length field covers a changed packet exactly; a second removal changes nothing; the list reads back filtered if and only if the removal does not leave one empty name alone. |
| `SshKex.SshStripCommutes` | tools/faultinject/ssh_kexinit.py:66-81 | Removals of two algorithms commute on every accepted packet. |
| `SshKex.EmptyNameIsLost` | tools/faultinject/ssh_kexinit.py:57-81 | On the name-list `,a`, removing `a` should leave one empty name and leaves none: the filter law is false of the code there. |
| `ProxyLog.FieldsOfEntry` | tools/faultinject/verify_applied.py:63-65 | The reader recovers exactly the four fields the writer wrote, for any group and digests without white space. |
| `ProxyLog.LinesOfAppended` | tools/faultinject/verify_applied.py:64 | Appending an entry to a log of complete lines adds exactly one line to what a reader sees. |
| `ProxyLog.BindingEntry` | tools/faultinject/verify_applied.py:63-72 | Of all lines a writer may write, the binding verifier counts those of a binding mutation with two different, present digests. |
| `ProxyLog.StripEntry` | tools/faultinject/verify_applied.py:86-90 | Of all lines a writer may write, the strip verifier counts those of a strip mutation with two different digests. |
| `ProxyLog.SpaceCodes` | tools/faultinject/verify_applied.py:64-65 | The characters that end a line and that separate words, by their codes. |
| `ProxyLog.BindingVerified` | tools/faultinject/verify_applied.py:63-73 | After one binding entry the verifier says yes if it already did or the two digests differ. |
| `ProxyLog.StripVerified` | tools/faultinject/verify_applied.py:86-91 | After one on-path strip entry the verifier says yes if it already did or the two digests differ. |
| `Relay.Proxy.Mutate` | tools/faultinject/fault_binding.py:16-29 | The logging mutators return the rewrite, or the data on `ValueError`; any other exception goes through; one line is appended exactly when the data changed. |
| `Relay.Proxy.FirstPayload` | tools/faultinject/mitm_proxy.py:33-41 | The payload read before the loop is handled as one client chunk; an empty one does nothing; an exception of the mutator ends the run before anything is sent. |
| `Relay.Proxy.Receive` | tools/faultinject/mitm_proxy.py:49-67 | One readable socket: shutdown, verbatim forwarding, mutation while none has taken effect, or an exception of the mutator. |
| `Relay.Proxy.RunProxy` | tools/faultinject/mitm_proxy.py:33-69 | The whole run folds those steps over the delivered events and returns the flag and the two counters, or ends with the exception the mutator let through. |
| `Relay.RelaySafety` | tools/faultinject/mitm_proxy.py:33-67 | Over every interleaving, upstream gets the handled client chunks with at most one, the first the mutator changes, replaced by its image; the server stream passes verbatim; counters are the lengths forwarded; the log grows by one line or none; every event is handled, or the next client chunk is the one on which the mutator raised. |
| `Relay.NothingRaised` | tools/faultinject/mitm_proxy.py:33-67 | With a mutator that catches all its rewrite raises, every event is handled and no exception ends the run. |
| `Relay.AlwaysRaises` | tools/faultinject/mitm_proxy.py:33-67 | With a mutator that raises on everything, nothing is sent upstream, and the run ends with an exception exactly when the client sends something. |
| `Relay.FirstPayloadOnly` | tools/faultinject/mitm_proxy.py:23-67 | All chunks but the first pass verbatim if and only if the mutator changes the first chunk or none. |
| `Relay.RelayConservation` | tools/faultinject/mitm_proxy.py:37-67 | Bytes sent upstream and bytes read differ by exactly what the one changed chunk lost or gained; so they never exceed them if the mutator never grows its input, and equal them if it keeps lengths. |
| `Relay.OpenSides` | tools/faultinject/mitm_proxy.py:44-58 | A side is closed exactly when it has been seen to shut down. |
| `Mutators.TlsForgerFacts` | tools/faultinject/fault_binding.py:16-29 | The TLS forging mutator lets no exception through for a known group and keeps lengths. |
| `Mutators.SshForgerFacts` | tools/faultinject/fault_binding.py:16-29 | The SSH forging mutator lets no exception through and keeps lengths. |
| `Mutators.TlsStripperFacts` | tools/faultinject/run.py:128-145 | The TLS stripping mutator lets no exception through and never adds bytes. |
| `Mutators.SshStripperFacts` | tools/faultinject/run.py:128-145 | The SSH stripping mutator lets no exception through and never adds bytes. |
| `Mutators.TlsForgerConserves` | tools/faultinject/fault_binding.py:16-29 | Over every run with the TLS forging mutator, bytes sent upstream equal bytes read; a known group ends no run, an unknown one ends it with `KeyError` at the first client chunk, with nothing sent. |
| `Mutators.SshForgerConserves` | tools/faultinject/fault_binding.py:16-29 | Over every run with the SSH forging mutator, every event is handled and bytes sent upstream equal bytes read. |
| `Mutators.TlsStripperConserves` | tools/faultinject/run.py:128-145 | Over every run with the TLS stripping mutator, bytes read are bytes sent upstream plus the removed groups, shares and slacks of the one changed record. |
| `Mutators.SshStripperConserves` | tools/faultinject/run.py:128-145 | Over every run with the SSH stripping mutator, bytes read are bytes sent upstream plus the removed names and whatever followed the packet in the one changed chunk. |
| `Mutators.RunLog` | tools/faultinject/fault_binding.py:19-28 | A mutated run adds one line to the log, and its four fields are the event, the group, the digest of the chunk the client sent and the digest of the chunk that went upstream; any other run leaves the log as it was. |
| `Mutators.InstalledEvents` | tools/faultinject/run.py:138-144 | The forging mutators log binding mutations, the stripping ones strip mutations with the group or the algorithm. |
| `Mutators.BindingLogFaithful` | tools/faultinject/verify_applied.py:63-73 | After a run the binding verifier says yes exactly when it already did or the relay changed a chunk whose digest changed. |
| `Mutators.StripLogFaithful` | tools/faultinject/verify_applied.py:86-91 | After a run the strip verifier says yes exactly when it already did or the relay changed a chunk whose digest changed. |
| `Mutators.EmptyLogAnswers` | tools/faultinject/verify_applied.py:63-91 | From an empty log both verifiers return `mutated`; with no log file and nothing changed they raise `FileNotFoundError`. |
| `RecordStream.StrippedRecords` | tools/faultinject/tls_clienthello.py:80-140 | The records of a stripped chunk are those of the chunk with the first one stripped, the others byte for byte. |
| `RecordStream.SurvivingRecords` | tools/faultinject/tls_clienthello.py:140 | No record of a stripped chunk names the group if and only if no record after the first of the chunk does. |
| `RecordStream.FragmentPasses` | tools/faultinject/tls_clienthello.py:29-31 | A record whose handshake message continues in another record is left as it is. |
| `RecordStream.SshStrippedPackets` | tools/faultinject/ssh_kexinit.py:66-81 | A changed chunk is exactly one packet, so packets that followed it in the chunk are lost; any other chunk keeps all its packets. |
| `RecordStream.SurvivingPackets` | tools/faultinject/ssh_kexinit.py:66-81 | Read as packets from its first byte on, a stripped chunk lists the algorithm nowhere if and only if the first packet of the chunk did or no later one does; a chunk that starts with the banner holds no packet when read so. |
| `RecordStream.BannerPasses` | tools/faultinject/ssh_kexinit.py:40-54 | A chunk no larger than one read that starts with any byte but zero, such as a version banner, is left as it is. |
| `OnPath.OnPathForge` | tools/faultinject/fault_binding.py:16-29 | Over every interleaving, the TLS forger changes a chunk exactly when one can be forged, changes the first such chunk in exactly the 1184 post-quantum bytes of its first share of the group, and leaves the X25519 half, every located offset, all other bytes and all other chunks as they were. |
| `OnPath.OnPathSshForge` | tools/faultinject/fault_binding.py:16-29 | Over every interleaving, the SSH forger changes a chunk exactly when one starts with a complete packet with message number 30 and a public value of 1190 bytes or more, and changes the first such chunk in exactly the 1158 bytes of the sntrup761 key. |
| `OnPath.OnPathStrip` | tools/faultinject/run.py:128-145 | Over every interleaving, a chunk is changed exactly when one starts with a ClientHello record naming the group; up to and including the changed chunk, no chunk that starts with one reaches the server, and a record of a forwarded chunk names the group exactly when one after the first of that chunk did; the capture reader sees the first record of the changed chunk without the group; all other chunks pass verbatim. |
| `OnPath.OnPathSshStrip` | tools/faultinject/run.py:128-145 | Over every interleaving, a chunk is changed exactly when one starts with a KEXINIT listing the algorithm; up to and including the changed chunk, no chunk that starts with one reaches the server, and a forwarded chunk, read as packets from its first byte on, lists it nowhere exactly when its first packet did or no later one does; all other chunks pass verbatim. |
| `ServerStream.OnPathRecords` | tools/faultinject/run.py:128-145 | Chunk boundaries forgotten, an unmutated run delivers the client's records, and the records of any other run are given; they are the client's with exactly that one record stripped if and only if the changed chunk starts at a record boundary, and then none names the group if and only if no other one did. |
| `ServerStream.OnPathPackets` | tools/faultinject/run.py:128-145 | Banner and chunk boundaries forgotten, an unmutated run delivers the client's packets, and the packets of any other run are given; after the banner, for a chunk of one read, they are the packets before the changed chunk, its first packet stripped and the packets of later chunks if and only if it starts at a packet boundary, and then none lists the algorithm if and only if none before it and none in a later chunk does. |
| `ServerStream.HelloInsideRecord` | tools/faultinject/run.py:128-145 | A ClientHello in a chunk that starts inside a record: the client sent one record and the server reads none. |
| `ServerStream.KexinitInsidePacket` | tools/faultinject/run.py:128-145 | A KEXINIT in a chunk that starts inside a packet: the client sent one packet and the server reads none. |
| `ServerStream.SecondHelloSurvives` | tools/faultinject/tls_clienthello.py:140 | Two ClientHellos in one payload: the run reports a mutation, and a capture of what it sent still lists a ClientHello with the group. |
| `ServerStream.LaterPayloadRewritten` | tools/faultinject/mitm_proxy.py:23-63 | A run in which the second payload, not the first, is rewritten. |
| `ServerStream.CoalescedKexinitSurvives` | tools/faultinject/ssh_kexinit.py:40-54 | A version banner and a KEXINIT in one payload: the run reports no mutation, and the one packet the server reads lists the algorithm. |
| `Verdict.ComparisonV12` | tools/faultinject/analyze.py:101-139 | The counting loop computes the table of counters, or raises `KeyError`. |
| `Verdict.TallyCell` | tools/faultinject/analyze.py:106-118 | A cell is in the table exactly when it has records, and its counters count those records. |
| `Verdict.CountersCount` | tools/faultinject/analyze.py:118-136 | Each of these counters is the number of records with the property, and the repetition set is the set of their repetitions. |
| `Verdict.HelloCountersCount` | tools/faultinject/analyze.py:123-138 | The counters about hellos, retries and final groups are the numbers of records with that property. |
| `Verdict.ReportCountersCount` | tools/faultinject/analyze.py:121-127 | Success and failure, and hybrid, classical and unknown, add up to the number of records. |
| `Verdict.CountersOverFields` | tools/faultinject/analyze.py:118-138 | The counters the verdict reads are the numbers of records whose field has that value, stated on the fields. |
| `Verdict.CveVerdict` | tools/faultinject/analyze.py:152-171 | The verdict collects the failures of every cell in order and is true exactly when there is none. |
| `Verdict.FailuresExact` | tools/faultinject/analyze.py:155-170 | Which failures a cell contributes, each with the number counted and the number of records. |
| `Verdict.OneEachExact` | tools/faultinject/analyze.py:161 | As many records as repetitions with the set 1..n is the same as exactly one record for each repetition. |
| `Verdict.CellExact` | tools/faultinject/analyze.py:155-170 | A cell contributes no failure exactly when it has one record for each repetition and each meets every expectation. |
| `Verdict.VerdictExact` | tools/faultinject/analyze.py:101-171 | The verdict over counters is true exactly when each expected cell has one record for each repetition and no other, and the fields of each of them say what is expected; below one repetition it is true only of the empty matrix. |
| `VerdictProperties.ReproducedRun` | tools/faultinject/analyze.py:101-171 | If the verdict is true, every server-setting record of an expected cell says success, precondition met, complete artifacts and binaries, one ServerHello, agreeing retry answers as expected and the expected final group. |
| `VerdictProperties.VerdictIgnoresOrder` | tools/faultinject/analyze.py:101-171 | Permuting the records changes neither the verdict nor whether counting raises. |
| `VerdictProperties.TallyRaises` | tools/faultinject/analyze.py:106-108 | Counting raises `KeyError`, and exactly when a server-setting record has no entry for its version or its setting; an entry stored as null does not raise. |
| `VerdictProperties.ExpectedMatrix` | tools/faultinject/analyze.py:83-91 | The matrix has one item for each listed server and setting, also when a server is listed twice; setting S2, and S3 on a server that is not vulnerable, expect a retry to X25519MLKEM768, and all others X25519 without a retry. |
| `VerdictProperties.MatrixInOrder` | tools/faultinject/analyze.py:83-91 | Servers listed once contribute S1, S2 and S3 in this order, one server after the other. |
| `VerdictProperties.MatrixVerdict` | tools/faultinject/analyze.py:83-171 | Judged against the matrix, the verdict is true exactly when on every server the runs of S1 ended with X25519 and no retry, those of S2 with X25519MLKEM768 after a retry, and those of S3 as in S1 on a vulnerable server and as in S2 on any other. |
| `VerdictProperties.FinalGroupJudged` | tools/faultinject/analyze.py:168-170 | The verdict judges a cell by the final group its expectation names, whatever the records, if and only if that is one of the two known names. |
| `VerdictProperties.OtherGroupAccepted` | tools/faultinject/analyze.py:168-170 | A cell that expects any other group is reproduced by a run that ended with the classical one. |
| `Evidence.GroupNameExact` | tools/faultinject/pcap_hello.py:37-40 | A group has one of the three names exactly when it has that code, and none exactly when there is no group. |
| `Evidence.OtherGroupName` | tools/faultinject/pcap_hello.py:37-40 | Any other group is named `0x` and the four lower-case hexadecimal digits of its code. |
| `Evidence.GroupNameInjective` | tools/faultinject/pcap_hello.py:14-40 | No two groups share a name, hexadecimal ones included. |
| `Evidence.EvaluateV12` | tools/faultinject/v12.py:185-212 | The evaluation writes what the capture summary and the client log say, nothing but `None` for a missing or empty capture or client log, and raises `KeyError` when the record names no client log. |
| `Evidence.EvaluatedExact` | tools/faultinject/v12.py:185-212 | What is stored: without capture bytes nothing about hellos and a failed precondition; with them whether a retry request is listed, the number of other ServerHellos, the group name of the last of them, and whether the first ClientHello has both groups and the classical share alone; all else as the run says. |
| `Evidence.CountsExact` | tools/faultinject/pcap_hello.py:23-34 | One real hello with a group is the same as a hello count of one and that final group; a positive retry count is a retry. |
| `Evidence.EvidenceExact` | tools/faultinject/v12.py:190-209 | An evaluated run meets its expectations exactly when its capture is present and shows them, the client log agrees and the run is complete; evaluation raises `KeyError` exactly without a client log entry. |
| `Evidence.NegotiatedInBytes` | tools/faultinject/pcap_hello.py:69-101 | A capture that shows what is expected holds, at exactly one offset, a ServerHello laid out as section 4.1.3 of RFC 8446 says that is no retry request, and its last key_share has the expected group. |
| `Evidence.CampaignRaises` | tools/faultinject/analyze.py:101-108 | A campaign raises `KeyError`, and exactly when a run names no client log or a server-setting run has no entry for its version or its setting. |
| `Evidence.EvidenceVerdict` | tools/faultinject/analyze.py:101-171 | The verdict over a campaign is true exactly when neither evaluation nor counting raises and every run of every cell is proven by its capture. |
| `Evidence.EvidenceChain` | tools/faultinject/v12.py:190-209 | A true verdict implies, for every run of every cell, success, complete artifacts and binaries, the precondition on the first ClientHello, a retry in capture and client log exactly if expected, and at exactly one offset of the capture a ServerHello of the expected group that is no retry request. |
| `Evidence.MissingCaptureFails` | tools/faultinject/v12.py:196-200 | A run without capture bytes makes the verdict false, so it never counts as one without retry. |
| `WireVectors.StripVector` | tools/faultinject/tls_clienthello.py:80-140 | A ClientHello record with two groups and two shares, byte by byte, and the record that removing the hybrid group leaves. |
| `WireVectors.ShareVector` | tools/faultinject/tls_clienthello.py:52-77 | The offsets and lengths of the two shares of that record. |
| `WireVectors.ForgeVector` | tools/faultinject/tls_clienthello.py:143-156 | A ClientHello record with an X25519MLKEM768 share of 1216 bytes, byte by byte, and the forged record. |
| `WireVectors.ServerHelloVector` | tools/faultinject/pcap_hello.py:69-83 | A ServerHello or retry request with any random and group, byte by byte, and how it reads. |
| `WireVectors.KexinitVector` | tools/faultinject/ssh_kexinit.py:57-81 | A KEXINIT packet with two names, byte by byte, and the packet that removing one leaves. |
| `WireVectors.EcdhInitVector` | tools/faultinject/ssh_kexinit.py:26-37 | A KEX_ECDH_INIT packet with a public value of 1190 bytes, byte by byte, and the forged packet. |

## Left out

- Relay.Proxy.RunProxy: sockets, the ready lists of `select` (taken one event at a time, in any order), the five-second
  timeout (the end of the event list) and an `OSError` from `shutdown`; it asks that events come from open sides, as
  `select` guarantees.
- ServerStream.OnPathPackets: a server's view of a client that sends a KEXINIT before any banner line is given as an
  equation only; section 4.2 of RFC 4253 rules such a client out.
- RecordStream.FragmentPasses: handshake messages are not reassembled over several records.
- Mutators.BindingLogFaithful: SHA-256 is any function whose text has no white space; that digests of different data
  differ is nowhere assumed, the statement says what follows if they do and if they do not.
- ProxyLog.LinesOfAppended: a carriage return followed by a line feed counts as two line breaks; the empty line between
  holds no field.
- Evidence.EvaluateV12: the retry detection in the client log, the audit, and whether artifact files exist and are not
  empty are inputs; storing the record is not modelled.
- Verdict.CveVerdict: failures are values, not formatted sentences.
- The messages of exceptions: all of one class are equal.
- Decoding of records from JSON, directory listing and file contents other than the proxy log and the capture.
- `conditions.py`, `fault_group_list.py`, the scenario builders and the v1.5 to v1.8 specifications: constant lists.
- `harness.py`, `audit.py`, `v17.py`: regular expressions over the output of other programs.
- Markdown rendering, aggregation of other experiment versions and packaging: formatting and simpler copies of the
  counting.
- Block alignment and minimum padding of SSH packets (section 6 of RFC 4253): the rewriter does not maintain them.
- The group selection of the TLS libraries under test: described by the repository, not implemented in it.
