# A verified model of pki-executor

pki-executor is an agent that runs inside lab machines. It keeps one WebSocket open to a
backend ("phone home"), receives commands, runs each on a worker of its own against a
registry of handlers, and sends the workers' progress frames back. This project models the
parts of it whose correctness is not visible in any one function, and proves what they keep.

- `PhoneHome` is the protocol as a step system: workers push frames, the connection loop
  drains the queue, every write may fail with the peer having seen the frame or not, and the
  outer loop backs off and reconnects. An event that is not possible in a state leaves it as
  it is, so every theorem quantifies over every sequence of events. `Delivery` proves what
  happens to frames, `Backoff` what happens to time, and `PhoneHomeClient` is the loops
  themselves, as a class whose methods are proved to perform exactly those steps.
- `Agent` adds the workers and the gate in front of the handlers, and refines `PhoneHome`.
- `Registry` is the layered command registry.
- `DnsStore`, `ReverseZone` and `DnsRecords` are the DNS resource applier: the record store,
  the reverse-zone arithmetic (section 3.5 of RFC 1035), and the two put together with the
  record checks of `dns.verify`.
- `Hosts` is the managed block of `/etc/hosts`: the entries parser and the sed rewrite.
- `Base64`, `RelayPath`, `Relay` and `RelayHost` carry artifacts between hosts (section 4 of
  RFC 4648).
- `Publication` is the list codec in front of certutil.
- `Text`, `Util`, `Numerals`, `Report` and `Wrappers` are what the others are built from.
- `Grammar` and `ZoneText` say, as texts and without the code's checks, what names, labels,
  numerals, addresses and reverse zones are.

Every check of the code is tied to such an independent description by an if-and-only-if over
all inputs: planned records (`DnsRecords.CheckRecordExactly`), hosts entries
(`Hosts.ParsedExactly`, `Hosts.Ipv4Exactly`), relay paths (`Relay.RelayPathExactly`), relay
content (`Relay.AdmittedExactly`), publication entries (`Publication.EntryExactly`), the gate
(`Registry.LookupIsOwed`). The contracts of the handlers are stated in these descriptions.

`dafny verify dfyconfig.toml` checks everything.

## What came out

Where a property one would expect of the code does not hold for all inputs, the model keeps
the code and states exactly when it does hold.

- A DNS plan that throws keeps what it wrote before the throw. Two records, one in conflict
  and one new, leave the new one or not depending on their order
  (`DnsRecords.OrderShowsInAFailedPlan`). The store is the same in every order exactly for
  plans that go through in every order and for plans none of whose records would be written
  (`DnsStore.StoreIndependenceIsExact`, `DnsRecords.PlanStoreIndependenceIsExact`).
- A hosts file whose last line lacks its newline (and is neither a marker nor inside a
  managed block) is joined with the begin marker by the rewrite, and the next rewrite no
  longer finds that block. Last writer wins exactly when there is no such line
  (`Hosts.LastWriterWins`); a file of one letter fails (`Hosts.LastWriterDoesNotAlwaysWin`).
- The rewrite script's comment says that a half-written file from an interrupted run
  converges. It does exactly if the write stopped right before the block, or once the begin
  marker was out on a line of its own; cut inside the marker, or after a kept last line
  without a newline, the fragment stays for good (`Hosts.InterruptedRunConverges`).
- The Linux `file.read` runs `base64` and `sha256sum` inside arguments of `printf`, where
  their failure is not seen. A directory under the allowlist is reported as read, with no
  content and no digest (`RelayHost.DirectoryReadsAsDone`, `RelayHost.ConfDirectoryIsAccepted`);
  a read that breaks off is
  reported with what it got. The output is the file exactly if the path names a file and
  both commands read it through (`RelayHost.ReadIsTheFile`), and that is what a receiver
  learns by comparing the digest with that of the content (`RelayHost.DigestTells`).
  Comparing the two hosts' digests tells it only if they are not both empty: the Linux
  `file.write` succeeds without a digest, too (`RelayHost.Carry`).
- A reverse zone spelled with a trailing dot is accepted, but the script does not trim the
  dot: it computes no valid network id, and with one or two labels names the PTR record one
  octet short. With three labels the index range `4..3` runs backwards and lands on the
  right octet (`ReverseZone.PtrNameExactly`, `ReverseZone.CreatesTheZoneAskedFor`). Every
  one-label zone shows it (`ReverseZone.DottedZoneFails`).
- A reverse zone with leading zeros (`010.in-addr.arpa`) is accepted as a number, but never
  spells the reverse name of an address (`ReverseZone.NumericZonesNeedCanonicalLabels`,
  `ReverseZone.LeadingZeroFails`). Both failures are met by 10.1.2.3
  (`ReverseZone.ZonesThatFail`).
- `file.write` admits two file sizes, 262145 and 262146 bytes, that `file.read` refuses, and
  an empty file can be read but not written (`Relay.CapAdmitsExactly`, `RelayHost.Carry`).
- Content travels to the script as one process argument, so that the largest file that
  arrives has three bytes for every four characters the argument may have
  (`RelayHost.Carry`). Linux allows 131071 characters, which is 98301 bytes: less than half of
  the cap. The text of a DNS plan travels the same way, and the check on its size does not
  see to that either (`DnsRecords.ApplyCommand`).
- The two platforms decode differently. `QQ==QQ==` passes every check; .NET refuses it, and
  `base64 -d`, which reads each group of four by itself, writes two bytes
  (`Relay.InnerPaddingIsAdmitted`). They agree exactly on content that is not padded before
  its last group (`Base64.DecodersAgreeExactly`, `Relay.PlatformsWriteAlike`).
- A publication entry may contain the separator it is joined with: a file share on a host
  whose name starts with `n` is accepted and read back by certutil as two entries
  (`Publication.ListSurvivesExactly`, `Publication.ValidEntryCanBeSplit`).
- Taken from the scripts, not proved of them: the Linux `file.write` truncates its target
  before it knows whether the content decodes, the Windows one decodes first
  (`RelayHost.Host.RunLinuxWrite`, `RelayHost.Host.RunWindowsWrite`).
- The reconnect bound of 300 s per supersede and 19.5 s per other end, less 60 s, cannot be
  improved in any of its constants (`Backoff.BoundIsAttained`).

## Model

| member | source | states |
|---|---|---|
| Delivery.NothingLostNothingReordered | src/phonehome.rs:177-219 | after every run, acknowledged frames, then the parked frame, then the queued ones are the emitted frames that serialise, in order |
| Delivery.StepKeepsInv | src/phonehome.rs:229-323 | every step of every component, write failures included, keeps conservation, the slot discipline, the numbering of emissions and the relation between wire and acknowledgements |
| Delivery.OneSlotSuffices | src/phonehome.rs:249-256 | the slot is free whenever the select loop runs; a parked frame stays parked until it is acknowledged next, so it is never overwritten |
| Delivery.PeerSeesOnlyImmediateRepeats | src/phonehome.rs:210-217 | what the peer may have seen, immediate repeats merged, is the acknowledged log with or without the parked frame, a prefix of the deliverable emissions |
| Delivery.PeerNeverSeesAnOlderFrameAgain | src/phonehome.rs:304-313 | on the wire, emission numbers never go down, every acknowledged frame was seen, and nothing but acknowledged frames and the parked one |
| Delivery.EveryFrameIsStillDeliverable | src/phonehome.rs:360-372 | from the state after any run, one back-off and one connection that accepts its writes acknowledges every deliverable frame emitted so far, in order |
| PhoneHome.ConnectionEndsExactly | src/phonehome.rs:264-323 | over every state and event: a connection ends as superseded iff the select loop reads close code 4409, as failed iff the dial or the read fails, normally iff the stream ends or a ping or the write of a frame that serialises fails; every other read stays in the loop, and only a parsed command is received |
| PhoneHome.IterationsEndAsTheirEvents | src/phonehome.rs:367-388 | over every run: iteration i has just the end that the event which ended it calls for, superseded iff that was the close with code 4409 |
| Backoff.IterationsAreTimed | src/phonehome.rs:367-401 | over every run: the length of iteration i is the time from its start to its settlement, and the next one starts no sooner than the delay after that |
| Backoff.DelayRule | src/phonehome.rs:367-400 | in every run, the delay after an end is 300 s if superseded, else 1, 2, 5, 10 or, from the fifth on, 30 s, going by the number of non-superseded ends since the last iteration of at least 60 s |
| Backoff.DelaysNeverFallBetweenResets | src/phonehome.rs:331-340 | with no healthy iteration in between, a later back-off delay is never shorter than an earlier one, supersedes in between or not |
| Backoff.ReconnectRateIsBounded | src/phonehome.rs:367-401 | from the start of any iteration and any attempt counter, n completed iterations, s of them superseded, take at least 300 s + 19.5 (n - s) - 60 seconds |
| Backoff.BoundIsAttained | src/phonehome.rs:331-340 | for all numbers of supersedes and of climbs there is a run that takes exactly that long |
| PhoneHomeClient.Client.SendProgress | src/phonehome.rs:181-219 | usable unless a serialisable frame's write fails; only then is the frame parked; it is on the wire if accepted or seen |
| PhoneHomeClient.Client.Meanwhile | src/phonehome.rs:65-72 | a worker's push while the client waits anywhere goes to the end of the queue, under its command's job id, and is the protocol's emit step |
| PhoneHomeClient.Client.FlushParked | src/phonehome.rs:249-256 | the parked frame is taken and sent first; the state is the protocol's, and the connection ends exactly on a failed write |
| PhoneHomeClient.Client.HandleRead | src/phonehome.rs:264-303 | ends the connection as superseded iff the message is a close with code 4409, as failed iff the read fails, normally iff the stream ends; adds exactly a parsed command to those received; is the protocol's read step |
| PhoneHomeClient.Client.ForwardQueued | src/phonehome.rs:304-313 | the oldest queued frame is sent, or parked with the connection over |
| PhoneHomeClient.Client.SelectTurn | src/phonehome.rs:262-323 | one turn of the select loop is one protocol step, and says whether the loop goes on |
| PhoneHomeClient.Client.ConnectOnce | src/phonehome.rs:221-324 | one connection consumes a stretch of the schedule and leaves the protocol state after it, ended as reported |
| PhoneHomeClient.Client.Settled | src/phonehome.rs:373-399 | resets, keeps or advances `attempt` and picks the delay so that the state is the protocol's after the settle step, asleep until now plus the delay |
| PhoneHomeClient.Client.Iterate | src/phonehome.rs:368-401 | one iteration of the outer loop is the protocol run over the events it consumed, and ends ready to connect |
| PhoneHomeClient.Client.RunForever | src/phonehome.rs:345-402 | over any schedule of events the loop's fields are those of the protocol's run over that schedule |
| PhoneHomeClient.Operate | src/phonehome.rs:345-402 | for a client started fresh and run over any schedule: conservation, wire order and the reconnect bound, read off its real fields |
| Agent.AgentRefinesProtocol | src/phonehome.rs:297-302 | every run of agent and workers, seen from the network, is a run of the protocol |
| Agent.ContractIsExact | src/phonehome.rs:74-98 | a worker pushes running frames and one terminal frame, `done` iff the handler returned Ok, if and only if the handler reports running states and `done` last exactly when it returns Ok |
| Agent.CommandFramesInOrder | src/phonehome.rs:297-313 | over every run, what is acknowledged of one command instance is a prefix of what its worker pushed, under its own job id, running frames and at most a last terminal one |
| Agent.ExactlyOneTerminalFrame | src/phonehome.rs:74-98 | worker done, queue and slot empty: the acknowledged frames of the instance are running frames closed by one terminal frame, unless exactly that frame does not serialise |
| Agent.EveryCommandIsStillClosed | src/phonehome.rs:360-372 | from every run of the agent, one back-off and one connection that accepts its writes acknowledge all that was pushed, and the one terminal frame of every finished command that keeps the contract |
| Agent.EveryExecutionIsAuthorised | src/registry.rs:93-121 | over every run and any registrations, each execution belongs to one received command whose role holds the capability of the handler last registered under its name; each shell call lies in one |
| Agent.StartedWorkersGetWhatIsOwed | src/registry.rs:93-121 | over every run and any registrations: a started worker runs the handler last registered under its command's name if the role holds that handler's capability, and otherwise is refused with the error that names what is missing |
| Agent.StartIsNotIgnored | src/phonehome.rs:297-302 | starting a worker always takes it out of the state it waited in |
| Agent.RefusedCommandsOnlyReport | src/phonehome.rs:85-97 | an unknown or forbidden command executes nothing, calls no shell and puts exactly one error frame on the queue |
| Agent.ErrorTextTells | src/registry.rs:26-56 | the text of an unknown command, a missing parameter or a shell failure is the text of no other error |
| Agent.FirstLetterTells | src/registry.rs:26-56 | the first letter of an error text tells which of the five errors it is |
| Agent.HandleCommand | src/phonehome.rs:79-98 | the frames pushed for one command, in order and all under its job id, for every outcome of dispatch and handler |
| Agent.LifeEndsServed | src/phonehome.rs:297-302 | among any other events, a worker that starts, reports and returns as its handler behaves ends where `HandleCommand` alone would, and has pushed those frames |
| Report.FramesSay | src/report.rs:31-60 | the result is in the done frame and in no other, the detail in the error frame, phase and percentage in running frames |
| Authz.OperatorsHoldMore | src/authz.rs:77-95 | what a guest does not hold are four capabilities; an operator holds all |
| Registry.LastRegistrationWins | src/registry.rs:68-70 | a name is known iff some registration carries it, and maps to the last that does |
| Registry.CatalogIsUnique | src/registry.rs:80-91 | one handler map has one strictly name-sorted catalog, whatever order the map yields its values in |
| Registry.CatalogSize | src/registry.rs:72-74 | the catalog has as many entries as the map has handlers |
| Registry.OverlayKeepsCatalog | src/commands/mod.rs:34-40 | layering any override list leaves the catalog as it is if and only if each name it touches existed with the same capability |
| Registry.OverlayRunsTheOverride | src/commands/mod.rs:86-96 | such a layering leaves the gate as it is and makes dispatch reach the overriding handler |
| Registry.CommandRegistry.Register | src/registry.rs:68-70 | the map stays the one of all registrations so far |
| Registry.CommandRegistry.RegisterAll | src/commands/mod.rs:86-96 | a list of overrides is registered in order over what is there |
| Registry.CommandRegistry.Len | src/registry.rs:72-74 | the number of catalog entries |
| Registry.CommandRegistry.Commands | src/registry.rs:83-91 | strictly name-sorted, one entry per registered name with its capability, nothing else |
| Registry.SortByName | src/registry.rs:89-90 | strictly sorted, same members |
| Registry.CommandRegistry.Dispatch | src/registry.rs:93-121 | for the last registration of the name: that handler if the role holds its capability, else forbidden with name, role and capability; unknown iff there is no registration of the name |
| Registry.LookupIsOwed | src/registry.rs:98-119 | a lookup gives exactly what the registrations and the role call for, and that is one thing |
| Registry.LessExactly | src/registry.rs:89-90 | names are ordered by prefix or by their first difference |
| DnsStore.SuccessIsAgreement | src/commands/dns.rs:293-302 | a plan goes through iff existing and planned values of each key agree on one value and every record finds its zone; the store is then the initial one joined with the plan |
| DnsStore.OrderDoesNotMatter | src/commands/dns.rs:273-327 | if the records that bring no zone find theirs, any two plans with the same members have the same success, and on success the same store |
| DnsStore.OrderIndependenceIsExact | src/commands/dns.rs:279-288 | exactly which plans succeed or fail alike in every order |
| DnsStore.StoreIndependenceIsExact | src/commands/dns.rs:293-302 | exactly which plans leave the same store in every order, runs that throw included: those that go through in every order and those none of whose records would be written |
| DnsStore.NothingIsReplaced | src/commands/dns.rs:243-245 | on every run, one that throws part-way included, no record present before is removed or altered, and exactly the records before the throw are written |
| DnsStore.ReapplyingIsIdempotent | src/commands/dns.rs:299-302 | after a success, applying any of the plan's records again, in any order, reports each retained and changes nothing |
| DnsStore.StatusesTell | src/commands/dns.rs:299-312 | a record is reported created iff nothing had its key, neither before the run nor from an earlier record of the run |
| DnsStore.ThrowTells | src/commands/dns.rs:293-302 | a run throws a conflict iff the record it throws at finds a value there, which is then not its own; else because the zone is missing and the record does not bring it |
| DnsRecords.ParsePlannedRecords | src/commands/dns.rs:57-122 | accepts exactly texts within the limit that decode to 1 to 32 records with good id, zone and, per kind, label and address, reverse zone, address and name, or label and name, all as texts; otherwise which error when, the first faulty record's last |
| DnsRecords.CheckRecordExactly | src/commands/dns.rs:76-119 | over all records: accepted iff good as a text, and each of the five errors exactly for the record whose first fault it is |
| Grammar.DnsNameExactly | src/commands/util.rs:92-106 | accepted iff the text is labels joined by dots with perhaps a dot at the end, 253 characters without it; a label is 1 to 63 letters, digits and hyphens, none at the ends |
| Grammar.SingleLabelExactly | src/commands/dns.rs:43-45 | a single label is one such label, with no dot at the end |
| Grammar.NumeralExactly | src/commands/ca.rs:508-510 | digits have the value n iff they are the decimal of n behind any zeros |
| Grammar.AddressExactly | src/commands/dns.rs:88-96 | accepted iff the text is the dotted decimal of a number below 2^32 |
| ZoneText.ReverseZoneExactly | src/commands/dns.rs:47-55 | a DNS name is accepted iff, but for case and a final dot, it is one to three numerals of at most 255, leading zeros or not, under in-addr.arpa |
| DnsRecords.ReverseInPlace | src/commands/dns.rs:283-283 | the array, in place, is its own reversal |
| DnsRecords.ComputeNetworkId | src/commands/dns.rs:282-286 | the loop that pads with zero octets computes the zone's network id |
| DnsRecords.DnsServer.Put | src/commands/dns.rs:304-312 | one record put on the server is one step of the store: retained, created or conflict |
| DnsRecords.DnsServer.EnsureReverseZone | src/commands/dns.rs:280-288 | the zone is there afterwards iff it was before or its spelling makes it; nothing else changes |
| DnsRecords.DnsServer.PutPtr | src/commands/dns.rs:279-302 | zone creation and PTR update together are one step of the store |
| DnsRecords.DnsServer.ApplyRecord | src/commands/dns.rs:275-325 | one turn of the script's loop is one step of the store for each record kind |
| DnsRecords.DnsServer.ApplyResources | src/commands/dns.rs:267-327 | the whole script: store, statuses and throw are those of the specification |
| DnsRecords.ApplyCommand | src/commands/dns.rs:257-337 | the handler: which error text when, the first faulty record deciding; an accepted plan reaches the server iff its text fits into one argument, and success iff the script then throws nowhere; store, statuses and frames for every outcome |
| DnsRecords.SameEntryExactly | src/commands/dns.rs:273-302 | two accepted records update one entry iff they agree in kind, in zone but for case and a final dot, and in name but for case, or, for PTR records named right, in address |
| DnsRecords.SameValueExactly | src/commands/dns.rs:293-302 | they ask for one value iff it is the same address, or the same name but for case and a final dot |
| DnsRecords.PlanOrderDoesNotMatter | src/commands/dns.rs:273-327 | for accepted plans whose zones exist (or are PTR zones spelled so that they get created), every permutation has the same success, agreement, and on success the same final store |
| DnsRecords.PlanStoreIndependenceIsExact | src/commands/dns.rs:273-327 | for every accepted plan: all orders of its records leave the same store iff its values agree and its zones are at hand, or none of its records would be written |
| DnsRecords.OrderShowsInAFailedPlan | src/commands/dns.rs:313-323 | two accepted CNAME records whose two orders both fail and leave different stores |
| DnsRecords.VerifyRecords | src/commands/dns.rs:395-408 | the loop of look-ups: each check says whether the planned value is found, and the script goes on iff all are |
| DnsRecords.CheckReadsTheStore | src/commands/dns.rs:400-405 | an A or CNAME check holds iff a record of the kind whose full name is the planned name and zone has the planned value |
| DnsRecords.VerifyHoldsAfterApply | src/commands/dns.rs:395-408 | after a successful apply every A and CNAME check holds, and every PTR check whose address lies under its zone, though the two commands build PTR names differently |
| DnsRecords.PtrCheckIsExact | src/commands/dns.rs:395-408 | after any successful apply on any store, a PTR check holds iff the record is named after its address or another record answers in its place |
| DnsRecords.PtrCheckOnAnEmptyServer | src/commands/dns.rs:396-399 | an accepted PTR record applied to an empty server passes its check iff its address lies under its zone and the zone has no trailing dot |
| ReverseZone.PtrNameIsReverseName | src/commands/dns.rs:289-292 | for every accepted zone without trailing dot and every address, relative name and zone together are the address's reverse-mapping name iff the address lies under the zone |
| ReverseZone.PtrNameInADottedZone | src/commands/dns.rs:289-290 | with a trailing dot that holds iff, besides, the zone has three labels |
| ReverseZone.PtrNameExactly | src/commands/dns.rs:279-292 | the exact condition over all accepted zones and all addresses |
| ReverseZone.NumericZonesNeedCanonicalLabels | src/commands/dns.rs:52-54 | an address under the zone by value gets its reverse name iff the zone has no leading zeros |
| ReverseZone.NetworkIdIsMaskedAddress | src/commands/dns.rs:282-286 | the network id is the address masked to eight bits per label, in CIDR form |
| ReverseZone.CreatesTheZoneAskedFor | src/commands/dns.rs:281-288 | creating by network id creates the zone asked for iff it has no trailing dot and no leading zeros, and otherwise none |
| ReverseZone.DottedZoneFails | src/commands/dns.rs:48-48 | every octet with a trailing dot names a zone that is accepted, never created, and gives no address its reverse name |
| ReverseZone.LeadingZeroFails | src/commands/dns.rs:54-54 | every octet with a leading zero names a zone that is accepted, never created, and gives no address its reverse name |
| ReverseZone.ZonesThatFail | src/commands/dns.rs:279-292 | `10.in-addr.arpa.` and `010.in-addr.arpa` for 10.1.2.3 |
| Util.DnsNameCharacters | src/commands/util.rs:92-106 | an accepted DNS name holds letters, digits, hyphens and dots, and no whitespace |
| Hosts.AcceptedByRows | src/commands/certsecure.rs:58-92 | a text is accepted iff it has non-blank lines and each is an address with valid host names; the output is those rows, single-spaced |
| Hosts.ParsedExactly | src/commands/certsecure.rs:58-92 | accepted iff there are rows and each is a dotted quad and then names, as texts; otherwise the error is the one of the first bad row, or of there being none |
| Hosts.Ipv4Exactly | src/commands/certsecure.rs:41-50 | accepted iff the text is four pieces joined by dots, each the decimal of some n <= 255 behind zeros, three digits at most |
| Hosts.PlainEntryIsItsOwnBlock | src/commands/certsecure.rs:58-92 | the decimal address of any number below 2^32 and any DNS names, single-spaced, is accepted as it stands |
| Hosts.LinesExactly | src/commands/certsecure.rs:60-60 | the lines of a text are those it was made of, newlines with or without carriage returns, the last perhaps not ended |
| Text.FieldsExactly | src/commands/certsecure.rs:65-66 | the fields of a line are the words it is made of, whatever white space is between and around them |
| Text.TrimExactly | src/commands/certsecure.rs:61-61 | trimming takes off all white space around a text and nothing of the text |
| Text.WhitespaceExactly | src/commands/certsecure.rs:61-61 | white space is the 25 characters Unicode calls so |
| Text.WidthIsLeast | src/commands/util.rs:95-95 | a character takes the fewest bytes of UTF-8 that hold its code |
| Hosts.ParserNormalises | src/commands/certsecure.rs:52-57 | every output is accepted, parses to itself, and has the same rows as the input |
| Hosts.BlockLinesAreNoMarkers | src/commands/certsecure.rs:38-39 | no line of an accepted block is a marker |
| Hosts.ParseEntries | src/commands/certsecure.rs:58-92 | the loop accepts exactly texts with rows that are all good, and returns them single-spaced; otherwise the error of the first bad row |
| Hosts.LastWriterWins | src/commands/certsecure.rs:160-181 | for every file and any two accepted entry texts, writing one and then the other leaves what writing the other alone leaves, iff the file keeps no last line without newline |
| Hosts.TerminatedTextIsNotDangling | src/commands/certsecure.rs:165-168 | in particular for every file that ends in a newline, managed blocks repeated or cut off or not |
| Hosts.LastWriterDoesNotAlwaysWin | src/commands/certsecure.rs:168-173 | a file and an accepted entry whose two rewrites differ from one |
| Hosts.InterruptedRunConverges | src/commands/certsecure.rs:165-167 | for every file, after a write cut off at any character, the next run leaves what it would leave without it, iff the cut falls right before the block, or not before the begin marker is out on a line of its own |
| Hosts.OutsideIsKeptExactly | src/commands/certsecure.rs:165-173 | everything outside the managed block survives a rewrite and a later strip iff the block holds no end marker |
| Hosts.StripLines | src/commands/certsecure.rs:168-168 | sed's range deletion, line by line, is the strip the theorems are about |
| Hosts.StripExactly | src/commands/certsecure.rs:168-168 | for every text: the lines kept are, in order, those that are no begin marker and have no begin marker before them without an end marker in between; a last line without newline is kept on the same terms |
| Hosts.NonEmptyExactly | src/commands/certsecure.rs:180-180 | the line count is the number of positions that hold a non-empty line |
| Hosts.TotalIsOutsideAndBlock | src/commands/certsecure.rs:180-192 | the line total after a run is that outside the block, the entries and the two markers, or one less where the begin marker went onto a kept line |
| Hosts.HostsFile.Write | src/commands/certsecure.rs:149-196 | missing or bad entries leave the file alone, with the error text of the first bad row; good ones leave the rewrite and report their number and the line total, or, if the script stops, the old file or a beginning of the new one; the frames keep the handler contract |
| Base64.DecodeEncode | src/commands/file.rs:75-81 | decoding an encoding gives the bytes back |
| Base64.EncodeDecode | src/commands/file.rs:137-139 | what the strict decoder reads has the length of its bytes' encoding, and is that encoding iff the bits under its padding are zero |
| Base64.EncodeDecodeGroups | src/commands/linux.rs:346-346 | what the decoder that reads each group by itself accepts is the encoding of its bytes iff only the last group is padded and the bits under the padding are zero |
| Base64.DecodersAgreeExactly | src/commands/linux.rs:343-348 | what the strict decoder reads, the other reads alike; of what the other reads, they agree exactly on content not padded before its last group |
| Base64.AlphabetIsStandard | src/commands/file.rs:81-81 | capitals, small letters, digits, plus, slash, in this order |
| Base64.GroupIsBigEndian | src/commands/file.rs:81-81 | three bytes are a number of 24 bits, most significant first, and the characters its four digits of six bits |
| Base64.TwoAreBigEndian | src/commands/file.rs:81-81 | two bytes are filled up with two zero bits and one padding character |
| Base64.OneIsBigEndian | src/commands/file.rs:81-81 | one byte is filled up with four zero bits and two padding characters |
| Base64.EncodeConcat | src/commands/file.rs:81-81 | whole groups are encoded one after the other |
| Base64.ReadsTwo | src/commands/file.rs:139-139 | a group with one padding character decodes to two bytes, whatever bits fall under the padding |
| Relay.CapAdmitsExactly | src/commands/file.rs:25-26 | the encodings file.write admits are exactly those of 1 to 262146 bytes |
| Relay.AdmittedExactly | src/commands/file.rs:122-132 | content is admitted iff it is 1 to 349528 characters, each of the base64 alphabet or the padding |
| Relay.KeyExactly | src/commands/file.rs:38-39 | two paths name one file iff they are equal, case aside on Windows |
| Relay.ReadPassesWrite | src/commands/file.rs:122-134 | what file.read returns for 1 to 262144 bytes passes every check and decodes to the same bytes |
| Relay.WrittenReadsBack | src/commands/linux.rs:328-349 | on either platform, of any admitted content that decodes: 1 to 262146 bytes are written, whose encoding is the content iff no group but the last is padded and there are no stray bits |
| Relay.PlatformsWriteAlike | src/commands/file.rs:137-141 | exactly which content the two platforms decode alike |
| Relay.InnerPaddingIsAdmitted | src/commands/linux.rs:332-346 | `QQ==QQ==` passes all checks, is refused on Windows and written as two bytes on Linux |
| RelayHost.Host.RunWindowsRead | src/commands/file.rs:75-83 | exits well iff the path names a file of at most 262144 bytes that is read through and digested; prints its encoding, digest and size |
| RelayHost.Host.RunLinuxRead | src/commands/linux.rs:278-290 | exits well iff the path names anything of at most 262144 bytes; prints the encoding of what was got (nothing of a directory, the bytes up to where reading broke off of a file), the digest or nothing, and the size |
| RelayHost.Host.FileRead | src/commands/linux.rs:266-305 | on either platform: succeeds iff the path is one of the accepted texts, script and its output good; the output as its script prints it; which error when; the frames, which keep the handler contract |
| RelayHost.ReadIsTheFile | src/commands/linux.rs:286-287 | an output is the file and its digest iff the path names a file and both commands read it through |
| RelayHost.DigestTells | src/commands/file.rs:53-53 | comparing the digest with that of the decoded content tells exactly this, if digests separate the two |
| RelayHost.SizeTells | src/commands/linux.rs:281-287 | comparing the size with that of the decoded content tells whether the content is whole, a directory without size aside |
| RelayHost.DirectoryReadsAsDone | src/commands/linux.rs:281-304 | every directory within the cap is printed as empty content without digest on Linux, and refused on Windows |
| RelayHost.ConfDirectoryIsAccepted | src/commands/linux.rs:43-49 | the path check lets a directory under the product tree through |
| RelayHost.Host.CheckWrite | src/commands/file.rs:118-132 | passes iff the path is one of the accepted texts and the content admitted; which error when |
| RelayHost.Host.RunWindowsWrite | src/commands/file.rs:137-145 | a digest comes back iff the content decodes and the file can be written and digested; no other file changes, and this one iff it was written |
| RelayHost.Host.RunLinuxWrite | src/commands/linux.rs:343-350 | exits well iff every group decodes and the file can be written, with a digest or none; content that is refused leaves a partial file |
| RelayHost.Host.FileWrite | src/commands/linux.rs:320-357 | on either platform: which error when; success iff short enough for an argument, decodable and written, and on Windows digested; files, digest and frames for every outcome; the frames keep the handler contract |
| RelayHost.Carry | src/commands/file.rs:1-7 | read here, write there, over all platforms and failures: when both report success, what then arrives and with which digests, and that equal digests that are not empty mean the whole file; otherwise the target keeps its files unless its script failed part-way |
| RelayPath.PosixPathsAreContained | src/commands/linux.rs:43-49 | under any allowlist of directories, every accepted path, normalised by dropping empty and `.` segments and resolving `..`, is at or beneath an allowlisted root |
| RelayPath.WindowsPathsAreContained | src/commands/file.rs:34-41 | the same for Windows paths, case aside |
| RelayPath.RelayPathsAreContained | src/commands/linux.rs:38-41 | the two allowlists of the code are such |
| RelayPath.PosixRelayPathExactly | src/commands/linux.rs:34-49 | accepted iff the path is one of the two directories and a non-empty rest of letters, digits and ` ._-/` without `..`, 200 bytes in all |
| RelayPath.WindowsRelayPathExactly | src/commands/file.rs:28-41 | accepted iff the path is one of the three directories in any case and a non-empty rest of letters, digits and ` ._-\()` without `..`, 200 bytes in all |
| Relay.RelayPathExactly | src/commands/file.rs:28-41 | the same for either platform |
| RelayPath.PrefixAloneIsNotEnough | src/commands/linux.rs:45-45 | without the `..` check, a path that starts with a prefix can leave its directory |
| RelayPath.PrefixSliceIsOnABoundary | src/commands/file.rs:38-39 | every byte offset into an accepted Windows path is a character boundary |
| Publication.ListSurvivesExactly | src/commands/ca.rs:580-584 | splitting the joined argument at the separator gives the entries back iff none contains the separator |
| Publication.EntryExactly | src/commands/ca.rs:504-524 | valid iff the entry is a numeral of at most 1023, a colon, and a location of at most 300 bytes that starts with ldap:///, http://, https://, file://, two backslashes, or a drive with something behind it, and holds none of the seven forbidden characters |
| Publication.EntriesExactly | src/commands/ca.rs:546-554 | the entries of a parameter are the non-blank lines it was written with, whatever blanks stand around them |
| Publication.PairJoinSplit | src/commands/ca.rs:580-584 | joining the pieces certutil reads gives the argument back |
| Publication.ValidEntryCanBeSplit | src/commands/ca.rs:504-524 | every file share on a host whose name starts with n is a valid entry that does not survive |
| Publication.ListReadsBack | src/commands/ca.rs:546-554 | the entries, joined with newlines and read again, are the same entries |
| Publication.ArgumentIsInert | src/commands/ca.rs:523-523 | no character of the joined argument of valid entries is a quote, backtick, dollar, semicolon or line break |
| Publication.FindBad | src/commands/ca.rs:564-565 | the first entry that is not such a text, or none iff all are |
| Publication.RerunsConverge | src/commands/ca.rs:526-530 | however many runs of the same lists stopped and wherever, one that completes leaves the arrays it would leave on its own |
| Publication.CertificateAuthority.ConfigureCdpAia | src/commands/ca.rs:542-606 | which error when, with the text of the first bad entry; nothing touched before both lists validate; AIA first, then CDP, wherever the script stops; on success each array is its list iff no entry holds the separator, an empty list leaving its array alone; the frames keep the handler contract |

## Left out

- TCP-level loss: a frame whose write the socket accepted counts as seen by the peer; the code has no acknowledgement above that either.
- Serialisation and JSON parsing: a frame carries whether it serialises, commands arrive parsed, and what decoding a records text gives is a parameter beside the text.
- TLS, URLs, headers, WebSocket framing, logging, and the tokio runtime's fairness and cancellation.
- PhoneHomeClient.Client.RunForever: loops until its schedule of events ends, where the source loops forever; `rx.recv()` yielding None at shutdown does not occur.
- The attempt counter does not overflow; the clock is a real number.
- Handler panics, process exit and the disk state they leave: the code promises no terminal frame there.
- Handlers other than those modelled, the parameter checks of each, and the concrete list and fixture of the default registry: `Registry` and `Agent` hold for any handlers.
- DNS data is kept in normal form (names and host values case folded, no trailing dot); the server's own refusals (a CNAME beside other records, say) are not modelled.
- ReverseZone.CreatesTheZoneAskedFor: takes a network id that is not canonical text to be refused; a server that reads it in some other way would create some other zone.
- DnsRecords.VerifyHoldsAfterApply: a lookup reads records by full name; a server with nested zones that answers from the most specific one is not modelled.
- The SRV and HTTP checks of `dns.verify`, and `dns.set_client` and `dns.create_record`.
- Hosts.HostsFile.Write: file mode, ownership and the temporary file are not modelled.
- RelayHost.Host.FileRead: SHA-256 is any function of the bytes; the JSON result in the last frame is reduced to its content; a file that changes while a script reads it, and paths that name devices, are not modelled.
- RelayHost.Host.FileWrite: creation of the parent directory is part of the disk working or not; what `base64 -d` leaves behind on bad input is a parameter, and so is the longest argument the shell can be started with. Two spellings of one path count as two files.
- RelayHost.Host.RunLinuxWrite: takes `base64 -d` to read each group of four characters by itself, as GNU coreutils 9.1 does; a version that also supplies missing padding is not modelled.
- RelayPath.WindowsPathsAreContained: Windows dropping trailing dots and spaces of a segment is not modelled; no `..` segment can come of it.
- Links on disk: containment of relay paths is lexical, as the check is.
- Publication.CertificateAuthority.ConfigureCdpAia: certutil's reading of its argument is taken to be the split at the separator.
- The path checks of `certsecure.make_cert` and `certsecure.install`, which differ from the relay's, and all scripts that drive AD CS, IIS, OCSP, domain join or the vendor installer.
