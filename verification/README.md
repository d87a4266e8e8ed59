# Sleuth: verified model

Sleuth is a DNS proxy that decides, client by client, which names may be reached, hands out fake
addresses for the answers, and keeps packet-filter rules that send those addresses on. This project
models the parts of it that carry state or arithmetic and proves what they promise, in Dafny 4.11.
`dafny verify dfyconfig.toml` checks all of it.

Records in the key-value store are finite maps from keys to records, visited in key order. The clock,
the bytes of a random source, the answers of the network layer, the counters a packet filter reports,
and which of its commands fail are parameters. Each method that changes state is proved to take one
step of a pure function on that state; the laws are then proved about the functions, over every input
or every run.

| area | files |
|---|---|
| fake addresses | `OffsetScan`, `Addresses`, `KeyStore`, `Records`, `AllocationLaws` |
| forwarding state | `ForwardState`, `ForwardManager`, `ForwardRuns`, `ReviewLaws`, `BackendLaws` |
| NAT rules and sessions | `NatAgreement`, `NatExactness`, `NatRemovals`, `AgreementRuns` |
| addresses of sessions | `SessionAddresses`, `AddressRuns` |
| rule lists and categories | `RuleSource`, `RuleIndex`, `RuleMatching`, `RuleEngine`, `CategoryForest` |
| DNS names | `NameCodec`, `NameCodecLaws`, `NameChain`, `NameImage`, `Labels` |
| random choice | `Sampling`, `Shuffle`, `ShuffleStrings`, `HostOrder`, `Bits` |
| access decisions | `Schedule`, `DomainAccess`, `AccessSessions`, `Security`, `AccessLaws`, `LookupLaws`, `Text` |

## Where the code is not what a reader expects

These are proved with the exact condition, not assumed away.

- 10.0.0.1 reads back as the last offset, not as offset 0. A session that is given it is allocated
  again, and the record under offset 0 stays (`SettlesExactly`, `SwitchDropsOwnRecord`).
- A session of a type other than A looks its address up among the client's type-A records, and
  deletes the one it finds there for another host (`OtherTypeDeletes`).
- Two sessions of a client and type can come to stand at one address, but not before some event has
  deleted the record of a session that is still live: that release for another type, or a switch of
  backend that drops an expired session at 10.0.0.1 or without an address while a live one stands at
  10.1.0.0 (`RunsUnsharedExactly`, `RunsRootedExactly`, `UnderminesExactly`, `SharingFollowsUprooting`).
- A flush is for whatever a form asks for. Asked for a client, a colon and a type, it drops that
  client's sessions of that type; it isolates a client exactly when its query returns that client's
  sessions and no others (`FlushOfTypeDrops`, `FlushIsolatesExactly`).
- A review judges expiry by the snapshot it took first, so a session whose counter has just moved can
  still be dropped (`SurvivesExactly`). When rules and sessions agree, it keeps an expired session
  exactly when that has an A record and no rule, or a rule whose deletion is refused; an A record
  without an allocated address is such a case (`SurvivesInAgreement`).
- Four things leave rule and session apart: an answer from the store, which stores a new verdict and
  moves no rule; a further answer with upstream records, which removes no rule when it replaces the
  record, allocates anew, or stores a new verdict; a look-up without a profile, which makes the update
  look for a rule the session may not have; and a refused command. For each the exact condition is on
  the state before (`CachedAnswerExactly`, `RefreshExactly`, `RefreshOfRuleExactly`,
  `WithoutProfileExactly`, `RefusedExactly`), and rules and sessions agree through a run exactly when
  every event meets its own (`RunsAgreeExactly`).
- A client can be admitted without a profile: whenever its role has no active schedule
  (`ProfileMissingExactly`, `AdmittedWithoutProfile`).
- A rule `*` or `*.` in a downloaded list becomes a wildcard over nothing or over the root, which a
  plain scan would match and the look-up never does (`EntryShape`, `IndexAgreesExactly`).
- The codec carries labels up to 191 bytes, not only the 63 of section 2.3.4 of RFC 1035, and no
  others (`RoundTripExactly`). A name decoded without pointers stood there as its own encoding exactly
  when it has a label and no label has a dot in it (`EncodingExactly`). Decoding follows pointers
  forward too, and does not end when they lead back to a name already begun (`EndsExactly`).
- Blocking a name blocks everything under it unless the name is the root: an empty entry blocks the
  root and never all of its subdomains (`ClosedExactly`).
- An allow-list entry admits a name under it only when the part before it happens to have the right
  length (`AllowedSubdomainExactly`).
- The first look-up of a client known by its hardware address answers "unauthorised" although it
  stores an admitted session (`FirstAnswerExactly`).
- Setting the empty profile name succeeds when it is active, but is not what the next look-up chooses
  unless it comes first (`SetProfileIsChosen`).

## Model

| member | source | states |
|---|---|---|
| OffsetScan.FirstAvailable | internal/firewall/FirewallManager.go:158-182 | the 64-bit-word scan returns the least offset no record uses, and none exactly when all 65536 are used, for any list with repeats |
| OffsetScan.MarkSeen | internal/firewall/FirewallManager.go:160-165 | the bit map marks exactly the offsets of the list, every word within 64 bits |
| OffsetScan.FirstClearBit | internal/firewall/FirewallManager.go:167-172 | the complement of a word is zero exactly for a full word, and otherwise its trailing-zero count is the first clear bit |
| Addresses.AddressRoundTrip | internal/firewall/FirewallManager.go:124-142 | every 32-bit number reads back from its dotted form |
| Addresses.OffsetRoundTrip | internal/firewall/FirewallManager.go:144-156 | an offset reads back from its address, except offset 0, which reads back as 65535 |
| Addresses.AddressesDistinct | internal/firewall/FirewallManager.go:144-147 | different offsets have different addresses |
| Addresses.AddressText | internal/firewall/FirewallManager.go:138-147 | offset o is handed out as the text 10.x.y.z of the (o+1)-th address past 10.0.0.0, octets most significant first |
| Addresses.OffsetOfWord | internal/firewall/FirewallManager.go:149-156 | any address reads back as its distance past 10.0.0.1, and as 65535 at or below it |
| KeyStore.ReverseKeyInjective | internal/db/db.go:589-607 | a reverse key determines client, type and offset, for any client string |
| KeyStore.ReversePrefixClient | internal/db/db.go:605-607 | the prefix query for a client and type returns no other client's records, though other types' |
| KeyStore.ReversePrefixTypes | internal/db/db.go:605-607 | it returns exactly the client's records of the types whose decimal digits start with the type's, so 16 with 1 |
| KeyStore.InOrderIncreases | internal/db/db.go:601-607 | a prefix query visits its keys in increasing order |
| KeyStore.KeyOrder | internal/db/db.go:601-607 | which is that of the dictionary: by the first difference, a key before its extensions |
| KeyStore.SessionPrefixClient | internal/db/db.go:537-555 | the prefix query for a client's sessions returns exactly that client's |
| ForwardManager.FirewallManager.Allocate | internal/firewall/FirewallManager.go:184-238 | keeps a held address; otherwise gives up a stale one, files the least free offset and its rule, or reports that none is free; a session without an address gets the text of the least free one |
| ForwardManager.FirewallManager.UpdateIPv4 | internal/firewall/FirewallManager.go:240-257 | removes the rule, stores the new reason, adds the rule for it; stops unchanged when the removal fails |
| ForwardManager.FirewallManager.ReevaluateAccess | internal/dns/dnsserver.go:446-465 | given the session information of an error-free look-up, applies the verdict of each of the client's sessions in key order |
| ForwardManager.FirewallManager.ReviewFwdRules | internal/firewall/FirewallManager.go:274-325 | charges counters against the snapshot, then drops the sessions the snapshot shows expired |
| ForwardManager.FirewallManager.Charge | internal/firewall/FirewallManager.go:279-302 | one counter is charged to the first matching session it exceeds |
| ForwardManager.FirewallManager.FlushSource | internal/firewall/FirewallManager.go:327-346 | removes the client's rules, sessions and type-A records |
| ForwardManager.FirewallManager.SetActiveFirewall | internal/firewall/FirewallManager.go:56-122 | does nothing for the active backend; otherwise switches off, or chooses a backend, drops expired sessions and installs the rules of the others |
| ForwardManager.FirewallManager.ChooseBackend | internal/firewall/FirewallManager.go:88-99 | the named backend, else the first, else the one active before |
| ForwardManager.FirewallManager.InitFilter | internal/firewall/ipTables.go:32-77 | iptables starts from empty chains and installs the rules that have an address |
| ForwardManager.FirewallManager.Append | internal/firewall/ipTables.go:94-119 | adds the DNAT rule, except for an address that is the client's own |
| ForwardManager.FirewallManager.Remove | internal/firewall/ipTables.go:121-148 | takes one copy of the rule out, and fails when there is none |
| ForwardRuns.RunKeepsInvariant | internal/firewall/FirewallManager.go:184-346 | over every run of all operations, reverse records stand under keys of their own offset with that offset's address, and sessions under their own keys |
| ForwardRuns.AddressesApart | internal/firewall/FirewallManager.go:205-213 | in every reachable state the record under an offset stores it and its address, and addresses within a client and type are pairwise distinct |
| ForwardRuns.CreateMeetsNoKey | internal/firewall/FirewallManager.go:203-213 | the offset picked from the superset query is free in the store, so creating its record meets no existing key |
| ForwardRuns.AllocationCreates | internal/firewall/FirewallManager.go:203-229 | in every reachable state an allocation that finds an offset creates exactly its record |
| ForwardRuns.FlushIsolatesExactly | internal/firewall/FirewallManager.go:327-346 | whatever is asked for, a flush empties that client's sessions and type-A records and changes nothing of other clients or types if and only if the query returns that client's sessions and no others; for a client without a colon it does |
| ForwardRuns.FlushOfTypeDrops | src/wcStats.go:76-82 | asked for a client, a colon and a type, it drops the client's sessions of that type |
| ForwardRuns.FlushAfterRun | internal/firewall/FirewallManager.go:327-346 | the same in every state that any run of events of colon-free clients reaches, whatever is asked for |
| ForwardRuns.DropExpiredRemoves | internal/firewall/FirewallManager.go:101-120 | a switch removes exactly the expired sessions and the records their addresses are taken to stand for |
| ForwardRuns.SwitchDropsOwnRecord | internal/firewall/FirewallManager.go:104-107 | that record is the session's own exactly when its offset is not 0; for offset 0 it is the last offset's |
| AllocationLaws.AllocatesLeast | internal/firewall/FirewallManager.go:203-229 | a session of any type without a recognised address gets the text of the least address free for its type, and exactly its record there is added |
| AllocationLaws.FirstAddress | internal/firewall/FirewallManager.go:203-226 | the first session of a client and type whose query finds no record gets 10.0.0.1 |
| AllocationLaws.RecognisedIsNoOp | internal/firewall/FirewallManager.go:188-201 | a session that stands at an offset in 1..65534 under its own host name is left alone |
| AllocationLaws.SettlesExactly | internal/firewall/FirewallManager.go:184-238 | for any type, by the state before both: the allocation after the first changes nothing if and only if the least free offset is in 1..65534 and the session is of type A or the client has a type-A record for the host there; after offset 0 or 65535 the record filed there stays |
| AllocationLaws.OtherTypeDeletes | internal/firewall/FirewallManager.go:188-201 | for a type other than A, allocating again deletes the type-A record under the session's offset exactly when the offset is in 1..65534 and the record is for another host |
| AllocationLaws.TwoAllocationsSettle | internal/firewall/FirewallManager.go:184-238 | two allocations settle a fresh type-A session if and only if some offset in 1..65534 is free |
| AllocationLaws.AllocationStabilises | internal/firewall/FirewallManager.go:184-238 | then, in every reachable state, every later allocation succeeds and changes nothing |
| ReviewLaws.SurvivesExactly | internal/firewall/FirewallManager.go:303-323 | a session survives a review exactly when its snapshot expiry had not passed or the removal of its rule failed |
| NatRemovals.SurvivesInAgreement | internal/firewall/FirewallManager.go:303-323 | from agreement: exactly when its snapshot expiry had not passed, or it has an A record and no rule or one whose deletion is refused |
| ReviewLaws.SurvivorsCharged | internal/firewall/FirewallManager.go:277-302 | a survivor is what it was, as the last counter charged to it left it; its bytes never decrease |
| ReviewLaws.ChargeAllExactly | internal/firewall/FirewallManager.go:279-302 | after all counters, each session is as the last counter charged to it left it, and nothing else moved |
| ReviewLaws.OwnCounterCharges | internal/firewall/FirewallManager.go:279-302 | a surviving session whose client and address are the source and destination of one counter, above its bytes and of no other session, ends with the counter's bytes and 630 seconds to live |
| ReviewLaws.NoCounterLeaves | internal/firewall/FirewallManager.go:279-302 | a surviving session that no counter is for, or none exceeds, is unchanged; so is every one without a backend |
| BackendLaws.SwitchChooses | internal/firewall/FirewallManager.go:56-99 | after a switch the first backend of the asked name is active, or the first of all when none has it; none for "none"; the one before if it has the name or there is no other |
| BackendLaws.ReviewWithout | internal/firewall/FirewallManager.go:303-323 | a review with another backend drops the expired sessions without an A record, and without a backend all expired ones; it touches no rule |
| BackendLaws.NothingFiltered | internal/firewall/FirewallManager.go:184-346 | without iptables no operation but a switch changes the rule table |
| NatExactness.UpdateIPv4Exactly | internal/firewall/FirewallManager.go:240-257 | one update keeps a client's rules in agreement with its sessions for the new reason, and their number, if and only if the rule is not moved or its successor is accepted; other clients' rules stay, it stops unchanged exactly without a rule or when the deletion is refused, and succeeds exactly when the rule is moved and its successor accepted |
| NatExactness.ReevaluateOneExactly | internal/dns/dnsserver.go:452-461 | one turn of the loop stores the verdict whatever fails, and keeps agreement if and only if the rule follows: with or without a profile, whatever commands are refused |
| NatExactness.RefusedExactly | internal/dns/dnsserver.go:452-461 | with a profile, exactly: the verdict is no news, there is no rule, a refused deletion leaves the rule that is wanted, or the new rule is accepted |
| NatExactness.WithoutProfileExactly | internal/security/security.go:402-408 | for an admitted client without a profile, exactly: there is no rule, the reason was above 0, the redirection goes nowhere else, or no rule for reason 3 is in the table |
| NatExactness.ReevaluationStores | internal/dns/dnsserver.go:446-465 | the loop gives each session of the client its verdict and changes no other session, whatever commands are refused |
| NatExactness.ReevaluationExactly | internal/dns/dnsserver.go:446-465 | rules and sessions of the client agree at every turn if and only if every turn lets the rule follow; with a profile, if and only if no command that matters is refused; then the number of rules and other clients' rules are as before |
| NatExactness.ReevaluateKeepsAgreement | internal/dns/dnsserver.go:446-465 | so with a profile or a rejection and nothing refused, the loop restores agreement and conserves the number of rules |
| NatAgreement.RuleRedirects | internal/firewall/ipTables.go:83-92 | in agreement, a session's rule is in the table, in the output chain exactly when the interface is the client itself, and redirects to the interface exactly when its reason is above 0 |
| NatRemovals.ReviewKeepsAgreement | internal/firewall/FirewallManager.go:303-323 | a review keeps agreement, whatever commands are refused |
| NatRemovals.RemovalWorks | internal/firewall/ipTables.go:121-148 | in agreement, removal succeeds exactly for a session without an A record, or with an allocated address other than its client's whose deletion is not refused |
| NatRemovals.FlushLeaves | internal/firewall/FirewallManager.go:327-346 | whatever is asked for, a flush leaves the rules of the sessions it leaves and, of those it drops, exactly the ones whose deletion was refused |
| NatRemovals.FlushLeavesOfClient | internal/firewall/FirewallManager.go:327-346 | of a client's rules it leaves exactly the refused ones, and all rules of others |
| NatRemovals.FlushKeepsAgreement | internal/firewall/FirewallManager.go:327-346 | a flush keeps agreement if and only if no rule of a session that it drops is refused |
| NatRemovals.SwitchEstablishesAgreement | internal/firewall/FirewallManager.go:101-122 | switching to iptables gives a table with each accepted rule once for every session, whatever it held; it agrees with the sessions if and only if no rule of a live session is refused |
| NatExactness.FirstAnswerExactly | internal/dns/dnsserver.go:110-164 | a first answer (allocate, then store the session) keeps agreement if and only if no address is free, the least free one is the client's own, or the rule for it is accepted |
| NatExactness.RefreshExactly | internal/dns/dnsserver.go:83-164 | a further answer with upstream records keeps agreement if and only if, by the state before: nothing is allocated and there was no rule or the record and its rule stay; or an address is allocated and either there was no rule and the new one is accepted and fits, or the new one is refused and equals the old |
| NatExactness.RefreshOfRuleExactly | internal/dns/dnsserver.go:83-164 | with nothing refused, for a name with a rule: if and only if the record stays, its address is held, and the verdict does not show in the rule |
| NatExactness.CachedAnswerExactly | internal/dns/dnsserver.go:155-164 | an answer from the store keeps agreement if and only if there is no rule, the reason does not cross 0, or the redirection goes nowhere else |
| AgreementRuns.ServeExactly | internal/firewall/FirewallManager.go:56-346 | each event (first answer, answer from the store, further answer, judgement of one session, review, flush, switch) leaves rules and sessions in agreement, when iptables is active, if and only if it fits the state it finds |
| AgreementRuns.RunsAgreeExactly | internal/firewall/FirewallManager.go:56-346 | over every run of these events from the empty state, refused commands included, rules and sessions agree throughout if and only if every event fits |
| AgreementRuns.RunsAgree | internal/firewall/FirewallManager.go:56-346 | so they agree throughout every run of first answers, judgements with a profile or a rejection, reviews, flushes and switches in which nothing is refused |
| AgreementRuns.TurnIsJudgement | internal/dns/dnsserver.go:450-464 | every turn of the re-evaluation loop is one such judgement |
| SessionAddresses.AnswerRootedExactly | internal/firewall/FirewallManager.go:184-229 | an answer leaves every session at a record of its own host if and only if the address it gives up is not that of another session of the client of type A |
| AddressRuns.RunsUnsharedExactly | internal/firewall/FirewallManager.go:184-346 | over every run, sessions of a client and type share no address throughout if and only if every answer is given one that no other of them stands at |
| AddressRuns.RunsRootedExactly | internal/firewall/FirewallManager.go:56-346 | over every run, every session stands at a record of its own host throughout if and only if no event deletes the record of another, live session: an answer of another type, or a switch that files an expired session under a live one's offset |
| AddressRuns.UnderminesExactly | internal/firewall/FirewallManager.go:101-107 | while every session stands at its own record, the record that a switch deletes for an expired session is that of a live one if and only if, for one client and type, the live one is at 10.1.0.0 and the expired one at 10.0.0.1 or without an address |
| AddressRuns.SharingFollowsUprooting | internal/firewall/FirewallManager.go:56-346 | no two sessions of a client and type share an address before some event has deleted the record of a live one |
| RuleEngine.DNSRulesEngine.UpdateRuleSet | internal/rules/DnsRulesEngine.go:1334-1366 | the error for a disabled, source-less or unreachable set, else the parsed list is stored and counted; stored rules stay long enough to slice |
| RuleEngine.ParseLines | internal/rules/DnsRulesEngine.go:1345-1364 | the entries of a text, line by line |
| RuleSource.EntriesInOrder | internal/rules/DnsRulesEngine.go:1345-1364 | entries come in the order of their lines |
| RuleSource.EntryShape | internal/rules/DnsRulesEngine.go:1345-1364 | every entry has at least 2 characters, and is an unusable wildcard exactly for the hosts "*" and "*." |
| RuleSource.BareHost | internal/rules/DnsRulesEngine.go:1316-1332 | a one-word line names that word, whatever white space surrounds it, unless it is a comment |
| RuleSource.HostsFileLine | internal/rules/DnsRulesEngine.go:1316-1332 | a two-word line names the second word exactly when the first is 0.0.0.0 and the second is not |
| RuleSource.ManyWords | internal/rules/DnsRulesEngine.go:1316-1332 | a line of three words or more names no host |
| RuleSource.CommentLine | internal/rules/DnsRulesEngine.go:1345-1350 | a comment names no host, whatever stands before and in it |
| RuleSource.BlankLine | internal/rules/DnsRulesEngine.go:1345-1350 | nor does a blank line |
| RuleEngine.DNSRulesEngine.ReIndex | internal/rules/DnsRulesEngine.go:1416-1459 | the table becomes a function of the rule lists alone, in normal form; a second run gives the same table |
| RuleEngine.DNSRulesEngine.FileRule | internal/rules/DnsRulesEngine.go:1423-1454 | one rule is filed under its name, in the exact or the wildcard list, without duplicates |
| RuleIndex.IndexIsNormalForm | internal/rules/DnsRulesEngine.go:1416-1459 | each name carries exactly the categories of the rules listing it, each once, and has an entry exactly when it has one |
| RuleEngine.DNSRulesEngine.Test | internal/rules/DnsRulesEngine.go:1461-1490 | returns without duplicates exactly the categories found at the name and its label suffixes |
| RuleMatching.DomainIsTail | internal/rules/DnsRulesEngine.go:1463-1467 | the joined label suffixes of a name are exactly the name and what follows a dot in it |
| RuleEngine.IndexedLookup | internal/rules/DnsRulesEngine.go:1416-1490 | after indexing, a look-up finds exactly the categories of the rules, other than "*." and "*..", that are the name, or are "*." and a domain that the name is or is under |
| RuleEngine.IndexAgreesExactly | internal/rules/DnsRulesEngine.go:1416-1490 | it agrees with a plain scan of all lists on every name if and only if no list has one of those two rules |
| CategoryForest.GetSubHierarchy | internal/rules/DnsRulesEngine.go:1572-1587 | the recursion ends, with the categories not yet on the path as its measure; it returns the trees of the category's own children in table order, each with the trees of its own children one level deeper, all the way down |
| CategoryForest.GetCategoryHierarchy | internal/rules/DnsRulesEngine.go:1589-1609 | returns the trees of the categories without a parent in table order, each with the trees of its own children one level deeper, all the way down |
| CategoryForest.RootPathNoRepeats | internal/rules/DnsRulesEngine.go:1572-1587 | a path of parent links from a root never repeats an id, even when the table has cycles |
| CategoryForest.ForestExactly | internal/rules/DnsRulesEngine.go:1589-1609 | the forest holds each category whose parent chain reaches a root exactly once, at the depth of its chain, and no other |
| NameCodec.DnsQueryEncode | internal/network/utils.go:241-266 | fills the buffer with each label after its length byte, and a final zero |
| NameCodecLaws.EncodeOneLabel | internal/network/utils.go:241-266 | a name without a dot is sent as its length, its bytes and a zero |
| NameCodecLaws.EncodeNextLabel | internal/network/utils.go:241-266 | a label and a dot before a name are sent as its length and its bytes before that name's encoding |
| NameCodec.DnsQueryDecode | internal/network/utils.go:198-239 | the loop and its recursion end on every name whose decoding ends inside the buffer, and read as the decoding function does |
| NameChain.EndsExactly | internal/network/utils.go:218-229 | decoding ends if and only if no pointer on the way is cut off by the end of the buffer and no name is come to twice |
| NameChain.EndsWithin | internal/network/utils.go:218-229 | following 16384 pointers decides it |
| NameChain.PointersBackEnd | internal/network/utils.go:218-229 | it ends when every pointer is whole and points below the start of its own name |
| NameCodecLaws.RoundTrip | internal/network/utils.go:198-266 | an encoded name with bytes before and after decodes to itself and its encoded length |
| NameCodecLaws.RoundTripLabels | internal/network/utils.go:198-266 | the same for a name given by its labels |
| NameCodecLaws.RoundTripExactly | internal/network/utils.go:198-266 | decoding an encoded name ends with that name and its encoded length if and only if every label has 1 to 191 bytes and no NUL |
| NameCodecLaws.CompressedName | internal/network/utils.go:218-229 | labels followed by a pointer, forward or back, decode exactly when its target does: to the labels, a dot and the target's name, consuming two bytes more than the labels, or to failure if the target fails (section 4.1.4 of RFC 1035) |
| NameCodecLaws.CompressedEncoding | internal/network/utils.go:218-229 | in particular for a pointer to an encoding |
| NameCodecLaws.DecodeConsumes | internal/network/utils.go:198-239 | decoding fails with -1, or consumes at least one byte and none past the end |
| NameImage.DecodedLabels | internal/network/utils.go:198-239 | what is read without pointers is labels of 1 to 191 bytes without NUL, up to a zero, and their names joined by dots |
| NameImage.EncodingExactly | internal/network/utils.go:198-266 | a name decoded without pointers consumed exactly its own encoding if and only if it has a label and no label has a dot in it |
| Sampling.RandomSource.RandUint32 | internal/network/utils.go:77-84 | four bytes, most significant first |
| Sampling.RandomSource.RandInt63 | internal/network/utils.go:86-94 | eight bytes without the top bit |
| Sampling.FirstDraw31 | internal/network/utils.go:123-147 | from four bytes v, most significant first: the high word of v*n, unless the low word is below 2^32 mod n; then a new draw |
| Sampling.FirstDraw63 | internal/network/utils.go:86-121 | from eight bytes v, most significant first, without the top bit: v mod n, unless v is at or above the largest multiple of n; then a new draw |
| Sampling.WordInjective | internal/network/utils.go:77-84 | no two byte strings of a length give one number |
| Sampling.EqualStrings31 | internal/network/utils.go:123-147 | of the strings of four bytes, exactly floor(2^32/n) make the 31-bit sampler return each result at once |
| Sampling.EqualStrings63 | internal/network/utils.go:86-121 | of the strings of eight bytes, exactly 2*floor(2^63/n) make the 63-bit sampler return each result at once |
| Sampling.RandomSource.RandInt31n | internal/network/utils.go:123-147 | returns the first draw whose low word is at least the threshold; the early test changes nothing |
| Sampling.ThresholdIsRemainder | internal/network/utils.go:134-135 | the threshold is 2^32 mod n, below n |
| Sampling.Unbiased31 | internal/network/utils.go:123-147 | each result has exactly floor(2^32/n) accepted draws |
| Sampling.RandomSource.RandInt63n | internal/network/utils.go:96-121 | returns the remainder of the first accepted draw, by mask for powers of two |
| Sampling.Unbiased63 | internal/network/utils.go:96-121 | each result has exactly floor(2^63/n) accepted draws, in either branch |
| Bits.MaskIsRemainder | internal/network/utils.go:98-104 | when n & (n-1) is 0, v & (n-1) is v mod n |
| Shuffle.RandShuffle | internal/network/utils.go:149-172 | every run swaps in range and ends where the drawn choices lead; the 31-bit loop is only given int32 bounds |
| Shuffle.RunIsShuffled | internal/network/utils.go:149-172 | the choices drawn satisfy 0 <= j <= i, and are all there unless the source ran out |
| Shuffle.ShuffledIsPermutation | internal/network/utils.go:149-172 | any choices yield a permutation |
| Shuffle.ChoicesDetermined | internal/network/utils.go:149-172 | different choices give different orders of distinct elements |
| Shuffle.ShuffleIsBijective | internal/network/utils.go:149-172 | each order of distinct elements comes from exactly one sequence of choices |
| ShuffleStrings.EqualOrders | internal/network/utils.go:77-172 | among the byte strings in which every draw is accepted at once, each order of distinct elements comes from the same number, the product of the numbers for the single draws |
| HostOrder.RandAvailableIPs | internal/network/utils.go:174-195 | lists every host 1..254 of the /24 except the own address exactly once, in the shuffled order |
| Schedule.ActiveExactly | internal/security/security.go:296-325 | for any times of 16 bits, a schedule is active exactly when now lies, modulo 10080 minutes, in the window of an enabled day |
| Schedule.ClockWindow | internal/security/security.go:296-325 | for hours below 24 and minutes below 60 the window opens at the one time and closes at the next occurrence of the other |
| Schedule.GetActiveAccessProfiles | internal/security/security.go:327-336 | the active profiles of a role's schedules |
| Schedule.ActiveIsListed | internal/security/security.go:327-336 | a profile is listed exactly when some schedule of it is active |
| Schedule.ActiveProfilesInOrder | internal/security/security.go:327-336 | each active profile is listed once, in first-occurrence order |
| Security.Security.SetSession | internal/security/security.go:52-74 | replaces the client's session |
| Security.Security.SetAccessProfile | internal/security/security.go:76-106 | the error for a missing session, role or inactive profile; else the choice is stored with session and user |
| Security.Security.ResolveUserByMacAddress | internal/security/security.go:346-387 | the user of a known device; an unknown one with a name is recorded |
| Security.Security.GetSessionInfo | internal/security/security.go:178-294 | takes the look-up step on the stored tables, error returns included |
| AccessLaws.SelectsActiveProfile | internal/security/security.go:245-257 | a selected profile is stored, active for the resolved role, and preferred in the order session, user, first active |
| AccessLaws.LeavesSession | internal/security/security.go:178-294 | every error-free look-up leaves a session for the client and changes no other client, user, role or profile |
| LookupLaws.SucceedsExactly | internal/security/security.go:178-242 | a look-up succeeds if and only if its session is stored as rejected, or the role of its user is stored and, for a client without a session or known device in allow mode, the default role |
| LookupLaws.LookupAnswers | internal/security/security.go:178-294 | a successful one names the user and role, asks for a re-evaluation exactly without a stored session, and answers 0 for a stored admitted session, 2 for a known device, and for a stranger 0 in allow mode, 1 in captive mode and 2 in every other |
| LookupLaws.RejectedAnswer | internal/security/security.go:196-200 | a session stored as rejected is answered with its reason and nothing else, and nothing changes |
| LookupLaws.FailedLookup | internal/security/security.go:213-242 | a failing look-up answers "unauthorised" and nothing else without the default role, and the user and reason without the user's role; it leaves a session exactly for a known device or a stored one |
| LookupLaws.NewSession | internal/security/security.go:203-291 | the session it leaves: a known device's is its user's and admitted, a stranger's has the reason of the mode and the profile answered |
| LookupLaws.DeviceRecorded | internal/security/security.go:346-387 | an unknown device with a name is recorded, enabled unless the mode is to block; no other device changes |
| LookupLaws.LookupDNS | internal/security/security.go:261-288 | the DNS configuration is the role's override, else the stored one it names, else the fallback; the device's name goes in front exactly when that is not plain DNS, the role asks for it and the session's device has a name |
| LookupLaws.BlanksDashed | internal/security/security.go:278-280 | blanks of a device name become two dashes and nothing else changes |
| LookupLaws.SetProfileEnds | internal/security/security.go:76-106 | a change of profile succeeds if and only if the client has a session whose role is named and stored and some schedule of it makes the profile active now; each other case has its own error and changes nothing |
| AccessLaws.FirstAnswerExactly | internal/security/security.go:178-294 | an error-free look-up answers with the reason it leaves stored if and only if the client is not one without a session whose device belongs to an enabled user with a role; that one is answered "unauthorised" while it is admitted |
| AccessLaws.SecondLookup | internal/security/security.go:178-294 | looking up again succeeds, changes nothing, and answers with the stored reason: the same answer if and only if the client was not such a one |
| AccessLaws.ProfileMissingExactly | internal/security/security.go:245-257 | an error-free look-up has no profile if and only if there is no role, none of its schedules is active, or the profile they come to is not stored |
| AccessLaws.AdmittedWithoutProfile | internal/security/security.go:211-257 | a new client is admitted without a profile when the default role has no active schedule |
| AccessLaws.SetProfileSets | internal/security/security.go:76-106 | a successful change sets the choice of the session and its user and nothing else |
| AccessLaws.SetProfileIsChosen | internal/security/security.go:76-294 | the next look-up at the same instant succeeds and chooses the profile that was set, exactly unless that is the empty name and not the first active one |
| DomainAccess.VerifyDomainAccess | internal/security/security.go:402-440 | the reject reason for a local name or reason 1 or 2, and without a profile, when the record gets reason 3; else by the allow list 0 exactly when an entry admits the name, or by the block list 3 exactly when a wildcard over an entry matches it |
| DomainAccess.SuffixTest | internal/dns/blacklist.go:43-50 | the block-list test is the wildcard match of the blacklist |
| DomainAccess.ClosedExactly | internal/security/security.go:424-434 | a block list that blocks a name blocks every name under it if and only if the name is not the root |
| DomainAccess.BlockingMonotone | internal/security/security.go:424-434 | more blocked domains block no less |
| DomainAccess.VerdictIgnoresCase | internal/security/security.go:410 | the verdict depends neither on the case of letters nor on a dot at the end |
| DomainAccess.AllowedSubdomainExactly | internal/security/security.go:411-418 | an allowed domain admits a name under it exactly when the part before the dot is one shorter than the domain |

## Left out

- NameCodec.DnsQueryDecode: requires that decoding ends inside the buffer, as `EndsExactly` says; otherwise the program reads past the buffer or does not return.
- AgreementRuns.RunsAgreeExactly: speaks of agreement at every step of a run; a later event may by chance restore what an earlier one lost, and the theorem does not say when.
- NatExactness.ReevaluateKeepsAgreement: is the case of a profile and no refused command; `ReevaluationExactly` has the others.
- AllocationLaws.TwoAllocationsSettle: is about type-A sessions; for other types `SettlesExactly` and `OtherTypeDeletes` say what one further allocation does.
- CategoryForest.GetCategoryHierarchy: takes a table with unique ids, as ids are store keys, and models the call without a category, the only one the program makes.
- RuleEngine.DNSRulesEngine.Test: leaves the outside categorisation service switched off.
- Which record of a further upstream answer replaces the stored one: the program takes one by map order, so the record is a parameter; AAAA records are left out.
- Store and packet filter of the firewall manager are fields of one object; sharing one store between several managers is not modelled.
- Badger transactions, expiry of stored sessions by age, JSON, and interleaving of goroutines: each step is atomic at one instant.
- Textual IPv6 addresses: only the four-part form parses; an IPv4 address written inside an IPv6 one is treated as an error.
- Upper-case letters outside ASCII stay as they are when names are folded; the 64 KiB limit on a line of a rule list is not modelled, nor is splitting a text into lines.
- Fields that no modelled decision reads (time stamps of events, DNS expiry, AAAA records, raw answers, passwords, mail addresses).
- The nftables and software backends answer every rule with an error, as in the source; the eBPF backend is not part of this model.
- Forced logout, removal and age refresh of sessions, the portal's own access check, and extending a session's expiry: they set single fields.
- Seed categories and rule sets, web pages, ARP, mDNS and NetBIOS packets apart from their name codec, TLS, HTTP and the exchange with upstream servers.
