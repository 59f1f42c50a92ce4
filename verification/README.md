# PacketGuard: a model and its proofs

PacketGuard reads packet captures, indicator lists, signature rules and firewall exports. This project models
its core in Dafny and proves what it is relied on for.

- **Indicator index** (`IndicatorIndex.dfy` over `IndexSpec.dfy`, `Trie.dfy`, `IndexRuns.dfy`). The stateful index is a
  class with the source's fields. Its invariant says that the incrementally kept key map, domain map, hash map and trie
  node array are what a rebuild from the records would give, and that the records follow from the history of operations.
  The trie has no root until the history files an address or rebuilds, so the history determines the whole state. All
  answers are functions of the list of active indicators; `Refinement.dfy` shows them equal, as bags, to the linear scan,
  in every reachable state. `RefreshSession.dfy` carries this to sessions, `IndicatorText.dfy` and `UrlLines.dfy` to
  indicator lists read from text, `EndToEnd.dfy` to captured bytes. What is reported is said by the indicators and the
  packet alone in `PacketReports.dfy`, what a change does in `IndexEffects.dfy`, what a written line or name stands for in
  `IndicatorLines.dfy` and `Spellings.dfy`.
- **Addresses** (`Ipv4.dfy`, `MergeRanges.dfy`). Masks as bits, prefix containment, text round trips, range merging
  (section 3.1 of RFC 4632).
- **Rules** (`Exprs.dfy`, `Signature.dfy`, `OptionScan.dfy`, `RuleHeader.dfy`, `Reparse.dfy`, `PlainRules.dfy`,
  `Firewall.dfy`, `RuleSet.dfy`, `Csv.dfy`). What a written rule matches, from its text on (`ExprMeaning.dfy`,
  `RuleMatching.dfy`, `RuleFields.dfy`, `FirewallFlows.dfy`). When printed expressions read back; equal text means equal
  match sets with one exact exception; when deleting reported shadowed rules keeps every verdict, and when an ordering
  warning is right; when a rule in normal form reads back as the same rule; the rule set keeps its indexes exact.
- **Wire formats** (`DnsWire.dfy`, `DnsEncoding.dfy`, `DnsChains.dfy`, `DnsTexts.dfy`, `Checksum.dfy`, `Capture.dfy`,
  `Frames.dfy`). Compressed names as whole names, counted sections, record texts, written messages, the ones' complement
  checksum, written frames of every layer, capture files.

## Findings

Places where a natural claim does not hold of the code, with the exact condition under which it does:

- A second domain normalization is not always invisible. A URL host is stored after one normalization without a validity
  check, so the list line `url,*.*.*.a.b` is stored with two wildcards, and the index then reports `a.a.b` where the linear
  scan does not (`UrlLines.StackedWildcardLine`, `UrlLines.StackedWildcardDisagrees`). On space-free names the two sides
  agree exactly when the second normalization changes nothing or leaves a text that no such name can match, for one host
  (`DomainNames.AgreementIffStable`), for a list (`Refinement.NameAnswersIff`), and for whole packets when nothing is
  allow-listed (`Refinement.PacketAnswersIff`). Names with spaces are another matter:
  no host but the empty one agrees on all of them (`DomainNames.NoHostAgreesOnAllNames`). Every name read from the wire is
  space-free.
- A list line that starts with an http or https URL is always rejected, because the comment scanner cuts it behind the
  scheme (`UrlLines.LineStartingWithUrlRejected`). The URL branch of the type inference is never taken for a line
  (`UrlLines.UrlIsNeverInferred`): a URL comes in behind the token `url`.
- A domain is not always recognized as one: without a leading token it is taken for a hash when its hexadecimal digits
  number as many as those of one, as in `deadbeefdeadbeef.deadbeefdeadbeef` (`IndicatorLines.DomainTakenForHash`). It is
  recognized exactly when it reads as no address and their number is none of the known lengths
  (`IndicatorLines.DomainIsInferredIff`).
- A URL stored with a port other than the default keeps the port in its host and hits no name without a colon, its own
  host included (`Spellings.ShownPortHitsNothing`); without one it hits that host and the names below it
  (`PacketReports.WatchedHost`).
- An indicator's type and its address fields must be consistent for index and scan to agree on addresses
  (`Refinement.IpAgreementIff`, `Refinement.IpAnswersIff`); read indicators are.
- `!any` matches nothing and `![]` everything, yet both print `!`. A reported rule can be deleted from every list that
  holds the reported pair exactly when the earlier rule has no negated `any` that the later one lacks, or the later one
  does not decide or matches nothing (`Firewall.ReportedPairIff`, `Firewall.NegatedAnyBreaksElimination`). Deleting all
  reported rules is right when each has one such report, and for rules of one scope exactly then
  (`Firewall.ShadowEliminationKeepsVerdict`, `Firewall.OneScopeEliminationIff`).
- The test for a broad deny does not look at negations. A drop rule with source `!any` counts as one although it matches
  nothing, and the accept rule warned about behind it decides packets (`Firewall.NegatedAnyBreaksWarning`). A warning is
  right, in every list, exactly when the deny has no negated `any` or the accept rule matches nothing
  (`Firewall.WarningIff`).
- An expression reads back from its text exactly when it is plain `any` or a non-empty list, its ranges are ordered or
  cleared, and its variables are comma-free texts behind a dollar sign (`Exprs.PortRoundTripIff`,
  `Exprs.AddressRoundTripIff`). Read expressions can only miss the first of these.
- A read rule does not always read back from its normal form. Printing puts quotes around a value that may hold quotes
  itself: the line with `msg:a"b;c"d` reads, and its printed form splits at the inner semicolon
  (`PlainRules.QuotedSemicolonIsLost`). It reads back exactly when its expressions do, the comment scanner cuts nothing off
  the printed line, and every printed option holds no semicolon outside quotes and escapes and leaves none of these open
  (`Reparse.NormalFormReadsBackIff`, for every line `Reparse.EveryReadRule`).
- Merged ranges can overlap when host bits are set: a wider range may sort behind one it covers, and both are kept
  (`MergeRanges.OverlapWithoutMasking`). They are disjoint exactly when, for every range covered by one that sorts later,
  something that sorts no later than it covers both (`MergeRanges.MergedDisjointIff`); networks with cleared host bits,
  which the range parser produces, satisfy this.
- With a sum beyond 32 bits the checksum loses carries; it is still the ones' complement sum exactly when their number is
  a multiple of 65535 and nothing but zero wraps to zero (`Checksum.WrapHarmlessIff`, `Checksum.WrapLosesCarry`).

## Reading the model

- Strings are sequences of characters with the ASCII meaning of the C character classes; bytes are integers below 256.
- Addresses and lengths are integers with their width stated in the type; the checksum accumulator wraps at 2^32. Ids,
  generations and node numbers are unbounded: the counters are assumed not to wrap.
- An indicator's range fixes at most 32 bits. The range parser guarantees it; a hand-built indicator that violates it makes
  the source shift by a negative amount.
- `Undefined` is the outcome of reading an expression whose text is a lone `!`: the source then asks an empty string for its
  first character. A rule line with such an expression counts as not read.
- Loops of the source are methods with loops, each proved against a function; the library's sorts are functions of which
  sortedness, rearrangement and stability are proved.
- The shadowing results speak of rules whose expressions the reader produces (`Firewall.ShapedRule`). A hand-built variable
  `10.0.0.0/8` prints like that network and matches nothing.
- Results of a match are compared without their explanatory `reason` text.

## Model

| member | source | states |
|---|---|---|
| `Text.TrimDecomposes` | src/core/strings.cpp:12-17 | trimming removes exactly the spaces around a text, and what is left starts and ends with something else |
| `Text.FieldsOfJoin` | src/core/strings.cpp:18-25 | splitting a joined list at its delimiter gives the list back when no part holds the delimiter |
| `Text.RemoveCommentLoop` | src/core/strings.cpp:77-87 | the comment scanner loop computes the quote-aware cut position of the recursive definition |
| `Text.ParseBounded` | src/core/ip.cpp:32-40 | the digit loops of the prefix, port and sid parsers return the decimal value exactly when the text is all digits and the value is within the bound; the running value cannot wrap |
| `Text.DecimalRoundTrip` | src/core/ip.cpp:27-31 | reading a printed number gives the number |
| `TextForms.LessIsLexicographic` | src/rules/rules.cpp:245-246 | the order of texts is lexicographic: decided at the first character where they differ, a text before its extensions |
| `TextForms.QuotesAreStripped` | src/core/strings.cpp:46-50 | spaces around and then one pair of equal quotes are stripped, and an unquoted text is only trimmed |
| `TextForms.CommentIsCut` | src/core/strings.cpp:77-87 | a hash sign or two slashes behind text without quotes start a comment, and everything from there on is cut |
| `TextForms.QuotedIsKept` | src/core/strings.cpp:77-87 | inside quotes of either kind nothing is a comment; behind them a hash sign is one again |
| `Ipv4.MaskKeepsLeadingBits` | src/core/ip.cpp:8-13 | masking an address keeps its first p bits and clears the others, for every p up to 32 |
| `Ipv4.ContainsIsPrefixMatch` | src/core/ip.cpp:13 | a range contains an address exactly when their first p bits agree |
| `Ipv4.FullRangeIsEquality` | src/core/ip.cpp:13 | a /32 range contains exactly its own address |
| `Ipv4.NetworkFromPath` | src/core/ip.cpp:41-54 | two read ranges with the same leading bits and length are equal |
| `Ipv4.ParseIpv4Loop` | src/core/ip.cpp:15-26 | the shift-and-add loop equals the recursive reading of four octets and stays within 32 bits |
| `Ipv4.Ipv4RoundTrip` | src/core/ip.cpp:15-31 | reading a printed address gives it back, for all 2^32 addresses |
| `Ipv4.CidrRoundTrip` | src/core/ip.cpp:14-54 | reading a printed range gives the range with its host bits cleared, hence the range itself exactly when they were clear |
| `Ipv4.DottedQuad` | src/core/ip.cpp:15-31 | four bytes with dots between read as, and are printed for, the address with the first byte most significant |
| `Ipv4.Ipv4ReadsIff` | src/core/ip.cpp:15-26 | an address is read exactly from four dotted parts of one to three digits, none above 255, and has their value |
| `MergeRanges.Merge` | src/core/ip.cpp:70-79 | for any ranges the merged list holds exactly, sorted and each once, those that no range sorting before them covers; it covers the same addresses; it is disjoint exactly when every range that a later-sorting one covers has something sorting no later that covers both; for cleared networks it is disjoint and holds the maximal ranges; networks rise, and prefixes among equal ones |
| `MergeRanges.CoveredIsSubset` | src/core/ip.cpp:75 | the covering test of the merge loop implies inclusion of address sets, for any two ranges |
| `MergeRanges.CoversIff` | src/core/ip.cpp:75 | the covering test succeeds exactly when the one range contains every address of the other |
| `MergeRanges.LeadingCover` | src/core/ip.cpp:73-77 | every range is covered by a kept one that sorts no later |
| `MergeRanges.MergedCoversSame` | src/core/ip.cpp:70-79 | the merged list covers the same addresses as the input, whatever the ranges |
| `MergeRanges.MergedDisjointIff` | src/core/ip.cpp:70-79 | the merged list is disjoint exactly under that condition on the input |
| `MergeRanges.LeadingIffMaximal` | src/core/ip.cpp:70-79 | for cleared networks the kept ranges are the maximal ones |
| `MergeRanges.Laminar` | src/core/ip.cpp:8-13 | of two ranges that share an address the one that fixes no more bits covers the other, for every prefix value |
| `MergeRanges.MergedIsUnique` | src/core/ip.cpp:70-79 | the merged list depends only on which ranges occur, not on their order or repetition |
| `MergeRanges.MergeAgain` | src/core/ip.cpp:70-79 | merging a merged list changes nothing |
| `MergeRanges.OverlapWithoutMasking` | src/core/ip.cpp:70-79 | merging 10.200.0.0/8 and 10.1.0.0/16, the first with host bits set, keeps both and they overlap |
| `Indicators.KeyIsInjective` | src/ioc/ioc.cpp:14-22 | two indicators have the same key exactly when type, role and normal form agree |
| `Indicators.SuppressLoop` | src/ioc/ioc.cpp:222-229 | the nested loops keep exactly the results that are allow-listed themselves or that no allow-listed result of the same field and value silences, in order |
| `Indicators.AddIpMatches` | src/ioc/ioc.cpp:195-201 | the address loop appends one result for each indicator that hits, in list order |
| `Indicators.AddNameMatches` | src/ioc/ioc.cpp:202-214 | the name loop appends one result for each domain or URL indicator that hits, in list order |
| `Indicators.ScanPacketLoop` | src/ioc/ioc.cpp:215-229 | the linear packet scan: source, destination, then names, then suppression |
| `Indicators.SuppressOnBags` | src/ioc/ioc.cpp:222-229 | suppression maps equal bags of results to equal bags |
| `PacketReports.SuppressionIsExact` | src/ioc/ioc.cpp:222-229 | kept, in order and as often as before, are exactly the results that are allow-listed themselves and those that differ in field or in value from every allow-listed result |
| `PacketReports.SuppressionCounts` | src/ioc/ioc.cpp:222-229 | each result keeps its multiplicity under that condition and is gone otherwise |
| `PacketReports.SuppressionIsLocal` | src/ioc/ioc.cpp:222-229 | results of other fields and values play no part: suppressing two lists that share none is suppressing each |
| `PacketReports.SuffixIsLabels` | src/ioc/ioc.cpp:85-90 | being equal or ending behind a dot is ending in the same labels |
| `PacketReports.MatchIsLabels` | src/ioc/ioc.cpp:85-90 | a watched domain is hit exactly by itself and by the names below it, label by label |
| `PacketReports.WatchedHost` | src/ioc/ioc.cpp:202-214 | a domain indicator watches its own name, a URL indicator the host of the URL that it was stored from when no port is shown |
| `PacketReports.HitsAre` | src/ioc/ioc.cpp:195-221 | a result of the scan before suppression is an indicator of the list that names the source or destination address or a range with its leading bits, or that watches a name of the packet, under the matching field and value |
| `PacketReports.AddressHitsInOrder` | src/ioc/ioc.cpp:195-201 | the hits on an address are the indicators that watch it, in list order |
| `PacketReports.NameHitsInOrder` | src/ioc/ioc.cpp:202-214 | so are the hits on a name |
| `PacketReports.HitsByField` | src/ioc/ioc.cpp:215-221 | source hits come first, then destination hits, then the hits on each name in turn |
| `PacketReports.NameReportedIff` | src/ioc/ioc.cpp:215-229 | a hit on a name is reported exactly when it is allow-listed or no allow-listed indicator hits that very name |
| `PacketReports.AddressReportedIff` | src/ioc/ioc.cpp:215-229 | likewise for the source and the destination address |
| `PacketReports.IndexReportsNames` | src/ioc/ioc.cpp:434-458 | the index reports the same names, in every state that a run reaches |
| `PacketReports.IndexReportsAddresses` | src/ioc/ioc.cpp:434-458 | and the same addresses |
| `PacketReports.AddressLookup` | src/ioc/ioc.cpp:389-408 | an address lookup answers with the consistent indicators that watch the address, wider ranges first and list order within one length |
| `PacketReports.HashLookup` | src/ioc/ioc.cpp:422-433 | a hash lookup answers with the hash indicators of the same normal form, in list order |
| `DomainNames.FixedIffNormalForm` | src/ioc/ioc.cpp:30-36 | normalization leaves a text alone exactly when it is lower-case, without surrounding space, trailing dot, leading dot or wildcard |
| `DomainNames.NormalizeShortens` | src/ioc/ioc.cpp:30-36 | normalization never lengthens a text, and keeps its length only when it strips nothing |
| `DomainNames.DropWildcardKeepsTest` | src/ioc/ioc.cpp:85-90 | dropping a wildcard from the observed name does not change the suffix test |
| `DomainNames.IndexAgreesOnName` | src/ioc/ioc.cpp:202-214 | for a stable host and a name whose normal form has no surrounding space, the index's extra normalization changes no answer, even when the name itself is not yet fixed |
| `DomainNames.AgreementIffStable` | src/ioc/ioc.cpp:343-416 | for every host, index and scan agree on all space-free names exactly when a second normalization of the host changes nothing or gives a text that is empty or holds a space |
| `DomainNames.StableIffNothingLeft` | src/ioc/ioc.cpp:31-36 | a second normalization changes nothing exactly when the normal form has no surrounding space, leading dot or wildcard |
| `DomainNames.NoHostAgreesOnAllNames` | src/ioc/ioc.cpp:202-214 | with spaces allowed in names, index and scan agree on all names exactly for the host that normalizes to nothing |
| `DomainNames.PlainUrlNormalizes` | src/ioc/ioc.cpp:47-64 | a plain URL keeps scheme and path, and its host is normalized once |
| `DomainNames.BareHostNormalizes` | src/ioc/ioc.cpp:47-64 | a bare host becomes an http URL with the host normalized once and not checked |
| `Spellings.DomainSpelling` | src/ioc/ioc.cpp:30-36 | spaces around, dots behind, a dot or wildcard in front and letter case do not change the normal form of a domain |
| `Spellings.HexDigitsAreKept` | src/ioc/ioc.cpp:65-72 | exactly the hexadecimal digits of a hash are kept, in order and in lower case |
| `Spellings.HashSpelling` | src/ioc/ioc.cpp:65-72 | an algorithm name before a colon, spaces around and letter case do not change the normal form of a hash |
| `Spellings.UrlSpelling` | src/ioc/ioc.cpp:47-64 | for every URL of scheme, user information, host, port and path the normal form has scheme and host in lower case, no user information, no empty or default port, and the root for a missing path |
| `Spellings.SlashesCollapse` | src/ioc/ioc.cpp:62 | no two slashes in a row are left in the path, its segments stay in order, and it starts and ends as before |
| `Spellings.ShownPortHitsNothing` | src/ioc/ioc.cpp:202-214 | the host of a URL stored with a port keeps the port, and hits no name without a colon |
| `DomainNames.StackedWildcardUrl` | src/ioc/ioc.cpp:202-214 | for a stored URL with two wildcards the index test reports the name a.a.b and the scan test does not |
| `Trie.WalkFinds` | src/ioc/ioc.cpp:402-406 | a descent ends at the node that stands for the path, and at none exactly when there is none |
| `Trie.OnePathPerNode` | src/ioc/ioc.cpp:346-362 | every node is reached by exactly one bit path |
| `Trie.InsertRepresents` | src/ioc/ioc.cpp:350-361 | filing a range adds exactly the missing prefixes as nodes, links forward only, and appends the slot to one node |
| `Trie.InsertFiles` | src/ioc/ioc.cpp:350-361 | seen through lookups by path, one bucket gains the slot and no other changes |
| `Trie.CollectIsBuckets` | src/ioc/ioc.cpp:389-408 | the records met on a descent are the buckets of the prefixes of the address, shortest first |
| `IndexSpec.BatchTrieShape` | src/ioc/ioc.cpp:364-375 | the node array of a rebuild is a prefix-closed tree with distinct paths whose links lead to later nodes |
| `IndexSpec.BatchTrieBuckets` | src/ioc/ioc.cpp:364-375 | the bucket at each path lists exactly the active slots with that range, ascending |
| `IndexSpec.BatchMapBuckets` | src/ioc/ioc.cpp:343-345 | the domain and hash maps hold exactly the non-empty buckets, slots ascending |
| `IndexSpec.BatchKeys` | src/ioc/ioc.cpp:364-375 | the key map holds exactly the keys of active records, each at its newest slot |
| `IndexSpec.LastActiveIsNewest` | src/ioc/ioc.cpp:304-308 | no later active record shares the key found |
| `IndexSpec.SlotBucketMembers` | src/ioc/ioc.cpp:332-363 | a bucket holds exactly the matching active slots, each once, ascending |
| `IndexSpec.BucketReads` | src/ioc/ioc.cpp:389-433 | read as indicators, a bucket is the matching part of the active list, in order |
| `IndexSpec.TrieNodeCount` | src/ioc/ioc.cpp:346-362 | the trie has one node for each distinct prefix of an active range and the root, at most 1 plus the sum of prefix lengths, each reached by one path of at most 32 bits |
| `IndexSpec.CoveringIsBucket` | src/ioc/ioc.cpp:389-408 | the ranges of one length that contain an address are those filed under its leading bits |
| `IndexSpec.WalkReads` | src/ioc/ioc.cpp:389-408 | a lookup descent lists exactly the active ranges containing the address, widest first and oldest first within a length |
| `IndexSpec.KeyedIffHasKey` | src/ioc/ioc.cpp:328-331 | a key is found exactly when some active indicator has it |
| `IndexSpec.BatchDomainKeys` | src/ioc/ioc.cpp:409-421 | the keys of the domain map are those of the active domain and URL indicators |
| `IndexSpec.BatchHashKeys` | src/ioc/ioc.cpp:422-433 | the keys of the hash map are those of the active hash indicators |
| `IndexSpec.SortedKeysRise` | src/ioc/ioc.cpp:409-421 | keys are visited in rising order |
| `Refinement.IpAgreementIff` | src/ioc/ioc.cpp:195-201 | index and scan agree about an indicator on all addresses exactly when its type and its address fields are consistent |
| `Refinement.IpAnswersAgree` | src/ioc/ioc.cpp:389-408 | the address answers of index and scan are the same bag |
| `Refinement.IpAnswersIff` | src/ioc/ioc.cpp:389-408 | for a list they are so on every address exactly when every indicator's type and address fields are consistent |
| `Refinement.DomainAnswersAgree` | src/ioc/ioc.cpp:409-421 | the name answers of index and scan are the same bag |
| `Refinement.NameAnswersIff` | src/ioc/ioc.cpp:409-421 | for a list they are so on every space-free name exactly when every stored host meets the condition of AgreementIffStable |
| `Refinement.IndexRefinesScan` | src/ioc/ioc.cpp:434-458 | suppression included, the index's packet answer is the scan's up to order, on consistent indicators and clean names |
| `Refinement.AgreeableRefinesScan` | src/ioc/ioc.cpp:434-458 | on space-free names this needs of each stored host only the condition of AgreementIffStable |
| `Refinement.PacketAnswersIff` | src/ioc/ioc.cpp:434-458 | without an allow-listed indicator packet answers agree on all packets with space-free names exactly when every indicator's address fields are consistent and every stored host meets that condition |
| `Refinement.RunKeepsConsistent` | src/ioc/ioc.cpp:268-388 | every operation keeps the filed indicators consistent |
| `Refinement.EveryRunRefinesScan` | src/ioc/ioc.cpp:434-458 | the refinement holds in every state that any run of operations reaches |
| `IndexRuns.StepSound` | src/ioc/ioc.cpp:268-388 | every operation keeps ids rising with the slot and below the counter, and generation stamps distinct and below theirs |
| `IndexRuns.RunSound` | src/ioc/ioc.cpp:268-388 | so does every run |
| `IndexRuns.DroppedIdStaysDropped` | src/ioc/ioc.cpp:268-388 | an id that no longer resolves never resolves again, whatever follows |
| `IndexRuns.CompactKeepsActive` | src/ioc/ioc.cpp:382-388 | compaction keeps the list of active indicators, and only active records |
| `IndexRuns.CompactIsInvisible` | src/ioc/ioc.cpp:382-388 | compaction changes no answer, order included, and no contained key |
| `IndexRuns.CompactResolves` | src/ioc/ioc.cpp:376-388 | after compaction an id of an active record resolves to the same record, an id of an inactive one to none |
| `IndexRuns.RemoveThenReactivate` | src/ioc/ioc.cpp:294-318 | removing an active record changes the active list, and reactivating it restores every record up to its stamp |
| `IndexRuns.DuplicatesPeel` | src/ioc/ioc.cpp:304-308 | with n active records under a key, removals by key take the newest left n times, then change nothing; the key is contained until the n-th |
| `IndexEffects.RoleUpdateChanges` | src/ioc/ioc.cpp:319-327 | a role update sets role and stamp of the record with the id, and changes nothing else of it and no other record |
| `IndexEffects.LastRoleWins` | src/ioc/ioc.cpp:319-327 | of two role updates the last one stands |
| `IndexEffects.RoleUpdateUndone` | src/ioc/ioc.cpp:319-327 | updating a role back restores the active list, and every record up to its stamp |
| `IndexEffects.RoleUpdateInActive` | src/ioc/ioc.cpp:319-327 | for an active record one entry of the active list changes, in its role; for an inactive one none |
| `IndexEffects.RoleUpdateMovesKey` | src/ioc/ioc.cpp:319-331 | after the role update of an active record the new key is contained, the old one only if another active record has it or the role is the same, and every other key as before |
| `IndexEffects.AllowingSilencesName` | src/ioc/ioc.cpp:319-458 | once an active indicator that watches a name is allow-listed, exactly the allow-listed indicators that watch it are reported for that name |
| `IndexEffects.PreparedAsRead` | src/ioc/ioc.cpp:268-273 | an indicator added without a normal form gets the one that reading its raw text would give |
| `IndicatorIndexes.IndicatorIndex.constructor` | include/ioc/ioc.hpp:86-93 | a new index is empty and its trie has no root |
| `IndicatorIndexes.IndicatorIndex.IndexRecord` | src/ioc/ioc.cpp:332-363 | files one active record in the domain map, the hash map or the trie, and nothing else |
| `IndicatorIndexes.IndicatorIndex.FileRange` | src/ioc/ioc.cpp:350-361 | the bit loop makes the missing nodes and files the slot at the end of the path |
| `IndicatorIndexes.IndicatorIndex.RebuildIndexes` | src/ioc/ioc.cpp:364-375 | the rebuild loop gives the batch construction, with a root |
| `IndicatorIndexes.IndicatorIndex.Add` | src/ioc/ioc.cpp:268-285 | appends one active record under a fresh id and the current generation, and the incremental indexes stay what a rebuild would give |
| `IndicatorIndexes.IndicatorIndex.AddSet` | src/ioc/ioc.cpp:286-293 | adds every indicator in order |
| `IndicatorIndexes.IndicatorIndex.RemoveId` | src/ioc/ioc.cpp:294-303 | succeeds exactly on an active record, which becomes inactive and is stamped while all others stay; a failed call changes nothing |
| `IndicatorIndexes.IndicatorIndex.RemoveKey` | src/ioc/ioc.cpp:304-308 | succeeds exactly when an active indicator has the key; the newest such record becomes inactive and is stamped while all others stay; a failed call changes nothing |
| `IndicatorIndexes.IndicatorIndex.ReactivateId` | src/ioc/ioc.cpp:309-318 | succeeds exactly on an inactive record, which becomes active and is stamped while all others stay; a failed call changes nothing |
| `IndicatorIndexes.IndicatorIndex.UpdateRole` | src/ioc/ioc.cpp:319-327 | succeeds exactly on a known id, whose record gets the role and a stamp while everything else stays; a failed call changes nothing |
| `IndicatorIndexes.IndicatorIndex.Rebuild` | src/ioc/ioc.cpp:376-381 | keeps the records, and roots the trie |
| `IndicatorIndexes.IndicatorIndex.Compact` | src/ioc/ioc.cpp:382-388 | drops exactly the inactive records and keeps the active indicators in order |
| `IndicatorIndexes.IndicatorIndex.ContainsKey` | src/ioc/ioc.cpp:328-331 | true exactly when some active indicator has the key |
| `IndicatorIndexes.IndicatorIndex.LookupIp` | src/ioc/ioc.cpp:389-408 | the answer is the scan of the active indicators stably sorted by prefix length |
| `IndicatorIndexes.IndicatorIndex.LookupDomain` | src/ioc/ioc.cpp:409-421 | the answer is the matching buckets of the active indicators in key order |
| `IndicatorIndexes.IndicatorIndex.LookupHash` | src/ioc/ioc.cpp:422-433 | the answer is the active hash indicators with that normal form, oldest first |
| `IndicatorIndexes.IndicatorIndex.MatchPacket` | src/ioc/ioc.cpp:434-458 | the answer is a function of the active indicators alone |
| `IndicatorIndexes.IndicatorIndex.ValidateIntegrity` | src/ioc/ioc.cpp:459-488 | true exactly when every map entry and every trie link and record points at a valid record |
| `IndicatorIndexes.IndicatorIndex.ValidateNode` | src/ioc/ioc.cpp:473-486 | true exactly when the links of one node stay in the array and its records are active |
| `IndicatorIndexes.IndicatorIndex.ValidHasIntegrity` | src/ioc/ioc.cpp:459-488 | that is so in every reachable state |
| `IndicatorIndexes.IndicatorIndex.Stats` | src/ioc/ioc.cpp:489-501 | active and inactive records add up to the total; the trie size is the number of distinct prefixes of active ranges and the root, or zero before the first root; the key counts are those of the active indicators |
| `IndicatorText.DomainLikeIsStable` | src/ioc/ioc.cpp:155-158 | every accepted domain indicator, wildcards and inner spaces included, is stored in a form that a second normalization does not change further |
| `IndicatorText.WildcardDomainIsStable` | src/ioc/ioc.cpp:155-158 | behind a wildcard the second normalization reaches the normal form of the bare domain |
| `IndicatorText.SpacedNameDisagrees` | src/ioc/ioc.cpp:409-416 | behind a wildcard and a space, the index finds every stable host and the scan does not: names must be clean |
| `IndicatorText.HashIsStable` | src/ioc/ioc.cpp:65-72 | hash normalization is idempotent |
| `IndicatorText.LineIsWellParsed` | src/ioc/ioc.cpp:112-168 | an accepted line yields an indicator with the address fields of its type, a non-empty normal form, a stable domain, a known hash length |
| `IndicatorText.ParseText` | src/ioc/ioc.cpp:169-188 | the reading loop keeps the first accepted indicator of each key and lists the others as duplicates |
| `IndicatorText.MergeSets` | src/ioc/ioc.cpp:254-266 | merging keeps the first indicator of each key over all sets in order |
| `IndicatorText.DedupeIsExact` | src/ioc/ioc.cpp:169-188 | kept keys are distinct and none is lost; kept and repeated indicators together are the input |
| `IndicatorText.DedupeAgain` | src/ioc/ioc.cpp:254-266 | a list without repeated keys is kept whole |
| `IndicatorText.KeptAreFirst` | src/ioc/ioc.cpp:169-188 | kept, in order, are exactly the indicators without an earlier one of their key, and repeated exactly the others |
| `IndicatorText.LinesInOrder` | src/ioc/ioc.cpp:169-188 | lines are read one after the other |
| `IndicatorText.SetsInOrder` | src/ioc/ioc.cpp:254-266 | sets are merged one after the other |
| `IndicatorLines.FieldsAreRead` | src/ioc/ioc.cpp:112-117 | a line of two or more plain fields between commas is cut into these |
| `IndicatorLines.BarFieldsAreRead` | src/ioc/ioc.cpp:112-117 | without commas bars cut the line |
| `IndicatorLines.WordFieldsAreRead` | src/ioc/ioc.cpp:112-117 | without both, spaces do |
| `IndicatorLines.RoleWords` | src/ioc/ioc.cpp:23-29 | the words for each role, in any letter case, and no other word names it |
| `IndicatorLines.AttributesRead` | src/ioc/ioc.cpp:102-111 | the attributes are exactly the written keys, each with its last value |
| `IndicatorLines.TypeIsInferred` | src/ioc/ioc.cpp:91-101 | written addresses, ranges and hashes are recognized by their own look |
| `IndicatorLines.DomainIsInferredIff` | src/ioc/ioc.cpp:91-101 | a valid domain is recognized exactly when it does not read as an address and the number of its hexadecimal digits is not the length of a known hash |
| `IndicatorLines.DomainTakenForHash` | src/ioc/ioc.cpp:91-101 | the domain deadbeefdeadbeef.deadbeefdeadbeef is taken for a hash |
| `IndicatorLines.ValidDomainIff` | src/ioc/ioc.cpp:37-46 | a normalized name is valid exactly when it has two or more labels of 1 to 63 letters, digits and inner dashes, and at most 253 characters |
| `IndicatorLines.TokenNamesType` | src/ioc/ioc.cpp:121-129 | each leading token, in any letter case, names the type of the value behind it and is no value itself |
| `IndicatorLines.ValueLineReads` | src/ioc/ioc.cpp:112-168 | a written line reads as exactly its value, role, attributes and severity; without a role word it is a detection, without a severity it is medium |
| `IndicatorLines.TokenLineReads` | src/ioc/ioc.cpp:112-168 | so does a line with a leading token, which is how URLs come in |
| `IndicatorLines.KeyText` | src/ioc/ioc.cpp:14-22 | the key is type word, role word and normal form between colons |
| `UrlLines.NoBareSlashes` | src/core/strings.cpp:77-87 | what the comment scanner leaves of a line has two slashes in a row only behind a quote |
| `UrlLines.UrlIsNeverInferred` | src/ioc/ioc.cpp:91-118 | for no line does the URL test of the type inference succeed on the first field |
| `UrlLines.UrlNeedsToken` | src/ioc/ioc.cpp:112-134 | a line yields a URL indicator exactly when its first field is the token url, in any letter case, and another field follows |
| `UrlLines.LineStartingWithUrlRejected` | src/ioc/ioc.cpp:112-118 | every line that starts with an http or https URL is rejected, whatever follows |
| `UrlLines.StackedWildcardLine` | src/ioc/ioc.cpp:112-168 | the line url,*.*.*.a.b is accepted and stored as a URL whose host keeps two wildcards |
| `UrlLines.OneUrlAgreesIff` | src/ioc/ioc.cpp:409-458 | a list of one URL is answered alike by index and scan on all space-free names exactly when its host meets the condition of AgreementIffStable |
| `UrlLines.StackedWildcardDisagrees` | src/ioc/ioc.cpp:503-521 | for the list of that one line the index's packet answer for a.a.b is the URL and the scan's is empty |
| `RefreshSession.IndicatorRefreshSession.IngestSnapshot` | src/ioc/ioc.cpp:503-513 | the set and the index are replaced by those of the text alone |
| `RefreshSession.IndicatorRefreshSession.MatchCachedCidr` | src/ioc/ioc.cpp:515-517 | the session's address answer is the linear scan of its current set up to order |
| `RefreshSession.IndicatorRefreshSession.MatchPacket` | src/ioc/ioc.cpp:519-521 | the session's packet answer is the linear scan of its current set up to order, when no URL host keeps a leading wildcard and the names are clean, or when the names are space-free and every URL host meets the condition of AgreementIffStable |
| `EndToEnd.CapturedPacketsAgree` | src/packet/packet.cpp:242-275 | for every captured packet and every run of index operations, index and scan report the same bag |
| `EndToEnd.ParsedListsAgree` | src/ioc/ioc.cpp:169-229 | for every captured packet and every indicator text whose URL hosts meet the condition of AgreementIffStable, index and scan report the same bag |
| `EndToEnd.FrameIsReported` | src/ioc/ioc.cpp:215-229 | for a written frame exactly the indicators that watch its source are reported as source, those that watch its destination as destination, unless an allow-listed one silences them |
| `EndToEnd.RuleLineMeetsFrame` | src/rules/rules.cpp:283-301 | from two texts to a verdict: a written TCP rule matches a written TCP frame exactly when its sides cover the frame's addresses and ports in this direction, or with a double arrow in the other |
| `Exprs.PortMatchesLoop` | src/rules/rules.cpp:38-45 | the match loop decides membership in some range, inverted under a negation |
| `Exprs.AddressMatchesLoop` | src/rules/rules.cpp:97-104 | the match loop decides membership in some network, inverted under a negation |
| `Exprs.PrintPorts` | src/rules/rules.cpp:46-56 | the output loop prints the comma-separated list |
| `Exprs.PrintAddresses` | src/rules/rules.cpp:105-113 | the output loops print networks and then variables |
| `Exprs.ParsePortExprLoop` | src/rules/rules.cpp:82-96 | the reading loop accepts exactly when every non-empty part is a range, and keeps them in order |
| `Exprs.ParseAddressExprLoop` | src/rules/rules.cpp:114-131 | the reading loop keeps networks and variables in order and rejects any other non-blank part |
| `Exprs.ReadExprsAreShaped` | src/rules/rules.cpp:57-131 | read expressions have ordered port ranges and cleared networks, and carry no list beside the keyword |
| `Exprs.PortRoundTripIff` | src/rules/rules.cpp:46-96 | for every port expression, reading what it prints gives it back exactly when its ranges are ordered and it is plain any or a non-empty list |
| `Exprs.AddressRoundTripIff` | src/rules/rules.cpp:105-131 | for every address expression that prints, reading gives it back exactly when its networks are cleared, its variables are comma-free texts behind a dollar sign, and it is plain any or a non-empty list |
| `Exprs.SamePortText` | src/rules/rules.cpp:46-56 | equal port text means both are plain any, or sign and list agree |
| `Exprs.SameAddressText` | src/rules/rules.cpp:105-113 | the same for address text |
| `Exprs.PortTextDecides` | src/rules/rules.cpp:38-56 | with equal text two port expressions match the same ports exactly when they agree on being any or the list leaves no port out |
| `Exprs.AddressTextDecides` | src/rules/rules.cpp:97-113 | the same for addresses |
| `ExprMeaning.PortFormReads` | src/rules/rules.cpp:57-81 | a written range, open ends included, reads as the ports it names, and not at all when its bounds are crossed |
| `ExprMeaning.WrittenPortsMatch` | src/rules/rules.cpp:38-96 | a written port list, with or without sign and brackets, matches exactly the ports its parts name, or all others under the sign |
| `ExprMeaning.WrittenAddressesMatch` | src/rules/rules.cpp:97-131 | a written address list matches exactly the hosts and the ranges with the same leading bits, or all others under the sign; variables match nothing |
| `ExprMeaning.WrittenAnyMatches` | src/rules/rules.cpp:38-131 | the keyword matches everything, and under a sign nothing |
| `Firewall.VerdictIsFirst` | src/policy/policy.cpp:250-254 | the verdict is the action of the first deciding rule that matches, and is missing exactly when none does |
| `FirewallFlows.OwnRuleMatches` | src/policy/policy.cpp:250-254 | the rule that names a tuple's own two addresses, two ports, chain and protocol matches exactly the tuples that agree in each, chain and protocol up to the open ones |
| `FirewallFlows.OwnRuleMatchesOnlyItself` | src/policy/policy.cpp:250-254 | with chain and protocol known it matches that tuple alone |
| `FirewallFlows.FieldsDecide` | src/policy/policy.cpp:250-254 | no rule matches a tuple with a field that its expression for that field rejects, and every rule of the chain and protocol matches when all four accept |
| `FirewallFlows.WrittenFieldsMatch` | src/policy/policy.cpp:250-254 | a rule read from written fields matches exactly the tuples whose addresses and ports they name |
| `FirewallFlows.OwnRuleVerdict` | src/policy/policy.cpp:225-254 | a matching rule settles the verdict when it accepts, drops or rejects, and is passed over when it logs, returns or jumps |
| `FirewallFlows.SameScopeIff` | src/policy/policy.cpp:222-224 | two read rules have one scope exactly when chain, protocol and all four expressions agree, up to the any mark under a negation |
| `FirewallFlows.BroadDenyIff` | src/policy/policy.cpp:237-249 | without a negated any a broad deny is a rule that drops or rejects any protocol and prints any four times |
| `FirewallFlows.BroadDenyWarns` | src/policy/policy.cpp:237-249 | every accept rule behind a plain one of these in its chain is warned about |
| `Firewall.ShadowedRules` | src/policy/policy.cpp:225-236 | the report lists every pair of a deciding rule and a later rule of the same printed scope, once, ordered by the earlier rule |
| `Firewall.SameScopeMatches` | src/policy/policy.cpp:222-224 | what a rule matches, an earlier rule of the same scope matches, unless the earlier one has a negated any that the later one lacks |
| `Firewall.MatchesNothingIff` | src/policy/policy.cpp:250-254 | a read rule matches nothing exactly when one of its four expressions lets nothing through: an empty list without negation, or a negation of everything |
| `Firewall.ScopeCoversIff` | src/policy/policy.cpp:222-224 | for two rules of one scope that condition is exact, up to later rules that match nothing |
| `Firewall.BehindIff` | src/policy/policy.cpp:250-254 | for two deciding rules, standing anywhere behind the first in any list the second never decides, and can be deleted without changing a verdict, exactly when the first matches whatever the second matches |
| `Firewall.ReportedPairIff` | src/policy/policy.cpp:225-236 | the later rule of a reported pair can be deleted from every list that holds the pair exactly when it does not decide, the pair is faithful, or it matches nothing |
| `Firewall.OneScopeEliminationIff` | src/policy/policy.cpp:225-236 | for deciding rules of one printed scope the elimination leaves the first, and changes no verdict exactly when the first is faithful to every later one that matches something |
| `Firewall.DeciderIsUnshadowed` | src/policy/policy.cpp:225-236 | a rule that decides a packet is not reported, when one report of it is faithful |
| `Firewall.ShadowEliminationKeepsVerdict` | src/policy/policy.cpp:225-236 | deleting every reported rule changes no verdict, when each reported rule has one faithful report, does not decide or matches nothing |
| `Firewall.PlainRulesKeepVerdict` | src/policy/policy.cpp:225-236 | in particular for every list without a negated any |
| `Firewall.NegatedAnyBreaksElimination` | src/policy/policy.cpp:222-236 | with the readable sources !any and ![] the later rule is reported as shadowed, and deleting it changes the verdict |
| `Firewall.OrderingWarnings` | src/policy/policy.cpp:237-249 | the loop reports exactly the accept rules behind a broad deny of their chain, in order |
| `Firewall.WarnedNeverDecides` | src/policy/policy.cpp:237-254 | an accept rule behind a broad deny without negated any is reported and never decides a packet, whatever the other rules say |
| `Firewall.BroadCoversIff` | src/policy/policy.cpp:237-254 | a rule that tests as broad covers every rule of its chain exactly when it has no negated any, and matches nothing otherwise |
| `Firewall.WarningIff` | src/policy/policy.cpp:237-254 | behind a broad deny, in every list, an accept rule of its chain never decides exactly when the deny has no negated any or the accept rule matches nothing |
| `Firewall.NegatedAnyBreaksWarning` | src/policy/policy.cpp:237-254 | a drop rule with the readable source !any counts as a broad deny, and the accept rule warned about behind it decides every packet of the chain |
| `Signature.SplitOptionBody` | src/rules/rules.cpp:132-146 | the scanning loop splits at semicolons outside quotes and escapes |
| `Signature.SortIsStable` | src/rules/rules.cpp:245-246 | the sort orders by key, rearranges, and keeps options of one key in order |
| `Signature.SortKeepsValues` | src/rules/rules.cpp:159-162 | sorting keeps the value that every key resolves to |
| `Signature.TwoWayIsSymmetric` | src/rules/rules.cpp:283-301 | a two-way rule matches a packet exactly when it matches the reversed packet |
| `RuleMatching.FlowRuleMatchesItsFlow` | src/rules/rules.cpp:283-301 | the one-way rule that names two addresses and two ports matches exactly the packets of that flow, in that direction |
| `RuleMatching.FlowRuleBothWays` | src/rules/rules.cpp:283-301 | the two-way rule matches these and those of the reverse flow |
| `RuleMatching.RejectedFieldNeverMatches` | src/rules/rules.cpp:283-301 | a one-way rule never matches a packet whose source or destination address or port its own expression rejects |
| `RuleMatching.AcceptedFieldsMatch` | src/rules/rules.cpp:283-301 | and matches when all four accept, protocol and content aside |
| `RuleMatching.TwoWayIsEitherWay` | src/rules/rules.cpp:283-301 | a two-way rule matches exactly when its one-way form matches the packet or its reverse |
| `RuleMatching.ProtocolAdmits` | src/rules/rules.cpp:272-284 | what each protocol asks of a packet on top of what any protocol asks |
| `RuleMatching.ContentIsLookedFor` | src/rules/rules.cpp:293-300 | a content is looked for, letter case aside, in the names of the message and the texts of its answers, and nowhere else |
| `RuleMatching.WrittenLineReads` | src/rules/rules.cpp:172-201 | a rule line of known action, protocol, networks, ranges, sid and revision reads as the rule with exactly these |
| `RuleMatching.WrittenRuleMatches` | src/rules/rules.cpp:172-301 | the rule read from such a line matches exactly the packets of its protocol that its two sides cover, by leading bits and port bounds |
| `RuleFields.ReadRuleKeepsValues` | src/rules/rules.cpp:159-201 | every read rule keeps message, content and class of the first option of that key, and the numbers of sid and revision |
| `RuleFields.TokensKeepValues` | src/rules/rules.cpp:182-201 | the seven header tokens are read in their places |
| `RuleFields.NumberIs` | src/rules/rules.cpp:163-171 | a number option counts exactly when it is decimal and fits 32 bits, and is zero otherwise |
| `RuleFields.OptionForms` | src/rules/rules.cpp:147-158 | an option without a colon is a flag; with one, everything behind the first colon is its value, unquoted |
| `RuleFields.SameKeyIff` | src/rules/rules.cpp:255-257 | two rules without bars in their header fields have one key exactly when these fields print alike and the content is the same |
| `Reparse.NormalFormReadsBackIff` | src/rules/rules.cpp:172-254 | for every rule of the shape that read rules have, reading the normal form gives the rule with its options stably sorted exactly when its expressions are plain any or non-empty lists, nothing of the line is taken for a comment, and every printed option is cut out as it stands |
| `Reparse.EveryReadRule` | src/rules/rules.cpp:172-254 | so for the rule of every line that reads |
| `PlainRules.NormalFormReadsBack` | src/rules/rules.cpp:172-254 | in particular for rules with plain keys and variables and values whose quotes are escaped |
| `PlainRules.QuotedSemicolonIsLost` | src/rules/rules.cpp:132-254 | the line with the option msg:a"b;c"d reads, and its normal form does not read back as that rule |
| `Reparse.NormalFormIsFixed` | src/rules/rules.cpp:242-301 | the rule with its options sorted prints the same line again, meets the condition whenever the rule does, has the same key and option values, and matches the same packets |
| `PlainRules.PrintedHasNoComment` | src/core/strings.cpp:77-87 | nothing of a printed plain rule is taken for a comment |
| `RuleHeader.HeaderReads` | src/core/strings.cpp:26-45 | collapsing and cutting printed header tokens gives them back, except for the empty ones |
| `RuleHeader.LineIsCut` | src/rules/rules.cpp:172-182 | the option block that reading finds in a printed line is a piece of the printed options, all of them only when no comment was cut off |
| `OptionScan.SplitAtSeparator` | src/rules/rules.cpp:132-146 | the splitter cuts at the first semicolon outside quotes and escapes and starts over behind it |
| `OptionScan.WholeIff` | src/rules/rules.cpp:132-146 | the first such semicolon stands right behind a text exactly when the text holds none and leaves no quote or escape open |
| `OptionScan.OptionsAreSplit` | src/rules/rules.cpp:132-146 | a printed list of options that are kept is cut into exactly these |
| `OptionScan.ValueEnds` | src/rules/rules.cpp:147-158 | a part reads as the printed value only when it ends at the closing quote |
| `OptionScan.PieceReadsIff` | src/rules/rules.cpp:132-158 | of all pieces of a printed option list exactly the whole list reads back, and exactly when every option is kept |
| `PlainRules.EscapedIsWhole` | src/rules/rules.cpp:132-146 | a value whose quotes are escaped is passed over as one piece up to its closing quote, separators included |
| `OptionScan.OptionsReadBack` | src/rules/rules.cpp:147-158 | printed options read back with any value, quotes and separators included |
| `Reparse.ReadRulesAreShaped` | src/rules/rules.cpp:172-201 | every read rule has the shape: known names, cleared networks, ordered ports, variables without space and parenthesis, lower-case keys without colon and separator, and the five kept values |
| `DnsWire.ReadDnsName` | src/packet/packet.cpp:138-166 | the reader ends on every byte string, reads in bounds, returns the name of the pointer-following definition and leaves the offset past the first terminator |
| `DnsWire.RunIsEncoding` | src/packet/packet.cpp:141-164 | what is read as a run of labels is byte for byte its encoding (section 4.1.4 of RFC 1035) |
| `DnsWire.EncodingIsRead` | src/packet/packet.cpp:141-164 | every encoded run of labels is read back as those labels, wherever it stands |
| `DnsWire.EncodedNameDecodes` | src/packet/packet.cpp:138-166 | an encoded name decodes to its rendered labels joined by dots, followed by the name pointed to |
| `DnsWire.DottedIsJoin` | src/packet/packet.cpp:157-161 | the decoded text is the dotted join of the rendered labels |
| `DnsWire.DecodedNameShape` | src/packet/packet.cpp:138-166 | a name read at depth d has at most 256*(13-d)-1 characters and no space |
| `DnsWire.PointerLoopRejected` | src/packet/packet.cpp:138-154 | pointers that lead into one another are rejected from each of their offsets, at every depth |
| `DnsWire.NameAcceptedIff` | src/packet/packet.cpp:138-166 | a name is accepted exactly when at most twelve pointers lead to its end and no part on the way passes 255 characters |
| `DnsChains.NameIsItsChain` | src/packet/packet.cpp:138-166 | the text of a name that ends after n pointers is the dotted join of all labels along them, own labels first |
| `DnsChains.AcceptedNameIsJoin` | src/packet/packet.cpp:138-166 | every accepted name is such a join |
| `DnsChains.CompressionIsInvisible` | src/packet/packet.cpp:138-166 | written labels and a pointer to a name read like these labels and that name's written out in full |
| `DnsChains.CompressedExample` | src/packet/packet.cpp:138-166 | the bytes 3 w w w C0 0C behind a header and the name example.com read as www.example.com |
| `DnsChains.TwelvePointers` | src/packet/packet.cpp:138-154 | for questions and records the bound is twelve pointers |
| `DnsTexts.LetterShown` | src/packet/packet.cpp:158-161 | letters are shown in lower case, other visible characters as they are, anything else as a question mark |
| `DnsTexts.HexTextAt` | src/core/strings.cpp:61-67 | each byte is two hexadecimal digits at its place, the high half first |
| `DnsTexts.TextByType` | src/packet/packet.cpp:175-200 | which reading the text of a record follows, by type and length; everything else is hexadecimal |
| `DnsTexts.ExampleReads` | src/packet/packet.cpp:219-240 | a response of 49 given bytes, its answer name compressed, reads as the message with these flags, names, types, times and texts |
| `DnsWire.FlagsRoundTrip` | src/packet/packet.cpp:223-231 | the flag word is that of its decoded fields up to three reserved bits, and every choice of fields decodes from its word (section 4.1.1 of RFC 1035) |
| `DnsWire.TxtLoop` | src/packet/packet.cpp:187-198 | the loop over character strings computes the recursive reading and stops at the first string that does not fit |
| `DnsWire.HexLoop` | src/core/strings.cpp:61-67 | the loop prints two hexadecimal digits for each byte |
| `DnsWire.RenderData` | src/packet/packet.cpp:175-200 | the text of a record is an address, the name at its data, its character strings or hexadecimal, by type |
| `DnsWire.EncodedTxtReads` | src/packet/packet.cpp:187-198 | encoded character strings read back as their texts set apart by spaces (section 3.3 of RFC 1035) |
| `DnsWire.TxtJoinedIsJoin` | src/packet/packet.cpp:187-198 | for non-empty strings that is their join with spaces |
| `DnsWire.RecordTexts` | src/packet/packet.cpp:175-186 | the text of an address record reads back as the address, that of a name record holds no space |
| `DnsWire.ReadQuestion` | src/packet/packet.cpp:167-174 | a question is a name and four bytes, and the offset moves past them |
| `DnsWire.ReadRecord` | src/packet/packet.cpp:201-218 | a record is a name, ten bytes and the data they announce with its text, and the offset moves past them |
| `DnsWire.ReadSection` | src/packet/packet.cpp:235-237 | a section is the announced number of records one after the other, or failure |
| `DnsWire.ParseDnsMessage` | src/packet/packet.cpp:219-240 | identifier and decoded flags, then the four sections one after the other behind the header |
| `DnsEncoding.NameStands` | src/packet/packet.cpp:138-166 | a written name reads as its labels and the name its pointer leads to, and the offset moves past it |
| `DnsEncoding.QuestionStands` | src/packet/packet.cpp:167-174 | a written question reads back wherever it stands, or is rejected with its name |
| `DnsEncoding.RecordStands` | src/packet/packet.cpp:201-218 | a written record reads back wherever it stands, or is rejected with its name |
| `DnsEncoding.MessageReadsBack` | src/packet/packet.cpp:219-240 | a written message reads back with the same fields, pointers resolved, and is rejected exactly when some pointer leads to no name |
| `DnsEncoding.PlainMessageReadsBack` | src/packet/packet.cpp:219-240 | a written message without pointers is always accepted, every field as written |
| `DnsWire.MessageCounts` | src/packet/packet.cpp:219-240 | an accepted message holds exactly the announced counts, and has at least 12 + 5 per question + 11 and the data per record bytes |
| `DnsWire.MessageNamesAreClean` | src/packet/packet.cpp:49-57 | no name offered to the indicator match holds a space |
| `Checksum.InternetChecksumLoop` | src/core/checksum.cpp:5-12 | the loops compute the complemented fold of the wrapped 32-bit word sum, and the fold ends |
| `Checksum.FoldKeepsResidue` | src/core/checksum.cpp:10 | folding keeps the sum modulo 65535, and only zero folds to zero |
| `Checksum.ZeroIffDivisible` | src/core/checksum.cpp:5-12 | without wrap-around the checksum is zero exactly when the sum is positive and divisible by 65535 |
| `Checksum.StoredWordValidatesIff` | src/core/checksum.cpp:5-12 | a word stored into a zeroed even position validates exactly when it equals the checksum up to the two forms of zero |
| `Checksum.StoredChecksumValidates` | src/packet/packet.cpp:92-97 | storing the checksum of a header with a zero field always validates |
| `Checksum.WrapHarmlessIff` | src/core/checksum.cpp:5-12 | the wrapped accumulator gives the ones' complement sum exactly when the number of lost carries is a multiple of 65535 and nothing but zero wraps to zero |
| `Checksum.WrapLosesCarry` | src/core/checksum.cpp:6-9 | an input whose one lost carry changes the checksum |
| `Checksum.ByteCounts` | src/core/checksum.cpp:7-9 | every byte counts 256 times in an even place and once in an odd one |
| `Checksum.Example` | src/core/checksum.cpp:5-12 | the checksum of the example in section 3 of RFC 1071 |
| `Capture.DecodingConserves` | src/packet/packet.cpp:242-275 | each decoded layer fits into the one below and the link, header and payload sizes add up within the capture |
| `Capture.HeaderValidIff` | src/packet/packet.cpp:92-97 | a decoded header is marked valid exactly when its word sum is divisible by 65535 |
| `Capture.NormalizeTimestamp` | src/core/time.cpp:9-13 | the two carry loops compute the quotient and the remainder of a billion nanoseconds |
| `Capture.NormalizedIsTheInstant` | src/core/time.cpp:9-13 | the instant is kept, and no other stamp below a second of nanoseconds names it |
| `Capture.ParsePcapLoop` | src/packet/packet.cpp:275-312 | the file header is read in the byte order of its magic number; the record loop yields the packets of the recursive reading, time stamps normalized, and stops at the same record |
| `Capture.FileHeaderReads` | src/packet/packet.cpp:275-297 | a written file header reads back, in both byte orders and resolutions |
| `Capture.FileReadsBack` | src/packet/packet.cpp:275-312 | a written capture file reads back whole, header and packets |
| `Capture.RecordsConserve` | src/packet/packet.cpp:300-311 | the records read are byte for byte the file from offset 24 on, and reach its end exactly when no record check failed |
| `Capture.EncodedRecordsRead` | src/packet/packet.cpp:300-311 | a body made of encoded records reads back as exactly these records |
| `Capture.DecodedNamesAreClean` | src/packet/packet.cpp:242-275 | every decoded packet offers clean names only |
| `Capture.PacketTimes` | src/packet/packet.cpp:300-304 | the time of every packet is the instant that its record states, the fraction in nanoseconds or microseconds by the magic number |
| `Frames.TcpReadsBack` | src/packet/packet.cpp:103-121 | a written TCP segment reads back, every field of it (section 3.1 of RFC 793) |
| `Frames.UdpReadsBack` | src/packet/packet.cpp:122-136 | so does a UDP datagram |
| `Frames.IpReadsBack` | src/packet/packet.cpp:73-102 | a written IPv4 packet reads back, every field of it, and its payload is cut out of the padding behind it |
| `Frames.IpAcceptedIff` | src/packet/packet.cpp:73-102 | a header is accepted exactly when it is version 4, holds at least five words and lies within the capture and the stated length, which is cut to the capture |
| `Frames.SegmentsAcceptedIff` | src/packet/packet.cpp:59-136 | exactly which segments, datagrams and frames are accepted |
| `Frames.EthernetReadsBack` | src/packet/packet.cpp:59-72 | a written Ethernet header reads back; behind a tag the inner type counts |
| `Frames.FrameDecodes` | src/packet/packet.cpp:242-274 | a written frame decodes to its own headers, layer by layer, with the DNS message of a datagram to or from port 53 |
| `Frames.FrameIsObserved` | src/packet/packet.cpp:49-57 | the indicator match sees the frame's source and destination in this order, and the names of questions and answers |
| `RuleSet.SidIndexIsExact` | src/rules/rule_set_manager.cpp:95-103 | the sid index lists exactly the positions of each non-zero sid, ascending |
| `RuleSet.ClassIndexIsExact` | src/rules/rule_set_manager.cpp:95-103 | the class index lists exactly the positions of each lower-cased non-empty class, ascending |
| `RuleSet.ErasureIsFilter` | src/rules/rule_set_manager.cpp:79-87 | erasing a sid removes its rules and keeps those of every other sid in order |
| `RuleSet.RulesInOrder` | src/rules/rule_set_manager.cpp:35-47 | rule lines are read one after the other |
| `RuleSet.RuleSetManager.RebuildIndexes` | src/rules/rule_set_manager.cpp:95-103 | the loop rebuilds both indexes |
| `RuleSet.RuleSetManager.AddRule` | src/rules/rule_set_manager.cpp:19-24 | appends the rule and raises the generation |
| `RuleSet.RuleSetManager.AddRuleText` | src/rules/rule_set_manager.cpp:26-33 | appends exactly the rules that read; a failed call changes nothing |
| `RuleSet.RuleSetManager.AddRuleFileText` | src/rules/rule_set_manager.cpp:35-47 | appends the readable rules in order, with one generation step if there are any |
| `RuleSet.RuleSetManager.ReplaceRule` | src/rules/rule_set_manager.cpp:49-58 | replaces one position and raises the generation; out of range nothing changes |
| `RuleSet.RuleSetManager.EraseIndex` | src/rules/rule_set_manager.cpp:69-77 | removes one position and raises the generation; out of range nothing changes |
| `RuleSet.RuleSetManager.EraseSid` | src/rules/rule_set_manager.cpp:79-87 | removes the rules of a sid, and raises the generation exactly when the list changes |
| `RuleSet.RuleSetManager.Clear` | src/rules/rule_set_manager.cpp:89-93 | empties the list, and raises the generation unless it was empty |
| `RuleSet.RuleSetManager.FindLatestSid` | src/rules/rule_set_manager.cpp:105-115 | the highest revision under a sid, the last position among equals; nothing under sid 0 |
| `RuleSet.RuleSetManager.FindByClasstype` | src/rules/rule_set_manager.cpp:117-125 | the rules of a class, letter case ignored, in list order |
| `RuleSet.RuleSetManager.MatchPacket` | src/rules/rule_set_manager.cpp:127-136 | the positions of exactly the matching rules, ascending |
| `Csv.SplitLineLoop` | src/policy/policy.cpp:121-133 | the scanning loop splits at commas outside quotes and undoubles quotes inside them |
| `Csv.QuotedLineSplits` | src/policy/policy.cpp:121-133 | quoting every field, joining with commas and splitting gives the trimmed fields (section 2 of RFC 4180) |
| `Csv.WrittenLineSplits` | src/policy/policy.cpp:121-133 | commas outside quotes separate the fields of a line, each written in quotes or as it is; only spaces around a field go |

## Left out

- File and stream input, the command-line tools and the fuzz harnesses: plumbing.
- Diagnostics, notes and summaries: only whether a call succeeded and what it changed is modelled.
- The iptables and nftables line parsers, the INI and JSON-like policy readers: token loops over the modelled expression
  readers, and regular expressions.
- `validate_rule`, `duplicate_rule_keys`, `sid_revision_conflicts`, `duplicate_rules`: counting reports.
- Interfaces, connection state and jump targets of firewall rules: the tuple match does not read them.
- Time stamps as text: the C library formats and reads them.
- `confidence`: the C library reads the number; the model keeps its default.
- `security_catalog`, `crc32`, `ByteReader`, address classification: tables and short expressions.
