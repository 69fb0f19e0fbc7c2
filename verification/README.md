# Client address resolution: trusted-proxy index, chain-header parsers, resolver

This project models how a web service decides which address a request really came from, and proves what that
decision means. It has three parts, each of which ties an efficient or stateful implementation to a plain
specification.

* **The trusted-proxy index** (`Addresses`, `Canonical`, `Rules`, `Sorting`, `CidrMerge`, `Config`,
  `IndexTheorems`, `LookupTheorems`). A list of (network, header policy) rules is rewritten, checked for conflicts by
  a one-pass sweep, merged per policy and sorted; a lookup is one binary search and one containment test. The main
  result is that the lookup agrees, for every address, with a linear scan over the rules the user supplied. The built
  list is the only sorted and merged list, and a shortest list, that covers the same addresses as the rewritten
  rules. `LookupTheorems` says exactly how far that carries over to lists that merely answer every lookup alike,
  since a lookup never asks about an IPv4-mapped address.
* **The chain-header parsers** (`Text`, `Quoted`, `Headers`, `HeaderTheorems`, `NodeTheorems`, `ForwardedGrammar`).
  `SplitQuoted` is a class whose iterator restarts its quote state at every item; it is proved to cut exactly where
  one quote automaton over the whole text cuts, at one level and at two nested ones. `Forwarded` headers printed by
  the grammar of section 4 of RFC 7239 read back as what they were printed from, with a free choice of letter case for
  every letter of `for`, and a hop names an address exactly when it is a printed node identifier of section 6.
* **The resolver** (`Resolve`, `ResolveTheorems`, `SenderTheorems`, `PrefixTheorems`). The methods follow the source's
  control flow and are proved equal to the function `Resolution`, about which the end-to-end properties are stated.
  `ResultIsExplained` is exact: an answer is the result if and only if its source explains it, in terms of the rules
  that contain the peer, the values of the headers and the hop the trust model asks for. `BuiltResolvesAsSupplied`
  carries that over to the rules as the user supplied them. And when every proxy appends the hop it received a request
  from, the sender's address is the answer, whatever the sender wrote in front, as long as that is readable and closes
  its quotes (`SenderIsFound`).

An address is a family and a value below 2^32 or 2^128; a network is an aligned base and a prefix length, so that a
network is an aligned range of a power-of-two size. Every IPv4 address sorts before every IPv6 address.

Header values are sequences of characters; a value is readable when all its characters are visible ASCII, space or
tab, so byte index and character index agree and trimming removes only spaces and tabs. The address text grammars of
the standard library are a parameter (`AddressGrammar`): any acceptance function is allowed, restricted to texts
made of digits and dots with at least one dot (IPv4), or of hexadecimal digits, colons and dots with a colon and no
colon behind a dot (IPv6). The order in which a hash map is visited is an arbitrary choice.

The specification functions follow these parts of the source: `CanonicalIp` and `CanonicalCidr`
(`src/canonical.rs`), `RuleOf` and `TrustedProxy` (`src/config.rs`), `ParseIpLike`, `ValidNodePort`, `ChainEntryOf`,
`ElementEntry`, `Hops`, `ListHeaderEntries`, `ConfiguredClientIpHeader` and `Unquote` (`src/headers.rs`),
`ScanFromRight`, `SelectByPosition`, `ChainAnswer` and `Resolution` (`src/resolve.rs`). What each of them means is
stated without it: by membership and containment for the rules, by printed texts for everything that is parsed, and by
positions in the chain for the picks.

## What turned out false

* Splitting a supplied rule into its two halves does not always keep its meaning. The network `::fffe:0:0/95` is too
  short to be rewritten, but its upper half is the IPv4-mapped block itself, which is rewritten to `0.0.0.0/0` and
  then matches every IPv4 peer (`SplittingExample`). It is the only such network (`OnlyOneEndsInMappedBlock`,
  `HalvesAfterRewrite`). For lookups, splitting it makes no difference exactly when the other supplied rules with its
  metadata already match every IPv4 address (`SplittingForLookups`). The built lists are a finer matter, since they
  also hold mapped addresses that no lookup reaches: they are equal exactly when those rules cover every IPv4 and
  every mapped address (`SplittingInList`). `SplittingVerdict` says when the split list is still accepted.
* Merging does not always give the shortest list that answers every lookup alike. The networks `::fffc:0:0/95` and
  `::fffe:0:0/96` could be joined to `::fffc:0:0/94`, which adds only mapped addresses that no lookup asks about, but
  they are left as they are (`SameLookupsExample`). The built list falls short exactly when the supplied rules with
  some metadata match every address of those two networks and none of them is shorter than 96 bits and holds the
  mapped block (`ShortestForSuppliedLookups`), which is exactly when the built list holds those two networks with one
  metadata (`ShortestForLookups`, `JoinableIsGap`). `LookupNormalForm` says when lists with the same lookups are equal.
* Joining two `Forwarded` lines by a comma, which section 5.3 of RFC 9110 allows an intermediary to do, keeps the
  hops for every following line exactly when the first line closes its quotes (`ForwardedCombinesIff`);
  `OpenLineExample` is a concrete line that fails. List headers always combine.

## Model

| member | source | states |
|---|---|---|
| Addresses.ContainsIsPrefixMatch | src/config.rs:129-129 | Containment is agreement on the prefix bits, and equally lying between first and last address. |
| Addresses.Laminar | src/cidr_merge.rs:19-19 | Two networks that overlap are nested, the longer prefix inside; equal lengths mean equal networks. |
| Addresses.OverlapIsShared | src/cidr_merge.rs:8-10 | Two networks overlap exactly when some address lies in both. |
| Canonical.CanonicalIpIdempotent | src/canonical.rs:9-11 | Rewriting an address twice is rewriting it once, never leaves a mapped address, and undoes the mapped form of an IPv4 address. |
| Canonical.MappedCidrRewrites | src/canonical.rs:21-33 | For a mapped network of at least 96 bits the IPv4 constructor never fails; base and length lose the mapped prefix. |
| Canonical.RewrittenMembership | src/canonical.rs:13-34 | A rewritten network holds a canonical address exactly when the network as written holds it, or is long enough and holds its mapped form. |
| Canonical.RewriteKeepsMembership | src/canonical.rs:13-34 | Rewriting network and address keeps membership, except exactly for mapped addresses inside a network shorter than 96 bits. |
| Canonical.CanonicalCidrIdempotent | src/canonical.rs:16-34 | Rewriting a network twice is rewriting it once; exactly the mapped networks of at least 96 bits change. |
| Canonical.OverlapHasCanonicalAddress | src/canonical.rs:16-33 | Rewritten networks overlap exactly when an address that is its own canonical form lies in both. |
| Sorting.StableSort | src/cidr_merge.rs:17-17 | The result is sorted, a permutation of the input, and keeps ties in input order. |
| CidrMerge.Sweep | src/cidr_merge.rs:20-37 | In sweep order, keeping one open network finds no conflict only if there is none between any two rules, and an error names an outermost rule and a disagreeing rule inside it. |
| CidrMerge.EnsureNoCrossMetadataOverlap | src/cidr_merge.rs:11-38 | Ok exactly when no two rules with different metadata overlap, for any rule list; an error names two such input rules, the right one inside the left one. No rule is wider than the left one, which is the first supplied with its network, and the right one is the first in sweep order that disagrees with it. |
| CidrMerge.CidrCombiner.Push | src/cidr_merge.rs:68-73 | Pushing a network adds exactly its addresses and keeps the list disjoint and free of joinable halves. |
| CidrMerge.MergeCidrs | src/cidr_merge.rs:62-86 | The result covers the same addresses, is pairwise disjoint, and is at most as long as any list that covers them. |
| CidrMerge.GroupByMetadata | src/cidr_merge.rs:44-48 | Each group covers exactly the addresses of the rules with its metadata. |
| CidrMerge.MergeRulesByMetadata | src/cidr_merge.rs:43-60 | Whatever the group order, coverage per metadata is unchanged, groups are merged, and no list with the same coverage is shorter. |
| Rules.Lookup | src/config.rs:116-118 | The linear scan finds a rule that contains the address, and finds none only if no rule does. |
| Rules.PolicyIsCoverage | src/config.rs:292-292 | Without conflicts the scan yields a metadata exactly when some rule with it contains the address. |
| Rules.InsideOne | src/cidr_merge.rs:62-62 | In a merged set, a network all of whose addresses are covered lies inside one single member. |
| Rules.NormalFormUnique | src/cidr_merge.rs:62-62 | Merged sets that cover the same addresses are equal. |
| Rules.MergedIsShortest | src/cidr_merge.rs:40-42 | Every rule list with the same coverage as a merged one is at least as long. |
| Rules.IndexUnique | src/config.rs:308-309 | Two sorted, merged, disjoint lists are equal exactly when they cover the same addresses per metadata. |
| Config.CoverageDecidesConflict | src/config.rs:305-306 | A list with the coverage of a conflict-free list has no conflict, so the second overlap check never fails. |
| Config.SortedIsIndex | src/config.rs:308-309 | Sorting merged, conflict-free rules by first address makes each rule end before the next starts. |
| Config.TrustedProxiesBuilder.Build | src/config.rs:293-317 | Fails exactly on a conflict among rewritten rules, with a witnessing pair; else yields an index with the coverage of the rewritten rules and the given header order. |
| Config.PartitionPoint | src/config.rs:126-126 | The binary search returns the number of rules that start at or before the address. |
| Config.OnlyCandidate | src/config.rs:125-129 | In an index only the last rule that starts at or before an address can contain it, and testing it is the whole linear scan. |
| Config.RuleFor | src/config.rs:118-133 | The rule found is one of the config's rules and contains the canonical address, whole and unchanged; none is found only when no rule contains it. It is the rule a linear scan finds. |
| Config.IsTrustedProxy | src/config.rs:106-114 | Never in the default config, always in trust-all mode, and else exactly when some rule contains the canonical address. |
| IndexTheorems.IndexRefinesScan | src/config.rs:293-317 | A lookup in the built list yields a metadata exactly when a supplied rule with it, rewritten, contains the rewritten address, and yields nothing exactly when no supplied rule does. |
| IndexTheorems.RuleIsGranted | src/config.rs:118-133 | The rule that a config built from supplied rules returns for an address has the metadata of a matching supplied rule, and an address is a trusted proxy exactly when some supplied rule matches it. |
| IndexTheorems.MatchesAsWritten | src/config.rs:102-102 | What matching means for the network as the user wrote it. |
| IndexTheorems.BuiltIsAscending | src/config.rs:308-309 | A built list runs through all IPv4 networks and then all IPv6 ones, each ending below the start of the next. |
| IndexTheorems.RejectionIsWitnessed | src/config.rs:286-292 | Build rejects exactly the lists under which one canonical address matches two supplied rules that disagree. |
| IndexTheorems.BuiltIsShortest | src/config.rs:286-286 | No rule list that covers the same addresses with the same metadata is shorter than the built one. |
| IndexTheorems.BuiltIsNormalForm | src/config.rs:303-309 | Two builds give the same list exactly when their rewritten rules cover the same addresses per metadata, whatever the group order in either run. |
| IndexTheorems.OrderDoesNotMatter | src/cidr_merge.rs:44-57 | Permuting or duplicating the supplied rules changes neither the verdict nor the built list. |
| IndexTheorems.HalvesAfterRewrite | src/canonical.rs:21-24 | The rewritten halves of a network hold the addresses of the rewritten whole exactly when it is not `::fffe:0:0/95`. |
| IndexTheorems.SplittingDoesNotMatter | src/config.rs:296-309 | Splitting any other supplied network into halves changes neither the verdict nor the built list. |
| IndexTheorems.SplittingAlone | src/config.rs:296-309 | A network alone and its two halves build the same list exactly when it is not that network. |
| IndexTheorems.OnlyOneEndsInMappedBlock | src/canonical.rs:21-24 | The exceptional network is exactly `::fffe:0:0/95`, which is a valid network. |
| IndexTheorems.SplittingExample | src/canonical.rs:21-24 | A rule with that network does not match the peer `0.0.0.0`, and its two halves do. |
| LookupTheorems.SplittingForLookups | src/config.rs:296-309 | In any list, splitting `::fffe:0:0/95` leaves every lookup alike exactly when the remaining rules with its metadata match every IPv4 address. |
| IndexTheorems.SplittingInList | src/config.rs:296-309 | In any list, splitting a network keeps the built list, down to the mapped addresses that no lookup reaches, exactly when it is another network or the remaining rules with its metadata cover all IPv4 and all mapped addresses. |
| IndexTheorems.SplittingVerdict | src/config.rs:296-301 | Splitting `::fffe:0:0/95` keeps a list valid exactly when it was valid and no remaining IPv4 rule has other metadata. |
| IndexTheorems.BuiltIsRewritten | src/config.rs:296-309 | No built network is IPv4-mapped, although merging can widen IPv6 networks. |
| IndexTheorems.RebuildIsIdentity | src/config.rs:52-63 | Building again from the rules of a built config succeeds and gives the same list. |
| LookupTheorems.CoverageIsGrantsAndBlock | src/config.rs:123-129 | Rewritten lists cover the same addresses exactly when they answer every lookup alike and the same metadata holds the mapped block. |
| LookupTheorems.LookupNormalForm | src/config.rs:303-309 | Two built lists are equal exactly when their supplied rules answer every lookup alike and agree on which metadata holds the mapped block. |
| LookupTheorems.ShortestForLookups | src/cidr_merge.rs:40-42 | The built list is the shortest with its lookups exactly when it does not hold `::fffc:0:0/95` and `::fffe:0:0/96` with one metadata. |
| LookupTheorems.JoinableIsGap | src/cidr_merge.rs:40-42 | The built list holds those two networks with a metadata exactly when the supplied rules with it match every address of both, and none of them shorter than 96 bits holds the mapped block. |
| LookupTheorems.ShortestForSuppliedLookups | src/cidr_merge.rs:40-42 | Building gives a shortest list with the same lookups exactly when no metadata of the supplied rules meets that condition. |
| LookupTheorems.SameLookupsExample | src/cidr_merge.rs:40-42 | Those two networks and `::fffc:0:0/94` build to different lists that no lookup tells apart. |
| Quoted.NextCut | src/headers.rs:133-169 | The scan from a fresh quote state stops at the next delimiter that the pass over the whole input sees outside quotes, or at the end. |
| Quoted.SplitQuoted.constructor | src/headers.rs:119-128 | A new iterator has all items of the one-pass split still to come. |
| Quoted.SplitQuoted.Next | src/headers.rs:133-169 | Each call yields the next trimmed item of the one-pass split, ends exactly when none is left, and restarts where the whole input is outside quotes. |
| Quoted.SplitRebuilds | src/headers.rs:110-112 | The untrimmed items joined by the delimiter are the input. |
| Quoted.SplitAtCuts | src/headers.rs:133-169 | Item boundaries are exactly the delimiters that one left-to-right pass sees outside quotes. |
| Quoted.SplitCount | src/headers.rs:110-112 | There is one item more than there are unquoted delimiters. |
| Quoted.ItemsUncut | src/headers.rs:133-169 | No item holds an unquoted delimiter when scanned from a fresh state. |
| Quoted.SplitJoined | src/headers.rs:133-169 | Two texts joined by the delimiter split separately exactly when the first ends outside quotes. |
| Quoted.TwoLevelsAreOnePass | src/headers.rs:70-86 | Splitting into elements and each element again, with restarted quote states, is one pass with one state over the whole text. |
| Quoted.NestedItems | src/headers.rs:70-86 | The trimmed pairs the nested iterators yield are the trimmed pairs of the one pass, element by element. |
| Quoted.UnquoteHttpQuotedString | src/headers.rs:176-209 | The loop, and the shortcut for text without a backslash, compute the unescaped text between the quotes. |
| Quoted.UnquoteQuoted | src/headers.rs:172-209 | Unquoting any quoted spelling of a text, with any optional escapes, gives the text back. |
| Quoted.UnquoteExact | src/headers.rs:176-185 | For any text with blanks around it: between two quote marks its body is unescaped, and otherwise it is left as it is. |
| Quoted.UnescapeFirst | src/headers.rs:192-206 | The first backslash of any body goes and the character behind it stays; a backslash at the very end just goes. |
| Text.TrimPadded | src/headers.rs:168-168 | Trimming takes exactly the spaces and tabs off both ends. |
| Headers.ForwardedElementEntry | src/headers.rs:85-100 | The loop over pairs computes the hop of an element, as the next three rows pin it down. |
| ForwardedGrammar.FirstForDecides | src/headers.rs:85-100 | For any element text: pairs without an equals sign or with another name are skipped, the first `for` pair gives the hop, and without one the hop is opaque. |
| ForwardedGrammar.ForNames | src/headers.rs:92-92 | A name is `for` exactly when it is spelled with an upper or lower case choice for each of its three letters; any other length or letter is another name. |
| ForwardedGrammar.ForwardedRoundTrip | src/headers.rs:64-100 | Any header printed by the RFC 7239 grammar over any number of lines, with text that is no pair, empty elements, blanks around every part, any spelling of values and a case choice for each letter of `for`, reads back as exactly its hops, in order. |
| Headers.ForwardedEntries | src/headers.rs:64-80 | The hops of all lines in order, or nothing when a line is unreadable. |
| HeaderTheorems.ReadableLinesOnly | src/headers.rs:43-45 | A chain header is read exactly when its lines hold nothing but visible ASCII, spaces and tabs. |
| HeaderTheorems.LinesCombine | src/headers.rs:34-57 | Several lines hold the hops of the single comma-joined line (for `Forwarded`, when all lines but the last close their quotes). |
| HeaderTheorems.EmptyPartsShiftNothing | src/headers.rs:53-54 | Leaving out an empty part, at the start, in the middle or at the end of a line, shifts no hop. |
| HeaderTheorems.ForwardedCombinesIff | src/headers.rs:59-80 | A `Forwarded` line can be joined with every following line exactly when it closes its quotes. |
| HeaderTheorems.OpenLineExample | src/headers.rs:59-80 | A concrete `Forwarded` line whose open quote makes joining lose a hop. |
| HeaderTheorems.BackIsReverse | src/headers.rs:47-56 | Consuming a list header from the back yields the exact reverse of the forward order, across lines and empty parts. |
| NodeTheorems.HopForms | src/headers.rs:213-280 | A hop names an address exactly when it is, up to blanks, a printed node: a plain address of either family, a bracketed one bare or with a port, or an IPv4 host with a port, a port being a number of any length or an underscore and a hidden name; and then it is that address in canonical form. |
| NodeTheorems.PortNeverMatters | src/headers.rs:227-280 | Behind an IPv4 host or a bracketed address, any printed port reads as the bare address, and any other text behind the colon gives no address. |
| NodeTheorems.SocketBranchIsRedundant | src/headers.rs:247-249 | Dropping the socket-address branch, with its 65535 limit, never changes the answer. |
| NodeTheorems.HiddenBranchIsRedundant | src/headers.rs:216-219 | Nor does dropping the branch for `unknown` and names behind an underscore: such a hop names no address anyway. |
| NodeTheorems.DottedQuadsFit | src/headers.rs:251-251 | The restriction put on IPv4 texts turns away no dotted quad of decimal numbers. |
| NodeTheorems.ColonGroupsFit | src/headers.rs:222-222 | Nor does the one put on IPv6 texts turn away hexadecimal groups between colons, some of them empty, with or without a dotted tail. |
| NodeTheorems.ConfiguredHeaderIff | src/headers.rs:25-32 | A configured header gives an address exactly when its last value is a plain address of either family with blanks around it, whatever stands in the values before; it gives the canonical form. |
| Resolve.HopIterator.NextBack | src/resolve.rs:146-146 | Takes the last hop off the remaining ones. |
| Resolve.HopIterator.NthBack | src/resolve.rs:132-132 | Skips a number of hops from the right and takes the next one, or exhausts a chain that is too short. |
| Resolve.SelectTrustAllChainIp | src/resolve.rs:124-139 | The hop at the selected position, if it exists and has an address. |
| Resolve.FirstNonTrustedFromRight | src/resolve.rs:142-157 | The consuming loop computes the right-to-left scan. |
| Resolve.ClientIpFromChainHeaders | src/resolve.rs:90-121 | The loop with early returns computes the answer of the first chain header the request carries. |
| Resolve.ResolveClientIp | src/resolve.rs:17-29 | The three trust models compute the specified resolution. |
| ResolveTheorems.ScanIsExact | src/resolve.rs:141-157 | The scan answers with an address exactly when some hop is it, is not trusted, and every hop to its right is a trusted address. |
| ResolveTheorems.ScanIgnoresLeft | src/resolve.rs:151-152 | Hops added on the left matter only when every hop already there is a trusted proxy. |
| ResolveTheorems.SelectionIgnoresLeft | src/resolve.rs:128-133 | Counting from the right ignores what is added on the left, as long as the chain is long enough. |
| ResolveTheorems.FirstPresentDecides | src/resolve.rs:89-120 | The first chain header present gives the answer or no chain header does. |
| ResolveTheorems.TrustIsReading | src/config.rs:106-114 | Under all three trust models an address is a trusted proxy exactly when the headers of a request from it are read. |
| ResolveTheorems.UntrustedAnswersItself | src/resolve.rs:39-42 | An address that is no trusted proxy resolves to itself, whatever headers it sends. |
| ResolveTheorems.PeerHeaderExact | src/resolve.rs:44-45 | The configured header that is read is exactly the one that a rule containing the peer names. |
| ResolveTheorems.ResultIsExplained | src/resolve.rs:16-83 | A result is the answer if and only if its source explains it: the last value of a header configured for the peer is a plain address; or no such value exists and the first chain header present is readable and the hop asked for has that address; or the peer is not read or neither of these exists, and it is the peer itself. |
| ResolveTheorems.ResultIsCanonical | src/resolve.rs:16-83 | Every answer is a canonical address, and in trusted-proxies mode a chain never answers with a trusted proxy. |
| ResolveTheorems.PeerHeaderIsGranted | src/resolve.rs:40-45 | For a built config, the header configured for a peer is exactly the one that a matching supplied rule names, and a peer is not read exactly when no supplied rule matches it. |
| ResolveTheorems.SuppliedHeaderIsRead | src/resolve.rs:44-47 | When a matching supplied rule names a header, a plain address with blanks around it as its last value is the answer, whatever other values and headers the request carries. |
| ResolveTheorems.ModeHeaderIsRead | src/resolve.rs:68-72 | The same in trust-all mode, for every peer. |
| ResolveTheorems.DefaultOrderDecides | src/config.rs:613-617 | By default `x-forwarded-for` decides as a list whenever it is present, and `forwarded` is read only without it. |
| ResolveTheorems.MappedPeerIsSame | src/resolve.rs:18-18 | A peer and its IPv4-mapped form give the same result under every trust model. |
| ResolveTheorems.OnlyDecidingHeadersMatter | src/resolve.rs:39-118 | For a peer that no rule covers no header matters; else only the peer's configured header and the chain headers up to the first present one, or all of them when none is present, can influence the result. |
| ResolveTheorems.PrefixCannotChangeAnswer | src/resolve.rs:51-57 | Once a chain gives the answer, prepending readable lines, or text and a comma that leave the scanner outside quotes, changes neither the address nor its source. |
| ResolveTheorems.LinesInFront | src/headers.rs:36-45 | Whole lines put in front of an answering chain leave the result alone when they are all readable; one unreadable line turns it into the socket peer. |
| SenderTheorems.WrittenLineReads | src/headers.rs:36-57 | List items, or `Forwarded` elements in any spelling with any other parameters, joined by commas read back as their hops in order. |
| SenderTheorems.NodeIsWritten | src/headers.rs:213-280 | Every printed node, with any port, is such an item or element with its own address, as a token or as a quoted string. |
| SenderTheorems.SenderIsFound | src/resolve.rs:50-57 | When the deciding header ends in the sender's hop and behind it the hops of the trusted proxies, or exactly as many hops as trust-all mode skips, the sender's address is the answer, whatever readable text that closes its quotes, and whatever readable lines, the sender put in front. |
| PrefixTheorems.HarmlessIffComplete | src/resolve.rs:51-57 | Under the scan for the first untrusted hop and under every selection counted from the right, readable text in front of a `Forwarded` line is harmless for every request exactly when it closes its quotes, as soon as two different addresses that can be picked can be written. |
| PrefixTheorems.HarmlessLeftmostIff | src/resolve.rs:128-129 | Under the leftmost selection, readable text in front of a `Forwarded` line is harmless for every request exactly when it closes its quotes and holds no hop. |
| PrefixTheorems.OpenQuoteTakesOver | src/headers.rs:133-169 | Concrete text with an open quote that swallows the hop its proxy wrote and makes the sender's own address the answer, under every selection but the leftmost. |
| ResolveTheorems.BuiltResolvesAsSupplied | src/resolve.rs:33-60 | A config built from supplied rules resolves every request as a linear scan over those rewritten rules would, and so exactly to the result those rules explain. |

## Left out

- The axum extractor, connection info, error display and HTTP responses: plumbing around the resolver.
- The combiners of `cidr-utils` and the standard sort: replaced by proved implementations of their contracts; the real libraries are outside the model.
- The text grammars of IP addresses: parameters, as described above; printing and parsing of digits is not modelled.
- Resolve.HopIterator: holds the hops of a list header as one sequence; that reading lazily from the back gives the same hops is `HeaderTheorems.BackIsReverse`.
- HeaderTheorems.LinesCombine: for `Forwarded` it asks that lines close their quotes; `HeaderTheorems.ForwardedCombinesIff` shows why.
- IndexTheorems.SplittingDoesNotMatter: leaves out the network `::fffe:0:0/95`, which `IndexTheorems.SplittingInList` and `LookupTheorems.SplittingForLookups` cover.
- ResolveTheorems.PrefixCannotChangeAnswer: leaves out the leftmost selection of trust-all mode, which asks for the oldest hop by design; `PrefixTheorems.HarmlessLeftmostIff` says what text may be put in front under it.
- Header name parsing, hashing and case folding, `ChainHeader::new` and the other builder setters and getters: no property depends on them.
- Vectors updated in place are sequences held in variables, so aliasing and capacity are not modelled.
