# The Afra panel, verified

A Dafny model of the parts of the Afra proxy panel where a wrong step is silent: what its encoders
and printers lose, what its caches may still say, what its limiters let through, and what a restore
leaves behind. Each module models one part and states its property for all inputs or all runs.

- `Base64`, `Base32` over `Bits`: the two codecs as loops over a 32-bit accumulator that is never
  masked, against the bit stream of RFC 4648 sections 4, 5 and 6.
- `Vless`: the header parser with its cursor, against a reference encoder, in both directions.
- `Ip` over `Arith`: `ipInCidr` with its masks and shifts, against integer division.
- `Rfc4291`: the text forms of addresses in RFC 4291 section 2.2, what `expandIpv6` reads beyond
  them, and which addresses have one spelling only.
- `Yaml`, `YamlReader`, `YamlLines`, `YamlRoundTrip`: the YAML printer, and a reader of block
  collections, single-quoted and plain scalars written from YAML 1.2.2 sections 5.1, 5.4, 7.3.2,
  7.3.3, 8.2, 9.1 and 10.3.2, which refuses what it does not know.
- `Routing`, `Clash`: the routing engine as an interpreter, for targets as they are typed, its
  compilation to Clash rule lines, and a reference reader for those lines.
- `Balancer` over `Sorting`: ranking, weighted pick and failover.
- `RateLimiter`, `LoginLog`: the two limiters as event logs with invariants over runs.
- `HealthPool`: the worker pool, in any interleaving of its workers.
- `Allowlist`, `AllowlistAnswers` and `AllowlistService`, `Sessions`, `SessionAnswers` and
  `SessionService`: the two KV caches in front of the database. The first of each three has the
  operations as functions on a state and the theorems over runs; the second says by the rows' fields
  what each operation does to the answers; the third has the operations as methods of a class,
  proved equal to those functions.
- `Database`, `Backup`, `BackupService`: tables with primary keys, foreign keys and unique columns;
  backup and restore over them.
- `Text`, `Numbers`: the string functions of JavaScript that the parts use, and what else they share.

Where the code and its documentation disagree the model follows the code. What that brought out:

- `toYaml` (packages/shared/src/subformats.ts:62-66) takes the whole block for its first line and
  then appends the rest again, so that every array element of more than one line has its other
  lines printed twice. A list of objects with two or more entries, such as the proxies and groups of
  every Clash document, is not read back as what was printed. It also strips from the first key of
  an element what JavaScript takes for white space, a no-break space for instance.
  `YamlRoundTrip.RoundTrip` says exactly which trees survive: of all, with any keys and strings.
- Clash lines carry patterns as typed while the engine normalises them: a leading dot in a
  `domain-suffix` rule, or a final dot, makes a line that does not apply to the host the rule is for
  (`Clash.DomainsFaithful`). A comma in a pattern ends it (`Clash.LineReads`). An `ip` rule is
  compared as text but compiled to a block, so that IPv6 addresses are compiled unfaithfully, but
  for those without a second spelling (`Clash.Ipv6Spelling`). The exact condition for every kind is
  `Clash.Faithful`; it is what `Clash.MeaningPreserved` asks of the rules of a document.
- A VLESS header that announces a name and ends there is accepted with an empty address and the whole
  buffer as payload, because JavaScript goes on with NaN (`Vless.MissingLengthAccepted`).
- The rate limiter's comment calls its window sliding; it is fixed, and one window length can admit
  2 limit - 1 requests, no more (`RateLimiter.AtMostTwice`, `RateLimiter.BoundReached`).
- The login limit holds for 900 successive stamped seconds, but not for a sliding window of 15
  minutes: there it can be met twice (`LoginLog.KeptUpTo`).
- The balancer's comment says healthy nodes always come first. The `health` strategy does that; the
  others do it exactly when no sicker candidate has the lower latency, or the better priority and
  weight (`Balancer.HealthFirstIff`).
- A candidate whose share of the weights lies in the last millionth is never picked
  (`Balancer.Reachable`).
- `recordTraffic` deletes a key of another family than the one the edge reads (`Allowlist.TrafficLags`).
- `expandIpv6` accepts empty groups, as in `1:2:3:4:5:6:7:` or `1:::2`, and `::` next to eight groups,
  where it stands for none; no other text beyond RFC 4291 (`Rfc4291.ReadBeyond`). A `cidr` rule with
  such an address works in the panel, while a client refuses its line (`Clash.AcceptedBlocks`).
- A `null` in a health request's targets ends the worker that takes it, and exactly the targets
  behind the one that ends the last worker are not probed (`HealthPool.ProbedIff`).
- A restore stops with an error when a role still to be written holds the name, as it was changed
  later, of the one being written; which renamings it survives depends on the order in which the
  backup read the rows (`Backup.RestoresIff`).

Conventions of the model: the database and KV are maps; times are integers in milliseconds; what is
drawn at random, read from a clock or decided by the network is a parameter; `localeCompare` is a
function from strings to the reals that ranks them; the predicates that state invariants over runs
are about values, and the classes' methods are proved to take exactly those steps.

## Model

| member | source | states |
|---|---|---|
| Yaml.Print | packages/shared/src/subformats.ts:54-98 | the printer with its loop over entries and its map over elements produces, for every value and level, the text of the recursive definition |
| YamlLines.PrintedLines | packages/shared/src/subformats.ts:54-98 | what is printed is exactly a list of indented lines, in which every array element's first line has lost what JavaScript takes for white space in front, and its other lines occur twice |
| YamlLines.PrintedItem | packages/shared/src/subformats.ts:60-68 | one array element: its first line, stripped, behind `- `, then its other lines, then (because `trimmed` is the whole block) those other lines again |
| YamlLines.ReadsPrintedLines | packages/shared/src/subformats.ts:54-98 | a YAML reader, for whom a carriage return ends a line too, sees of the text those lines and nothing else, and refuses it if one of them is a document marker |
| YamlRoundTrip.ScalarReads | packages/shared/src/subformats.ts:40-48 | a printed scalar reads back as itself exactly if it is plain text that YAML does not resolve, split or take for an indicator, or quoted text without line breaks and control characters; otherwise it is no scalar or another one |
| YamlRoundTrip.TextReads | packages/shared/src/subformats.ts:40-48 | for every string, by its characters: printed and read back it is the same exactly if it can stand in quotes and, where it is made of `[A-Za-z0-9_./:@+-]` only, has no `@` in front, no colon at the end, and is no lone dash, no `---` or `...` and no number but plain digits; so all digits, all words and all strings with any other character are safe |
| YamlRoundTrip.QuotedIff | packages/shared/src/subformats.ts:37-48 | exactly which strings are printed in quotes: those with another character than `[A-Za-z0-9_./:@+-]`, those of digits only, the empty one, and eight words in any case |
| YamlRoundTrip.WordsQuoted | packages/shared/src/subformats.ts:38-48 | every word that YAML 1.1 or 1.2 takes for a truth value or null, but for `y` and `n`, is printed in quotes |
| YamlRoundTrip.PrintedTokens | packages/shared/src/subformats.ts:60-66 | where nothing is stripped from a key, the printed lines open at least as many entries and elements as the value has, and strictly more if some array element has several lines |
| YamlRoundTrip.ReadCounts | packages/shared/src/subformats.ts:54-98 | whatever the reader accepts has exactly as many entries and elements as its lines open |
| YamlRoundTrip.LinesReadBack | packages/shared/src/subformats.ts:54-98 | for trees with plain keys, without multi-line elements and stripped keys, the lines read back as the tree if and only if its strings and elements are faithful |
| YamlRoundTrip.NothingLost | packages/shared/src/subformats.ts:63-66 | printed lines that read back as their tree, whatever lines follow them, have lost nothing of a key to `replace(/^\s+/, '')` |
| YamlRoundTrip.MarkerLines | packages/shared/src/subformats.ts:54-98 | the printed lines hold a document marker exactly when the tree is one of its strings or an object with a key that starts like one |
| YamlRoundTrip.RoundTrip | packages/shared/src/subformats.ts:37-98 | for every JavaScript tree, whatever its keys and strings: reading the printed text gives the tree back if and only if it is faithful (array elements on one line, none an empty object, none with white space in front of its first key; keys that YAML reads as plain strings; strings without control characters that YAML does not take for something else), is no empty object and prints no document marker |
| YamlRoundTrip.TwoEntryElement | packages/shared/src/subformats.ts:60-66 | no array that holds an object with two or more entries ever reads back, which is the shape of the Clash proxies |
| YamlRoundTrip.SecondLineTwice | packages/shared/src/subformats.ts:60-66 | the witness: for every two scalar entries the second one's line is printed twice |
| Base64.BytesToBase64 | packages/shared/src/codec.ts:5-17 | the chunk loop produces the RFC 4648 text: 6-bit digits of the bit stream, padded with `=` |
| Base64.Chunk | packages/shared/src/codec.ts:8-14 | the four table indices of a chunk, computed with shifts and masks, are the 24 bits of its octets cut into four |
| Base64.SarLow | packages/shared/src/codec.ts:35 | the sign bits that `>>` copies into the unmasked 32-bit accumulator never reach the eight bits kept |
| Base64.Push | packages/shared/src/codec.ts:31-37 | one decoded character: octets written and bits left over spell the digits seen, and every write is inside the preallocated output |
| Base64.Base64ToBytes | packages/shared/src/codec.ts:19-40 | for every input text, in either alphabet and with any foreign characters, the octets that its digits fill |
| Base64.RoundTrip | packages/shared/src/codec.ts:5-52 | decoding undoes encoding for every byte sequence, padded and URL-safe unpadded |
| Base64.EncodedLength | packages/shared/src/codec.ts:5-17 | four characters for every started three octets |
| Base64.EncodeDecode | packages/shared/src/codec.ts:5-40 | the two loops one after the other give the bytes back |
| Bits.Absorb | packages/shared/src/codec.ts:28-38 | one round of either decoder: a digit shifted into an accumulator that is never masked keeps the bit stream, whatever overflows at the top |
| Bits.Regroup | apps/control-plane/src/core/crypto.ts:187-219 | cutting octets into digits of up to eight bits and back gives the octets: padding bits never make one |
| Base32.Base32Encode | apps/control-plane/src/core/crypto.ts:187-201 | the nested loops produce the 5-bit digits of the bit stream |
| Base32.EmitDigit | apps/control-plane/src/core/crypto.ts:194-197 | taking the oldest five bits out of the accumulator keeps the bit stream |
| Base32.LastEmit | apps/control-plane/src/core/crypto.ts:199 | the last digit is the left-over bits filled up with zeros |
| Base32.Base32Decode | apps/control-plane/src/core/crypto.ts:203-219 | for every ASCII input, the octets that its digits fill; case, white space, padding and foreign characters are skipped |
| Base32.QuintetValues | apps/control-plane/src/core/crypto.ts:180-215 | what each character stands for: a letter in either case a digit from 0 to 25, `2` to `7` the digits from 26, and every other nothing |
| Base32.RoundTrip | apps/control-plane/src/core/crypto.ts:187-219 | decoding undoes encoding for every byte sequence; no partial octet appears |
| Base32.RetypedRoundTrip | apps/control-plane/src/core/crypto.ts:204 | the same for every retyping in either case, with white space and with padding |
| Base32.EncodedLength | apps/control-plane/src/core/crypto.ts:187-201 | the encoded length is ceil(8n/5) |
| Ip.Ipv4Exact | packages/shared/src/routing.ts:32-34 | `>>> 0` cuts nothing off: the number is the four octets in base 256, below 2^32 |
| Ip.Ipv4Injective | packages/shared/src/routing.ts:32-34 | on addresses without leading zeros the number tells texts apart |
| Ip.ExpandIpv6 | packages/shared/src/routing.ts:36-53 | the loop over the groups computes the big-endian number, or null if one is no group |
| Ip.FullForm | packages/shared/src/routing.ts:36-53 | RFC 4291 form 1: eight groups read as their big-endian number |
| Ip.CompressedForm | packages/shared/src/routing.ts:36-53 | RFC 4291 form 2: `::` stands for the missing zero groups, for every split with at most eight groups; more are refused |
| Ip.CaseFree | packages/shared/src/routing.ts:36-53 | `expandIpv6` reads capitals as the same digits |
| Rfc4291.ReadsStrictlyIff | packages/shared/src/routing.ts:36-53 | cutting a text up decides whether it is one of RFC 4291's texts of hexadecimal digits and colons: eight groups, or `::` with at most seven around it |
| Rfc4291.ReadBeyond | packages/shared/src/routing.ts:36-53 | exactly what `expandIpv6` reads beyond those: an empty group that is no part of `::`, or a `::` next to eight groups |
| Rfc4291.StrictDiffers | packages/shared/src/routing.ts:18-53 | exactly for which texts the panel and the RFC differ: an octet with a zero in front, what `expandIpv6` reads beyond, and the form with a dotted end, which the panel does not know |
| Rfc4291.AddressTextReads | packages/shared/src/routing.ts:18-53 | every number of 32 or 128 bits can be written so that the panel and the RFC both read it back |
| Rfc4291.OneSpellingOnly | packages/shared/src/routing.ts:36-53 | an address of eight groups of four digits, none with a zero in front, is written in lower case in no other way |
| Rfc4291.OtherSpelling | packages/shared/src/routing.ts:36-53 | every other text of the RFC has a second spelling in lower case that stands for the same number |
| Ip.Cidr4Meaning | packages/shared/src/routing.ts:61-67 | the masked IPv4 comparison is equality after integer division by 2^(32 - prefix), where a prefix between two whole numbers counts as the upper one and NaN as 32 |
| Ip.Cidr6Meaning | packages/shared/src/routing.ts:69-78 | the shifted IPv6 comparison likewise for 128 bits |
| Ip.CidrMeaning | packages/shared/src/routing.ts:56-81 | for whole prefixes `ipInCidr` is membership in the block, never an error |
| Ip.CidrThrows | packages/shared/src/routing.ts:56-81 | exactly when it throws: an IPv6 range and address that can be read, with a prefix that is NaN or lies between two whole numbers from 0 to 128 |
| Ip.NestedOrDisjoint | packages/shared/src/routing.ts:56-81 | two blocks of one family are nested or disjoint |
| Sorting.FilterSorted | packages/shared/src/routing.ts:12-16 | the sort is stable: it commutes with every filter |
| Sorting.OrderedUnique | packages/shared/src/balancer.ts:44-66 | without ties there is one ordered arrangement of a multiset |
| Routing.ResolveAction | packages/shared/src/routing.ts:110-119 | the loop with early return gives the first match in sorted order, or the error that `ipInCidr` throws |
| Routing.DomainRule | packages/shared/src/routing.ts:83-88 | a `domain` rule matches a target that is not blank exactly if both are typed for one name: the same in lower case but for white space around and one final dot |
| Routing.SuffixRule | packages/shared/src/routing.ts:89-93 | a `domain-suffix` rule matches the names that are its own, written with a dot in front or without, or end in a dot and it |
| Routing.KeywordRule | packages/shared/src/routing.ts:94-95 | a `domain-keyword` rule matches the names that hold its own |
| Routing.AddressRule | packages/shared/src/routing.ts:96-97 | an `ip` rule matches the texts that are its own but for white space around |
| Routing.BlockRule | packages/shared/src/routing.ts:98-99 | a `cidr` rule asks `ipInCidr` about the texts without the white space around, and matches no text that is no address |
| Routing.NothingMatches | packages/shared/src/routing.ts:83-108 | a blank target matches no rule, and the kinds that are left to the client match nothing |
| Routing.ResolvedAlike | packages/shared/src/routing.ts:110-119 | two targets typed for one name are decided alike by any list of domain rules, and two that differ in white space around them by any list |
| Routing.ResolvedDecides | packages/shared/src/routing.ts:110-119 | without reference to the sort: the decision is that of an enabled matching rule before which no enabled rule matches, or the fallback if none matches |
| Routing.StorageOrderFree | packages/shared/src/routing.ts:12-16 | where no two enabled rules tie, the stored order makes no difference |
| Routing.TiesKeepOrder | packages/shared/src/routing.ts:12-16 | rules that tie keep the order in which they are stored |
| Clash.LineReads | packages/shared/src/routing.ts:132-144 | for every rule kind, a compiled line reads back as its rule's kind, pattern and policy if and only if the pattern holds no comma |
| Clash.LineSpells | packages/shared/src/routing.ts:121-144 | the fields of every line whose pattern holds no comma: the kind by its name, the pattern, with a length for an `ip` rule without one, the policy, and `no-resolve` for exactly `ip` and `cidr` rules |
| Clash.LineKeeps | packages/shared/src/routing.ts:83-144 | the compiled line of a faithful rule without a comma, of any of the five server-side types, is read with the rule's policy and applies to exactly the canonical hosts that the rule matches |
| Clash.IpKind | packages/shared/src/routing.ts:138-140 | an `ip` rule whose address has one spelling, IPv4 or IPv6, and its line, a block of one address, agree on every host |
| Clash.FaithfulIff | packages/shared/src/routing.ts:83-144 | for every rule of the five server-side types: rule and line apply to the same hosts if and only if the rule is faithful, a condition on its kind and the text of its pattern |
| Clash.FaithfulNeeded | packages/shared/src/routing.ts:110-144 | a document with one such rule, of another action than the fallback's, does with every host what `resolveAction` decides if and only if the rule is faithful |
| Clash.BlockKind | packages/shared/src/routing.ts:98-99 | with a prefix of digits, a `cidr` rule evaluated by masks and shifts tests membership in the block of the address as the panel reads it, and its line in that of the address as RFC 4291 has it, for both families |
| Clash.MeaningPreserved | packages/shared/src/subformats.ts:198 | for every rule list whose enabled rules are faithful and hold no comma, and every canonical host, first match over the emitted lines and the final `MATCH` does what `resolveAction` decides |
| Clash.TypedMeaning | packages/shared/src/routing.ts:18-20 | and for every target as it is typed: with white space around in any list, and in any case and with a final dot where no rule compares addresses, `resolveAction` decides what the client does with the host |
| Clash.GroupNames | packages/shared/src/routing.ts:133-134 | every action reads back if and only if the group is called neither DIRECT nor REJECT |
| Clash.DomainsFaithful | packages/shared/src/routing.ts:87-95 | for every pattern of the three domain kinds: rule and line apply to the same hosts if and only if normalising strips no dot from the pattern, or the pattern is for no host: a `domain` rule whose name is none, a `domain-suffix` rule with a final dot whose name ends as none does |
| Clash.CommaMisreads | packages/shared/src/routing.ts:142 | what every line is read as: the pattern ends at its first comma, and the text behind it, up to the next, is the policy |
| Clash.AddressesFaithful | packages/shared/src/routing.ts:96-97 | for every pattern of an `ip` rule: the rule and its line apply to the same hosts if and only if the pattern is an address with one spelling, or the line names no block and the pattern is no host as a client writes it |
| Clash.Ipv6Spelling | packages/shared/src/routing.ts:96-97 | of the patterns that `validateRulePattern` lets through for `ip`, a rule and its line apply to the same hosts if and only if the pattern is IPv4, or IPv6 with one spelling, or none of RFC 4291's texts |
| Clash.BlocksFaithful | packages/shared/src/routing.ts:98-99 | for every pattern of a `cidr` rule: with a prefix of digits, rule and line apply to the same hosts if and only if panel and RFC 4291 read the address alike, or the prefix is too long; with another or no prefix, if and only if the panel reads no address or finds the prefix out of range |
| Clash.AcceptedBlocks | packages/shared/src/routing.ts:98-99 | of the blocks that `validateRulePattern` lets through, with digits in range: exactly those with an octet with a zero in front, or an IPv6 text that only `expandIpv6` reads, are compiled unfaithfully |
| Vless.BytesToUuid | apps/edge/src/vless.ts:22-32 | the loop and the slices produce the dashed text of 16 octets |
| Vless.UuidSpells | apps/edge/src/vless.ts:22-32 | a text is the one that `bytesToUuid` returns if and only if it has dashes at 8, 13, 18 and 23 and its 32 other characters are lower-case digits that spell the octets' number to the base 16 |
| Vless.ParseVlessHeader | apps/edge/src/vless.ts:35-79 | the cursor walk returns or throws what the declarative layout says, including the branch where the length octet of a name is missing |
| Vless.ParseAddress | apps/edge/src/vless.ts:46-78 | the branches on the address type, with the cursor moving over the buffer, give the address and payload of the layout, or its error |
| Vless.RoundTrip | apps/edge/src/vless.ts:35-79 | for every encoded header of any version, options, command, port and address, and every payload, parsing gives exactly those fields if and only if the whole has 24 octets; only an empty name without options and payload has not |
| Vless.OnlyEncodings | apps/edge/src/vless.ts:35-79 | conversely every accepted buffer with a complete address is the encoding of what was returned |
| Vless.CutRefused | apps/edge/src/vless.ts:35-89 | every header that is cut off is refused, with the error for the part that is missing, but for the one that ends behind the octet that announces a name |
| Vless.TypeRefused | apps/edge/src/vless.ts:35-89 | an address type is refused as unsupported exactly if it is none of 1, 2 and 3 |
| Vless.MissingLengthAccepted | apps/edge/src/vless.ts:54-59 | a buffer that ends before a name's length is accepted with an empty name and the whole buffer as payload |
| Vless.Ipv6TextReads | apps/edge/src/vless.ts:60-66 | the IPv6 text, read by `expandIpv6`, is the 16 octets as one big-endian number |
| Vless.Ipv4TextReads | apps/edge/src/vless.ts:50-53 | the IPv4 text is canonical and `ipv4ToInt` of it is the four octets |
| Vless.UuidWellFormed | apps/edge/src/vless.ts:22-32 | the UUID text has the form that `authorizeUuid` asks for, in lower case |
| Vless.UuidInjective | apps/edge/src/vless.ts:22-32 | it tells 16-octet sequences apart |
| Balancer.CompareIsKeyOrder | packages/shared/src/balancer.ts:44-66 | the comparator, branch by branch, is the lexicographic order of each strategy's key |
| Balancer.RankedByFields | packages/shared/src/balancer.ts:32-66 | by the candidates' fields: exactly the enabled ones that are healthy, degraded or unknown are ranked, and nobody stands behind one that the strategy puts behind them, criterion by criterion, with an unmeasured latency as the largest safe integer |
| Balancer.RankUnique | packages/shared/src/balancer.ts:39-67 | for distinct ids the ranking is the one ordered permutation of the usable candidates |
| Balancer.RankPermutation | packages/shared/src/balancer.ts:39-67 | it does not depend on the order of the input |
| Balancer.HealthFirstIff | packages/shared/src/balancer.ts:35-66 | for all candidates and every strategy: health never gets better along the ranking if and only if no usable candidate of worse health overtakes a usable one by what the strategy looks at before health (nothing; latency, then priority; priority, then weight) |
| Balancer.HealthierFirst | packages/shared/src/balancer.ts:46 | under the `health` strategy nobody stands before a healthier candidate |
| Balancer.HealthierNotFirst | packages/shared/src/balancer.ts:37 | under every strategy and for every two usable candidates of different health, the one of worse health stands first if and only if it overtakes the other |
| Balancer.RankRemoved | packages/shared/src/balancer.ts:95-103 | ranking commutes with taking candidates away |
| Balancer.FailoverNext | packages/shared/src/balancer.ts:95-103 | with the first k of the ranking failed, failover returns the next one, and null after the last |
| Balancer.FailoverAll | packages/shared/src/balancer.ts:95-103 | failing over again and again visits exactly the ranking |
| Balancer.RankIdsOnce | packages/shared/src/balancer.ts:95-103 | distinct ids in the input give a ranking without a repeated id |
| Balancer.PickFrom | packages/shared/src/balancer.ts:86-91 | the decrementing loop returns the candidate whose share holds the threshold; the return behind it is unreachable |
| Balancer.PickCandidate | packages/shared/src/balancer.ts:73-92 | null for no usable candidate, the first for other strategies, the share's owner or the tier's first for `weight` |
| Balancer.PickMeaning | packages/shared/src/balancer.ts:82-91 | the pick is the first of the tier if no weight is positive, and else the candidate of positive weight in whose part of the positive weights' sum lies the random number's, kept from 0 to 0.999999 |
| Balancer.TierMembers | packages/shared/src/balancer.ts:82-83 | the tier holds exactly the ranked candidates of the lowest priority number |
| Balancer.ShareUnique | packages/shared/src/balancer.ts:86-90 | at most one share holds a threshold, and a candidate without weight has none |
| Balancer.Thresholds | packages/shared/src/balancer.ts:86 | the thresholds that random numbers give are exactly those up to 0.999999 of the total |
| Balancer.Reachable | packages/shared/src/balancer.ts:86-90 | a candidate can be picked if and only if it has weight and its share begins below that clamp |
| Balancer.TierIsPrefix | packages/shared/src/balancer.ts:82-83 | the top-priority tier is a prefix of the ranking by weight |
| RateLimiter.RateLimiterDO.ConsumeRequest | apps/control-plane/src/durable/rate-limiter.ts:33-67 | the handler's step on the stored window and alarm |
| RateLimiter.AtMostTwice | apps/control-plane/src/durable/rate-limiter.ts:33-66 | in every run with a clock that does not go back, at most `limit` per stored window and at most 2 limit - 1 in any interval of one window length |
| RateLimiter.BoundReached | apps/control-plane/src/durable/rate-limiter.ts:39-59 | the bound is reached for every limit: the window is fixed, not sliding |
| RateLimiter.AlarmInsensitive | apps/control-plane/src/durable/rate-limiter.ts:60-71 | alarms that fire at or after their time never change the answer to a request |
| RateLimiter.RetryAfterExact | apps/control-plane/src/durable/rate-limiter.ts:52-55 | a request that many whole seconds after a denial is admitted if and only if they are at least `retryAfter` |
| RateLimiter.RemainingExact | apps/control-plane/src/durable/rate-limiter.ts:56-65 | `remaining` is exactly how many more requests at the same time are admitted |
| RateLimiter.Defaults | apps/control-plane/src/durable/rate-limiter.ts:34-35 | 60 where the request gives none, and at least 1 |
| RateLimiter.AlarmSet | apps/control-plane/src/durable/rate-limiter.ts:39-72 | a denial changes nothing; an admission counts in a window that has not ended and sets the alarm to a second behind its end; an alarm leaves nothing |
| LoginLog.AuthRouter.Login | apps/control-plane/src/modules/auth/auth.routes.ts:104-169 | the check, then the recorded attempt of each outcome |
| LoginLog.LoginReplies | apps/control-plane/src/modules/auth/auth.routes.ts:105-185 | for every log, claim, clock and limit: a login is let in exactly if the admin is there and enabled, the password right, a code that is asked for given and right, and fewer failures than the limit are stamped with the last 900 seconds; it is refused for the rate exactly at the limit, whatever it claims; and each other reply is for its own kind of claim |
| LoginLog.LoginRecords | apps/control-plane/src/modules/auth/auth.routes.ts:105-185 | a refusal for the rate and a missing code record nothing; every other reply one row, a success exactly if it lets in, and with its reason if not |
| LoginLog.RecoveryCounts | apps/control-plane/src/modules/auth/auth.routes.ts:444-456 | a wrong recovery code adds one failure that counts for logins, a right one nothing |
| LoginLog.LockedOut | apps/control-plane/src/modules/auth/auth.routes.ts:120-128 | in every run, whatever events follow: once the limit is reached, every login is refused, right or wrong, as long as the failures that counted still do |
| LoginLog.LockoutEnds | apps/control-plane/src/modules/auth/auth.routes.ts:120-128 | and where exactly the limit counted and no row of the user was added, a right login after the oldest has left the window is let in |
| LoginLog.AuthRouter.RecentFailureCount | apps/control-plane/src/modules/auth/auth.routes.ts:82-95 | counts the user's failures stamped after the bound |
| LoginLog.Bounded | apps/control-plane/src/modules/auth/auth.routes.ts:82-153 | in every run, for any clock and with recovery failures in between, no 900 successive stamped seconds hold more login failures of a user than the limit |
| LoginLog.TwiceTheLimit | apps/control-plane/src/modules/auth/auth.routes.ts:86-88 | a run that has twice the limit within 15 minutes, since stamps are whole seconds and the comparison is strict |
| LoginLog.KeptUpTo | apps/control-plane/src/modules/auth/auth.routes.ts:82-95 | the limit holds in every run for intervals of a length in milliseconds if and only if it is at most 899001 |
| HealthPool.Batch.TakeNext | apps/control-plane/src/durable/health-coordinator.ts:163-165 | a worker shifts the shared queue |
| HealthPool.Batch.PushResult | apps/control-plane/src/durable/health-coordinator.ts:166 | a worker pushes its result |
| HealthPool.Conserved | apps/control-plane/src/durable/health-coordinator.ts:153-172 | in every state of every interleaving, queue, in-flight and results together hold each target as often as the input, and at most min(concurrency, n) are in flight |
| HealthPool.StepsDoWork | apps/control-plane/src/durable/health-coordinator.ts:162-168 | every step lowers a measure |
| HealthPool.RunsEnd | apps/control-plane/src/durable/health-coordinator.ts:153-172 | no run is longer than 3n plus the number of workers |
| HealthPool.NeverStuck | apps/control-plane/src/durable/health-coordinator.ts:162-170 | a pool that cannot go on has finished |
| HealthPool.ProbedOnce | apps/control-plane/src/durable/health-coordinator.ts:153-172 | when all workers have returned, the targets taken are exactly those that stand behind fewer `null`s than there are workers, and each has a result as often as it was given there |
| HealthPool.ProbedIff | apps/control-plane/src/durable/health-coordinator.ts:153-172 | a target has as many results as it was given if and only if it never stands behind the `null` that stops the last worker |
| HealthPool.SummaryComplete | apps/control-plane/src/durable/health-coordinator.ts:137-145 | every target has its result, and healthy + degraded + unreachable = checked = n |
| HealthPool.ResultsReport | apps/control-plane/src/durable/health-coordinator.ts:33-98 | in every state of every interleaving each answer of the network has its result, in that order, which reports it: healthy within the threshold, degraded above, unreachable with up to 200 characters of the error if no connection was made |
| HealthPool.SummaryCounts | apps/control-plane/src/durable/health-coordinator.ts:137-145 | the summary's counts are the numbers of answers of each kind |
| HealthPool.WorkersStarted | apps/control-plane/src/durable/health-coordinator.ts:131-162 | one to twelve workers as asked, six by default, and no more than there are targets |
| Allowlist.StepKeeps | apps/control-plane/src/modules/users/users.service.ts:116-294 | every user, traffic, cron, prime, request, eviction and time step keeps the cache invariant |
| Allowlist.AnswerSound | apps/edge/src/data.ts:195-244 | in every run, whatever is cached: a denial is the table's verdict; an allowance is for an enabled user of that credential whom the table allows too, or whose expiry or quota was reached since the entry was put, within its own lifetime of 60 or 300 s |
| Allowlist.UncachedExact | apps/edge/src/data.ts:213-243 | without a live entry the answer is the table's |
| AllowlistAnswers.FreshAnswer | apps/edge/src/data.ts:213-243 | without a live entry, by the row's fields: refused as expired if the expiry has come, else for the quota if it is used up, else as disabled, else allowed; without a row refused as unknown |
| AllowlistAnswers.InvalidIff | apps/edge/src/data.ts:199-201 | refused as no UUID, without a look at cache or table, is exactly what is not five groups of hexadecimal digits of 8, 4, 4, 4 and 12 between dashes |
| AllowlistAnswers.VerdictKept | apps/edge/src/data.ts:195-244 | a verdict is kept for exactly 60 s, in which requests are answered by it; a hit and a failed put change nothing |
| Allowlist.ChangesTakeEffect | apps/control-plane/src/modules/users/users.service.ts:171-294 | after an update, deletion, reset, extension, rotation or (de)activation the next request is answered by the table, under the old and the new credential |
| AllowlistAnswers.CreateAnswers | apps/control-plane/src/modules/users/users.service.ts:116-169 | the new row has the fields that were given, with the expiry that many days from now, less under a second; the credential is answered by it |
| AllowlistAnswers.UpdateAnswers | apps/control-plane/src/modules/users/users.service.ts:171-227 | each field that is given has its value and each other its old one, and the next request is answered by the new row |
| AllowlistAnswers.RemoveAnswers | apps/control-plane/src/modules/users/users.service.ts:229-235 | the row is gone and its credential unknown to the next request |
| AllowlistAnswers.ResetAnswers | apps/control-plane/src/modules/users/users.service.ts:237-245 | nothing is used, so that the next request is not refused for a positive quota |
| AllowlistAnswers.ExtendAnswers | apps/control-plane/src/modules/users/users.service.ts:247-258 | the expiry is that many days, less under a second, after the later of now and the old one; with a positive number the next request is not refused as expired |
| AllowlistAnswers.RotateAnswers | apps/control-plane/src/modules/users/users.service.ts:260-273 | the old credential is unknown to the next request, and the new one is answered by the row, of which nothing else has changed |
| AllowlistAnswers.EnableAnswers | apps/control-plane/src/modules/users/users.service.ts:275-282 | the flag is the new one, nothing else changes, and the next request is answered by it |
| AllowlistAnswers.NobodyChanged | apps/control-plane/src/modules/users/users.service.ts:171-282 | a change for an id that is in no row does nothing |
| AllowlistAnswers.GivenUpForGood | apps/control-plane/src/modules/users/users.service.ts:229-273 | in every run a credential that was rotated away or deleted is never allowed again, whatever is cached, until it is drawn anew |
| AllowlistAnswers.TrafficAdds | apps/edge/src/data.ts:247-281 | a positive count is added to the used bytes of that user only, and no verdict goes |
| AllowlistAnswers.CronAnswers | apps/control-plane/src/scheduled.ts:30-42 | exactly the enabled users whose expiry came by the last whole second are disabled and answered so; the answers to the others stay |
| AllowlistAnswers.PrimeAnswers | apps/control-plane/src/modules/cloudflare/cloudflare.routes.ts:357-385 | each row's verdict is kept for exactly 300 s but where its put fails, and no other key changes |
| Allowlist.CronKeeps | apps/control-plane/src/scheduled.ts:30-42 | the hourly expiry keeps the cache invariant |
| Allowlist.PrimeKeeps | apps/control-plane/src/modules/cloudflare/cloudflare.routes.ts:357-385 | priming keeps the cache invariant, whichever puts fail |
| Allowlist.TrafficKeyElsewhere | apps/edge/src/data.ts:277 | the key that `recordTraffic` deletes is never an allowlist key |
| Allowlist.TrafficLags | apps/edge/src/data.ts:277 | after traffic the next answer is the table's if and only if not both a live entry allows the user and the row with the new traffic is no longer good; then the user is allowed still |
| Allowlist.FailedDeleteLags | apps/control-plane/src/modules/users/users.service.ts:292-294 | after any change by the service whose deletes fail, the next answer is the table's if and only if no live entry holds the opposite verdict; after disabling, if and only if none allows the user |
| AllowlistService.Panel.AuthorizeUuid | apps/edge/src/data.ts:195-244 | the handler's new cache state and answer |
| AllowlistService.Panel.RecordTraffic | apps/edge/src/data.ts:247-281 | the traffic update and the key it deletes |
| AllowlistService.Panel.CreateUser | apps/control-plane/src/modules/users/users.service.ts:116-169 | the new row, and the invalidated key |
| AllowlistService.Panel.UpdateUser | apps/control-plane/src/modules/users/users.service.ts:171-227 | the row under the collected assignments, and the invalidated key |
| AllowlistService.Assignments | apps/control-plane/src/modules/users/users.service.ts:179-199 | the assignments pushed one by one amount to the update |
| AllowlistService.Panel.DeleteUser | apps/control-plane/src/modules/users/users.service.ts:229-235 | the removed row, and the invalidated key |
| AllowlistService.Panel.ResetTraffic | apps/control-plane/src/modules/users/users.service.ts:237-245 | used bytes back to zero, and the invalidated key |
| AllowlistService.Panel.ExtendUser | apps/control-plane/src/modules/users/users.service.ts:247-258 | the later of now and the old expiry plus the days |
| AllowlistService.Panel.RotateCredentials | apps/control-plane/src/modules/users/users.service.ts:260-273 | the new credential, with both keys invalidated |
| AllowlistService.Panel.SetEnabled | apps/control-plane/src/modules/users/users.service.ts:275-282 | the flag, and the invalidated key |
| AllowlistService.Panel.InvalidateUserCache | apps/control-plane/src/modules/users/users.service.ts:292-294 | one key deleted |
| AllowlistService.Panel.DisableExpired | apps/control-plane/src/scheduled.ts:30-42 | the loop disables exactly the due users and deletes exactly their keys, in any order |
| AllowlistService.Panel.PrimeUserAllowlist | apps/control-plane/src/modules/cloudflare/cloudflare.routes.ts:357-385 | the loop puts a verdict for each row but where the put fails |
| Sessions.StepKeeps | apps/control-plane/src/core/session.ts:33-194 | every step keeps: a kept entry is the database's answer, or its row was cleaned up and it has expired |
| Sessions.CacheTransparent | apps/control-plane/src/core/session.ts:81-153 | in every state of every run a token resolves to exactly what it would with an empty cache |
| Sessions.ResolvesIff | apps/control-plane/src/core/session.ts:107-128 | that is the row's context if the row is there, joined, unrevoked, enabled and unexpired, and null otherwise |
| SessionAnswers.TokenTold | apps/control-plane/src/core/session.ts:81-153 | by the rows' fields, whatever is cached: a token resolves to its admin's name, role and permissions if its row is unrevoked and not over and the admin there and enabled, and to nothing otherwise |
| SessionAnswers.NewSessionLives | apps/control-plane/src/core/session.ts:33-79 | a new session resolves to its own admin until its minutes are over, less under a second, and to nothing from then on |
| SessionAnswers.ContextKept | apps/control-plane/src/core/session.ts:69-76 | a new context is kept for the session's time and for a minute at least |
| SessionAnswers.ContextKeptAgain | apps/control-plane/src/core/session.ts:130-143 | one read again, until less than a second before the end, and for a minute at least |
| Sessions.EndIsFinal | apps/control-plane/src/core/session.ts:155-194 | after a logout, `revokeAllSessions` or the deletion of the admin, no continuation ever resolves a token of a session that was ended |
| Sessions.LogoutFinal | apps/control-plane/src/core/session.ts:155-161 | after a logout no continuation ever resolves the token again |
| Sessions.RevokeAllExact | apps/control-plane/src/core/session.ts:163-194 | after `revokeAllSessions` the admin's tokens resolve to null, but for the excepted session's, whose answer stays |
| SessionAnswers.AnswersStay | apps/control-plane/src/core/session.ts:33-194 | every step that neither ends a session nor creates it leaves the answers to its token as they are |
| SessionAnswers.EndedNow | apps/control-plane/src/core/session.ts:155-194 | and after those that end it the token resolves to nothing |
| SessionAnswers.CountedAreEnded | apps/control-plane/src/core/session.ts:163-194 | `revokeAllSessions` counts exactly the sessions that it ends: the admin's that were not ended yet, but the excepted one |
| SessionAnswers.CleanedExact | apps/control-plane/src/scheduled.ts:117 | the daily clean-up takes exactly the rows that were over by the last whole second |
| SessionAnswers.RemovedIff | apps/control-plane/src/modules/settings/settings.routes.ts:126-145 | an admin is removed exactly if it is another, is there, and is no super admin or two super admins are enabled |
| SessionAnswers.SuperRemains | apps/control-plane/src/modules/settings/settings.routes.ts:126-145 | no step takes away the last enabled super admin |
| SessionAnswers.RemovedRows | apps/control-plane/src/modules/settings/settings.routes.ts:126-145 | the admin's row and sessions go, and all others stay |
| SessionAnswers.RefusedKeeps | apps/control-plane/src/modules/settings/settings.routes.ts:126-145 | a refused deletion changes nothing |
| Sessions.RemoveKeeps | apps/control-plane/src/modules/settings/settings.routes.ts:126-145 | deleting an admin, with its checks and its cascade, keeps the invariant |
| Sessions.FailedDeleteLeaks | apps/control-plane/src/core/session.ts:157 | after a logout whose delete fails, a token resolves if and only if it was accepted before and is kept |
| Sessions.FailedDeletesLeak | apps/control-plane/src/core/session.ts:174-179 | the same for each session that `revokeAllSessions` ends |
| SessionService.Store.CreateSession | apps/control-plane/src/core/session.ts:33-79 | the new row and the cached context |
| SessionService.Store.ResolveSession | apps/control-plane/src/core/session.ts:81-153 | the handler's new cache state and answer |
| SessionService.Store.RevokeSessionByToken | apps/control-plane/src/core/session.ts:155-161 | the deleted key and the revoked row |
| SessionService.Store.DeleteKeys | apps/control-plane/src/core/session.ts:174-179 | the counting loop deletes exactly the keys of the rows that are not excepted |
| SessionService.Store.RevokeAllSessions | apps/control-plane/src/core/session.ts:163-194 | the keys deleted, the rows revoked, and their number returned |
| SessionService.Store.DeleteAdmin | apps/control-plane/src/modules/settings/settings.routes.ts:126-145 | the four outcomes, and the new state of the one that removes |
| Database.UpsertKeeps | apps/control-plane/src/modules/backup/backup.service.ts:264-284 | an upsert that succeeds leaves every key, reference and uniqueness constraint in force |
| Database.DeleteKeeps | apps/control-plane/migrations/0001_init.sql:42-330 | so does deleting a whole table, with cascades and SET NULL |
| Backup.ConflictIsKey | apps/control-plane/src/modules/backup/backup.service.ts:178-195 | each table's conflict target, split and trimmed, is its primary key |
| Backup.BackupOrder | apps/control-plane/src/modules/backup/backup.service.ts:7-24 | `BACKUP_TABLES` is a topological order of the foreign keys |
| Backup.BackedUp | apps/control-plane/src/modules/backup/backup.service.ts:7-24 | of all tables of the panel exactly sessions, logs and login attempts, traffic samples, health checks, resources, notifications and the list of backups are left out |
| Backup.RestoreKeeps | apps/control-plane/src/modules/backup/backup.service.ts:218-292 | whatever the payload, and also when an error stops it half way, a restore leaves every constraint in force |
| Backup.WipeEmpties | apps/control-plane/src/modules/backup/backup.service.ts:230-236 | the wipe is never refused, empties its tables and leaves roles, permissions and grants alone |
| Backup.WipedByName | apps/control-plane/src/modules/backup/backup.service.ts:230-236 | a wipe empties every backed-up table but `roles`, `permissions` and `role_permissions`, which stay as they are |
| Backup.ChunksAreOne | apps/control-plane/src/modules/backup/backup.service.ts:262-288 | chunks that all go through amount to one batch of the rows that have columns |
| Backup.ErrorKeepsForties | apps/control-plane/src/modules/backup/backup.service.ts:262-288 | an error keeps the chunks of forty before the one in which it happened, and nothing of that one |
| Backup.TableRestored | apps/control-plane/src/modules/backup/backup.service.ts:238-289 | one table's chunked upserts make it the original one, or fail, if and only if a row still to be written holds, as it stands, a unique value of the one being written |
| Backup.RestoresIff | apps/control-plane/src/modules/backup/backup.service.ts:218-292 | a full backup restored with a wipe onto any later database succeeds and gives back every table if and only if roles, permissions and grants had nothing added to them and none of their rows is blocked by one still to be written, in the order in which they were read; it then reports every row |
| Backup.FullRestore | apps/control-plane/src/modules/backup/backup.service.ts:218-292 | in particular when no role, permission or grant was added or renamed, whatever happened to the other tables |
| Backup.AddedRolesStay | apps/control-plane/src/modules/backup/backup.service.ts:233 | a role, permission or grant added later survives every restore that succeeds |
| Backup.SafeRestore | apps/control-plane/src/modules/backup/backup.service.ts:44-292 | a backup without secrets restored without a wipe onto its own database succeeds and changes nothing |
| Backup.NoSecretShown | apps/control-plane/src/modules/backup/backup.service.ts:27-71 | every row in a backup without secrets is a row of its table without its secret columns, and none is a secret setting |
| Backup.RestShown | apps/control-plane/src/modules/backup/backup.service.ts:57-71 | every row that is no secret setting is in it, with every other column |
| Backup.SkippedIff | apps/control-plane/src/modules/backup/backup.service.ts:238-260 | a restore skips exactly the tables without rows, and admins, users and subscriptions whose first row lacks a column that they cannot be without |
| Backup.NeverWritten | apps/control-plane/src/modules/backup/backup.service.ts:238-260 | a backup without secrets never writes admins, users and subscriptions, and says so |
| BackupService.Store.CreateBackupPayload | apps/control-plane/src/modules/backup/backup.service.ts:44-82 | every table listed whole, each row once; without secrets every row that is not secret once, without its secret columns |
| BackupService.WithoutSecrets | apps/control-plane/src/modules/backup/backup.service.ts:57-71 | the redacted copies of exactly the rows that are not secret, each once and in the order of the rows |
| BackupService.Store.Wipe | apps/control-plane/src/modules/backup/backup.service.ts:230-236 | the deletes in reverse order |
| BackupService.Store.RestoreRows | apps/control-plane/src/modules/backup/backup.service.ts:262-288 | the chunk loop, its count, and where an error leaves it |
| BackupService.Store.RestoreBackup | apps/control-plane/src/modules/backup/backup.service.ts:218-292 | the whole restore: database and report, or the error |

## Left out

- YAML objects with entries that are `undefined`, non-finite numbers, and the rest of the Clash document around the rules. Keys are strings: one that YAML reads as a number, truth value or null counts as not given back.
- The YAML reader knows compact block collections only: no flow collections besides `[]` and `{}`, no anchors, tags, comments, multi-line scalars or double quotes.
- `toUpperCase`, `toLowerCase` outside ASCII; texts are sequences of Unicode characters, so that lone surrogates do not occur.
- Base32.Base32Decode: does not model characters whose upper case is several characters, because only ASCII case is modelled.
- `Number` of a prefix text is a parameter; where it matters it is only known to read decimal digits.
- Clash.FaithfulIff: rule and line are compared on hosts that are trimmed, in lower case and without a final dot, with addresses as RFC 4291 writes them; hosts in its third form, with a dotted end, are not compared.
- Clash.MeaningPreserved: the reference reader compares domain rules with the text of every host, also of an address, as the engine does; a client that skips them for addresses is not modelled. Rules for geoip and geosite are left to the client and excluded.
- YamlRoundTrip.WordsQuoted: says nothing about numbers of YAML 1.1 that YAML 1.2 does not have, such as sexagesimal ones.
- The caches' handlers are atomic: a request between a KV delete and the database update is not modelled, nor is KV's eventual consistency. Restore is no step of the cache machines.
- The allowlist cache compares expiry times as numbers where the hourly job compares their texts, which agree for UTC texts of whole seconds; columns that no verdict depends on, traffic samples, tags, nodes and subscriptions are not modelled, and priming takes any rows where the code takes the latest thousand.
- Session rows join their role by name; the role table itself, tokens under 20 characters and the hash of a token are not modelled.
- Storing and loading backups in R2, encryption and JSON; default values and types of columns are parameters of the schema.
- The clean-up of old login attempts, audit rows, and the handlers' responses besides their kind.
- HealthPool.Conserved: models the workers as a transition system over values; the promise queue that schedules them and the `running` flag are not modelled. Concurrency that is no whole number is left out.
- Floating-point rounding: weights, latencies and random numbers are real numbers.
- The limiter's `/reset`, and limits that are no whole numbers.
- The web application, routing and middleware, cookies, Cloudflare and Telegram calls, cryptography, Zod schemas, row mappers, translations, unit formatting and name templates: no deep property, or easy members only.
