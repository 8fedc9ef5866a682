# IP authorization: allow-list engine

A verified Dafny model of the engine behind the IP allow-list of the admin
panel. Allowed addresses live in two places that the service keeps in step:

- a local SQLite table `allowed_ips`, with an in-memory snapshot sorted by
  `created_at`;
- a remote Cloudflare rules list.

The model covers five parts:

- **`IpMatcher`** (`ipmatch.dfy`): address and CIDR validation, and
  matching a candidate against an entry (`validateIpFormat`, `matchIp`,
  `matchIPv4`, `matchIPv6`, `createIPv6Mask`).
- **`LocalStore`** (`localstore.dfy`): the SQLite statements the service
  issues, as a `Database` class.
  - It holds the row map and the config map.
  - A transaction is a saved copy of the rows, restored on rollback.
  - A scripted sequence of write faults decides which statement on
    `allowed_ips` fails.
- **`CloudflareRulesList`** (`cloudflare.dfy`): the rules-list client.
  - List-id resolution, cursor pagination, the items cache and lookup by
    address.
  - Add, update, delete and upsert.
  - Response decoding.
  - The HTTP transport is a `Transport` object that answers each request
    with the next reply of a script.
- **`Auth`** (`authservice.dfy`): the `AuthService` coordinator.
  - Bootstrap of an empty table: seed from the remote list, then the two
    loopback defaults.
  - Settings clamps.
  - `addAllowedIp`, `removeAllowedIp`, `updateIpEntry` and
    `renameAllowedIp`, with their transaction, rollback and compensation
    order.
- **`Admin`** (`admin.dfy`): three parts of the admin page.
  - The search filter and pagination of the `get_ips` handler.
  - The page-window helper `buildPages` of its script.
  - `gotoPage`, as a `Pager` class over the script's state.

`wrappers.dfy` holds the `Option`, `Result`, `Status` and exception types.
`php.dfy` holds the PHP string and number conversions the model uses:
`(int)` casts, `intval`, integer-to-string and `trim`.

Conventions:
- **Address parsing.** It is a parameter of type `Parser`: an arbitrary
  function from strings to addresses. It stands for `filter_var`, `ip2long`
  and `inet_pton`.
- **Timestamps.** The current time is a `now` string parameter. Timestamps
  are opaque strings, ordered as SQLite's BINARY collation orders them.
- **Settings JSON.** `json_decode` of the settings text is a `decode`
  parameter.
- **Transport.** The remote API is the `Transport`'s reply script. Each
  request consumes one reply and is appended to its `sent` log.

## Model

| member | source | states |
|---|---|---|
| IpMatcher.BeforeSlash | AuthService.php:513 | the subnet part of `explode('/')` holds no slash and is a prefix of the entry |
| IpMatcher.SplitJoin | AuthService.php:513-514 | splitting `a/b` at the first slash gives back `a` and `b` when `a` has no slash |
| IpMatcher.ClearLowKeepsHigh | AuthService.php:531-532 | the arithmetic stand-in for the mask, `x - x mod 2^k`, is the multiple of 2^k with the same quotient by 2^k as x |
| IpMatcher.ClearLowComparesHigh | AuthService.php:531-532 | two values agree under the arithmetic stand-in for the mask exactly when their quotients by 2^k agree |
| IpMatcher.MatchIPv4 | AuthService.php:522-533 | computes `matchIPv4`: false unless both strings are IPv4 addresses; a prefix above 32 gives false; otherwise whether the two values agree with their low 32 - n bits cleared |
| IpMatcher.MaskOctetBits | AuthService.php:555-570 | bit j of mask octet i is set exactly when bit position 8i+j lies inside the prefix: n leading ones, then zeros |
| IpMatcher.LeadingOnes8Bits | AuthService.php:563 | the partial octet `str_pad(str_repeat('1', k), 8, '0')` has exactly its first k bits set |
| IpMatcher.MaskOctetFull | AuthService.php:559-561 | every octet wholly inside the prefix is 0xFF |
| IpMatcher.CreateIPv6Mask | AuthService.php:555-570 | the loop builds 16 octets, each the mask octet of the prefix: floor(n/8) full octets, one partial, then zeros |
| IpMatcher.InetPton | AuthService.php:537-538 | the binary form has 4 octets for IPv4 and 16 for IPv6 |
| IpMatcher.CompareMasked | AuthService.php:545-552 | the 16-step byte loop answers true exactly when every masked octet pair is equal, reading missing octets as 0 |
| IpMatcher.MaskedEqualByTable | AuthService.php:539-551 | comparing under the precomputed mask string is comparing under the prefix's mask octets |
| IpMatcher.MatchesIPv6 | AuthService.php:535-553 | computes what `matchIPv6` answers: both strings parse and their 16 octets agree under the prefix's mask octets |
| IpMatcher.MatchIPv6 | AuthService.php:535-553 | false unless both strings parse; otherwise true iff the 16 masked octets agree, whatever the address families |
| IpMatcher.MatchIp | AuthService.php:507-520 | an entry without '/' matches by string equality; otherwise the candidate's family alone picks the IPv4 or IPv6 comparison against the subnet and the `(int)` prefix, a negative prefix counting as 0 |
| IpMatcher.Matches | AuthService.php:507-520 | computes what `matchIp` answers: string equality for an entry without '/', else the IPv4 or IPv6 comparison chosen by the candidate's family |
| IpMatcher.ValidateIpFormat | AuthService.php:572-587 | computes `validateIpFormat`: a parsable address, or `a/n` with a parsable a and a digit string n at most 128 for IPv6 and 32 otherwise |
| IpMatcher.CidrValidIff | AuthService.php:572-587 | `addr/n` with a parsable addr is valid exactly when n is at most 32 (IPv4) or 128 (IPv6) |
| IpMatcher.RejectsWithoutSlash | AuthService.php:574-586 | a string that is neither a bare address nor holds '/' is rejected |
| IpMatcher.RejectsPrefix33 | AuthService.php:578-584 | `10.0.0.1/33` is rejected |
| IpMatcher.ValidEntryPrefixInRange | AuthService.php:513-514 | for a valid CIDR entry, the subnet parses and the prefix `matchIp` reads is the validated number, within the family's range |
| IpMatcher.CidrParts | AuthService.php:513-514 | `matchIp` reads back the subnet and prefix of `a/n` |
| IpMatcher.ExactEntryMatchesOnlyItself | AuthService.php:509-511 | an entry without '/' matches a candidate iff the two strings are equal |
| IpMatcher.MatchIPv4Meaning | AuthService.php:522-533 | for two IPv4 addresses and a prefix of at most 32, `matchIPv4` holds iff their first n bits agree |
| IpMatcher.V4CidrMeaning | AuthService.php:516-532 | an IPv4 candidate matches an IPv4 `a/n` iff both agree in their first n bits (RFC 4632 prefix semantics) |
| IpMatcher.V4HostAndZeroPrefix | AuthService.php:522-532 | an IPv4 address matches `a/32` exactly when it is a, and matches every `a/0` |
| IpMatcher.V4CandidateNeverMatchesV6Subnet | AuthService.php:516-529 | an IPv4 candidate never matches an IPv6 subnet, since `ip2long` of the subnet fails |
| IpMatcher.MaskedOctetPrefix | AuthService.php:545-570 | one octet of two addresses agrees under the prefix-n mask exactly when the two agree on every bit of it whose position 8i+j lies inside the prefix |
| IpMatcher.MaskedEqualPrefixBits | AuthService.php:535-570 | the 16-octet masked comparison holds exactly when the two addresses agree on their first n bits |
| IpMatcher.V6CidrMeaning | AuthService.php:507-570 | an IPv6 candidate matches an IPv6 `a/n` iff both agree in their first n of 128 bits (RFC 4291 prefix semantics) |
| IpMatcher.EntryParts | AuthService.php:513-514 | `a/d` with no further slash has subnet a and prefix `(int)d`, or 0 when that is negative |
| IpMatcher.SpacedAndSignedPrefixes | AuthService.php:507-520 | a prefix written with a leading space or a plus sign matches what the plain numeral matches; one written with a minus sign matches what `/0` matches |
| IpMatcher.V6HostAndZeroPrefix | AuthService.php:535-570 | an IPv6 address matches `a/128` exactly when it is a, and matches every IPv6 `a/0` |
| IpMatcher.V6CandidateAgainstV4Subnet | AuthService.php:535-551 | an IPv6 candidate whose first 4 octets equal an IPv4 subnet's matches every `a/n` of it: the missing octets read as 0 |
| IpMatcher.UnspecifiedV6MatchesV4ZeroPrefix | AuthService.php:516-551 | `::` matches `0.0.0.0/0` |
| IpMatcher.V4BoundaryInside | AuthService.php:522-532 | 192.168.1.255 matches 192.168.1.0/24 |
| IpMatcher.V4BoundaryOutside | AuthService.php:522-532 | 192.168.2.0 does not match 192.168.1.0/24 |
| PhpText.LeadingDigits | AuthService.php:514 | the digits `(int)` reads are all digits and a prefix of the text |
| PhpText.NatToString | HttpClient.php:323 | the decimal form of a number is a non-empty digit string |
| PhpText.NatToStringValue | AuthService.php:514 | reading a decimal numeral back gives the number |
| PhpText.LeadingDigitsOfDigits | AuthService.php:514 | `(int)` of a digit string reads the whole string |
| PhpText.SkipSpaces | admin.php:214-215 | the whitespace `intval` skips is a prefix: what remains is a suffix of the input |
| PhpText.IntToStringRoundTrip | admin.php:214 | `intval` of the decimal form of any integer, negative ones included, gives it back |
| PhpText.DigitsIntCast | AuthService.php:514 | `(int)` of a digit string is its value |
| PhpText.SpacedDigitsCast | AuthService.php:514 | `(int)` skips a leading space |
| PhpText.PlusDigitsCast | AuthService.php:514 | `(int)` reads a plus sign as a positive number |
| PhpText.MinusDigitsCast | AuthService.php:514 | `(int)` reads a minus sign as the negated value |
| PhpText.NumeralCast | AuthService.php:514 | `(int)` of the decimal form of a natural number gives it back |
| PhpText.Trim | admin.php:205 | the trimmed text is a piece `s[i..j]` of the input, everything before i and from j on is a character `trim` strips, and the piece neither starts nor ends with one |
| LocalStore.LexLeTotal | AuthService.php:357 | the `created_at` order is total |
| LocalStore.LexLeRefl | AuthService.php:357 | the `created_at` order is reflexive |
| LocalStore.LexLeTrans | AuthService.php:357 | the `created_at` order is transitive |
| LocalStore.IpsOfAppend | AuthService.php:356-358 | the keys of a snapshot grow by the key of each fetched row |
| LocalStore.SnapshotSize | AuthService.php:356-358 | a snapshot has one entry per row of the table |
| LocalStore.DistinctKeys | AuthService.php:356-358 | entries with pairwise distinct keys have as many keys as entries |
| LocalStore.SnapshotHasKey | AuthService.php:497-505 | a key is in the table exactly when some snapshot entry has it |
| LocalStore.SelectingStep | AuthService.php:357 | appending the row with the least `created_at` keeps the selection sorted, duplicate-free and faithful to the table |
| LocalStore.Database.BeginTransaction | AuthService.php:98 | begins (saving the rows) exactly when no transaction is open; otherwise raises and changes nothing |
| LocalStore.Database.Commit | AuthService.php:122 | ends the transaction keeping the rows |
| LocalStore.Database.RollBack | AuthService.php:114 | restores the rows saved at begin and ends the transaction |
| LocalStore.Database.Insert | AuthService.php:101-111 | adds the row exactly when the statement does not fail and the key is free; otherwise nothing changes |
| LocalStore.Database.InsertOrIgnore | AuthService.php:388-398 | adds the row unless the key is taken; raises, changing nothing, only when the statement fails |
| LocalStore.Database.Delete | AuthService.php:142-145 | removes the key and reports 1 if it was present, 0 otherwise; a failing statement changes nothing |
| LocalStore.Database.Update | AuthService.php:185-197 | sets description and `updated_at` of a present key, keeping `created_at`, and reports the row count |
| LocalStore.Database.SelectAll | AuthService.php:356-358 | the result is the table sorted by `created_at`, one entry per row |
| LocalStore.Database.EarliestKey | AuthService.php:357 | the loop finds a key of the set with the least `created_at` |
| LocalStore.Database.SelectConfig | AuthService.php:450-453 | the stored value, or None when the key is absent |
| LocalStore.Database.UpdateConfig | AuthService.php:459-460 | overwrites an existing key and reports 1, or reports 0 and changes nothing |
| LocalStore.Database.InsertConfig | AuthService.php:464-465 | adds a key that is absent |
| CloudflareRulesList.Values | CloudflareRulesListClient.php:172 | the values of an array, one per entry |
| CloudflareRulesList.ValuesAppend | CloudflareRulesListClient.php:172 | appending an entry appends its value |
| CloudflareRulesList.MergeListHead | CloudflareRulesListClient.php:172 | `array_merge` of a list appends its first item after the accumulated values |
| CloudflareRulesList.MergeListValues | CloudflareRulesListClient.php:172 | `array_merge` with a list appends the list's values in order |
| CloudflareRulesList.ArrayMerge | CloudflareRulesListClient.php:172 | computes `array_merge`: integer-keyed entries of the second array are appended under fresh keys; a string key overwrites its entry in place, or is appended when absent |
| CloudflareRulesList.Transported | HttpClient.php:295-327 | computes what the HTTP call returns for the next reply: its body, or an exception when no reply is left, the server is unreachable or the status is 400 or more |
| CloudflareRulesList.DecodeResponse | CloudflareRulesListClient.php:64-84 | succeeds exactly on an array whose `success` is `true`, returning it unchanged; otherwise a RuntimeException |
| CloudflareRulesList.DecodeFailureMessage | CloudflareRulesListClient.php:71-80 | the failure message is "Cloudflare API request failed", plus ": " and `errors[0].message` when that is set |
| CloudflareRulesList.RequestStep | CloudflareRulesListClient.php:86-111 | computes `request`: a DELETE is an Error before anything is sent; otherwise one reply is consumed, the call is logged and the decoded body or the exception is the answer |
| CloudflareRulesList.GetListsStep | CloudflareRulesListClient.php:142-147 | computes `getLists`: the `result` of the lists request, [] when absent, and a TypeError when it is not an array |
| CloudflareRulesList.EnsureListIdStep | CloudflareRulesListClient.php:113-140 | computes `ensureListId`: the stored id, else the id of the first list with the configured name, else that of the first list, with the three errors of the source |
| CloudflareRulesList.RequestSucceeded | CloudflareRulesListClient.php:86-111 | a request that succeeds is not a DELETE, consumed one response whose body it returns, and logged the call |
| CloudflareRulesList.DeleteRequestAlwaysFails | CloudflareRulesListClient.php:104-105 | a DELETE request fails (undefined `send`) before anything is sent |
| CloudflareRulesList.FirstNamedIdMeaning | CloudflareRulesListClient.php:124-130 | the name search finds nothing iff no list has that name and an id; otherwise it finds the id of the first such list |
| CloudflareRulesList.ConfiguredListIdNoRequest | CloudflareRulesListClient.php:115-117 | a configured list id is returned with no request |
| CloudflareRulesList.ResolvedListIdSticks | CloudflareRulesListClient.php:113-140 | resolution keeps the cache, stores the resolved id, keeps the id on failure, and a second resolution is answered from the stored id |
| CloudflareRulesList.GetListsKeepsFields | CloudflareRulesListClient.php:142-147 | fetching the lists changes neither the list id nor the cache |
| CloudflareRulesList.NoListsIsError | CloudflareRulesListClient.php:119-122 | an account without lists is the error "Cloudflare account has no rules lists" |
| CloudflareRulesList.UnknownNameIsError | CloudflareRulesListClient.php:124-131 | a name no list carries is the error "Cloudflare rules list not found by name: " + name |
| CloudflareRulesList.NamedListResolution | CloudflareRulesListClient.php:124-129 | with a name filter, the resolved id is that of the first list with exactly that name |
| CloudflareRulesList.FetchPages | CloudflareRulesListClient.php:158-180 | computes the `while (true)` loop of `listItems`: one page request per cursor, merging each array `result`, until the `after` cursor is empty |
| CloudflareRulesList.ListItemsStep | CloudflareRulesListClient.php:149-184 | computes `listItems`: the cache when asked for and set; otherwise the resolved list's pages, stored as the new cache |
| CloudflareRulesList.FetchPagesStep | CloudflareRulesListClient.php:161-180 | each page request consumes one response, merges its result, and stops exactly when the `after` cursor is empty |
| CloudflareRulesList.FetchPagesConsumes | CloudflareRulesListClient.php:161-180 | a successful listing consumed a non-empty prefix of the replies |
| CloudflareRulesList.FetchPagesSends | CloudflareRulesListClient.php:162-169 | the requests logged are the page requests, each with `per_page` 1000 and the previous page's cursor |
| CloudflareRulesList.FetchPagesStops | CloudflareRulesListClient.php:175-178 | every consumed page but the last had a non-empty cursor; the last had an empty one |
| CloudflareRulesList.FetchPagesConcat | CloudflareRulesListClient.php:169-173 | the items returned are the concatenation, in order, of every page's `result` |
| CloudflareRulesList.FetchPagesMerges | CloudflareRulesListClient.php:169-173 | the result is the `array_merge` of the consumed pages in order |
| CloudflareRulesList.ListPagesPrefix | CloudflareRulesListClient.php:170-172 | a prefix of pages that all carry list results still carries list results |
| CloudflareRulesList.MergeAllValues | CloudflareRulesListClient.php:170-172 | merging pages of list results concatenates their items |
| CloudflareRulesList.MergePageValues | CloudflareRulesListClient.php:170-172 | merging one page of list results appends its items |
| CloudflareRulesList.CachedListingNoRequest | CloudflareRulesListClient.php:151-153 | with the cache set and `useCache`, the cache is returned with no request |
| CloudflareRulesList.ListingSetsCache | CloudflareRulesListClient.php:149-184 | a successful listing leaves the cache equal to its result; a failed one leaves the cache as it was |
| CloudflareRulesList.FetchPagesKeepsFields | CloudflareRulesListClient.php:161-180 | the page loop changes neither the list id nor the cache |
| CloudflareRulesList.FirstMatchMeaning | CloudflareRulesListClient.php:189-195 | the scan finds nothing iff no item has the address (`ip ?? value`); otherwise the first item that has it |
| CloudflareRulesList.FindMeaning | CloudflareRulesListClient.php:186-196 | lookup lists with the cache and returns the first item with the address, or null when none has it |
| CloudflareRulesList.FindStep | CloudflareRulesListClient.php:186-196 | computes `findItemByIp`: list with the cache and take the first item whose `ip ?? value` is the address |
| CloudflareRulesList.MutateStep | CloudflareRulesListClient.php:211-223 | computes the mutation tail: resolve the list id, send `{"items": [fields]}`, then drop the cache |
| CloudflareRulesList.AddStep | CloudflareRulesListClient.php:209-224 | computes `addItem`: a POST of the address and comment |
| CloudflareRulesList.DeleteStep | CloudflareRulesListClient.php:226-248 | computes `deleteItemByIp`: look the address up; nothing to do when absent or without an id; otherwise a DELETE of the id |
| CloudflareRulesList.UpdateStep | CloudflareRulesListClient.php:250-276 | computes `updateItemComment`: add when absent, nothing when the item has no id, otherwise a PUT of id and comment |
| CloudflareRulesList.UpsertStep | CloudflareRulesListClient.php:198-207 | computes `upsertItem`: add when the lookup finds nothing, otherwise update the comment |
| CloudflareRulesList.MutationCache | CloudflareRulesListClient.php:214-223 | a mutation that succeeds drops the cache; one that throws leaves it as it was |
| CloudflareRulesList.DeleteSucceedsOnlyAsNoOp | CloudflareRulesListClient.php:226-248 | a delete succeeds exactly when the lookup finds the item absent or with an empty id; it then sends nothing beyond the lookup and keeps the lookup's state |
| CloudflareRulesList.FindNamedList | CloudflareRulesListClient.php:125-130 | the loop returns the id of the first list with that name and an id |
| CloudflareRulesList.FindIp | CloudflareRulesListClient.php:189-195 | the loop returns the first item with the address, or none |
| CloudflareRulesList.Transport.Perform | HttpClient.php:295-327 | consumes one reply and logs the call; an unreachable server or a status of 400 or more throws |
| CloudflareRulesList.Client.constructor | CloudflareRulesListClient.php:17-29 | the list id is the configured one and the items cache starts unset |
| CloudflareRulesList.Client.Request | CloudflareRulesListClient.php:86-111 | performs exactly the request step on the client's state |
| CloudflareRulesList.Client.GetLists | CloudflareRulesListClient.php:142-147 | performs exactly the `getLists` step |
| CloudflareRulesList.Client.AssignId | CloudflareRulesListClient.php:127-128 | stores the found id as the list id, as a string |
| CloudflareRulesList.Client.EnsureListId | CloudflareRulesListClient.php:113-140 | performs exactly the `ensureListId` step |
| CloudflareRulesList.Client.ListItems | CloudflareRulesListClient.php:149-184 | performs exactly the `listItems` step, its `while (true)` loop included |
| CloudflareRulesList.Client.FindItemByIp | CloudflareRulesListClient.php:186-196 | performs exactly the `findItemByIp` step |
| CloudflareRulesList.Client.Mutate | CloudflareRulesListClient.php:211-223 | performs exactly the shared mutation tail: resolve, send, drop the cache |
| CloudflareRulesList.Client.AddItem | CloudflareRulesListClient.php:209-224 | performs exactly the `addItem` step |
| CloudflareRulesList.Client.DeleteItemByIp | CloudflareRulesListClient.php:226-248 | performs exactly the `deleteItemByIp` step |
| CloudflareRulesList.Client.UpdateItemComment | CloudflareRulesListClient.php:250-276 | performs exactly the `updateItemComment` step, falling back to add when absent |
| CloudflareRulesList.Client.UpsertItem | CloudflareRulesListClient.php:198-207 | performs exactly the `upsertItem` step: add when absent, update otherwise |
| Auth.DefaultsExactly | AuthService.php:434-444 | on an empty table with no faults, exactly 127.0.0.1 and ::1 are inserted with their descriptions; a first failing insert stops the bootstrap |
| Auth.InsertRow | AuthService.php:379-399 | computes `insertAllowedIpRow` once its timestamps are set: skip an invalid address; otherwise an insert-or-ignore that the fault script may fail |
| Auth.Seeded | AuthService.php:419-431 | computes the loop of `initializeFromCloudflare`: skip items without a non-empty string address, insert the rest stamped `now`, stop at the first failing statement |
| Auth.Bootstrap | AuthService.php:364-376 | computes what an empty table receives: the seeded remote items when the listing is non-empty, then the two defaults if it is still empty |
| Auth.BootstrapNonEmpty | AuthService.php:354-377 | a bootstrap that completes leaves the table non-empty |
| Auth.BootstrapWithoutListing | AuthService.php:364-376 | without remote items and without faults, the table ends with exactly the two loopback rows |
| Auth.SeededKeepsRows | AuthService.php:419-431 | seeding never changes a row already present (insert or ignore) |
| Auth.SeededRowsFromItems | AuthService.php:419-431 | every seeded row is a valid address taken from some item's `ip ?? value`, stamped with `now` |
| Auth.SeededComplete | AuthService.php:419-431 | without faults, seeding completes and every item with a valid string address is in the table |
| Auth.OnlyBareAddressesAllowed | AuthService.php:72-76 | a CIDR string or any non-address is never allowed |
| Auth.ListedAddressAllowed | AuthService.php:72-84 | an address that is itself an entry is allowed |
| Auth.FirstEntryMeaning | AuthService.php:231-237 | the scan finds nothing iff no entry has the key; otherwise the first entry with it |
| Auth.SessionTimeout | AuthService.php:481-486 | the session timeout is within [300, 86400] |
| Auth.DefaultPerPage | AuthService.php:488-493 | the default page size is within [1, 100] |
| Auth.SettingsDefaults | AuthService.php:481-493 | a missing setting gives 1800 and 10; an integer already in range is kept |
| Auth.FreshSettings | AuthService.php:57-67 | the settings a fresh database stores give 86400 and 10 |
| Auth.SnapshotEmpty | AuthService.php:360 | the snapshot is empty exactly when the table is |
| Auth.RemotePhase | AuthService.php:243-261 | computes the remote phase of a rename: record whether the new address was listed, upsert it, delete the old one when they differ, and on failure delete the new one unless it was listed |
| Auth.Restored | AuthService.php:290-298 | computes the best-effort restore: delete the new address unless it was listed before, then upsert the old one with its old description, stopping silently at the first error |
| Auth.RemotePhaseUpsertFailure | AuthService.php:246-259 | a failing remote upsert of the new address is the error the rename rethrows |
| Auth.RemotePhaseKeepsListedNew | AuthService.php:244-259 | when the new address was already listed remotely, a failing remote phase is not compensated by deleting it |
| Auth.AuthService.IsIpAllowed | AuthService.php:72-84 | true iff the candidate is a bare address and some snapshot entry matches it |
| Auth.AuthService.IpEntryExists | AuthService.php:497-505 | true iff some snapshot entry has exactly that key |
| Auth.AuthService.FindEntry | AuthService.php:231-237 | the first snapshot entry with the key, or none |
| Auth.AuthService.GetConfig | AuthService.php:448-454 | the stored value, or null when the key is absent |
| Auth.AuthService.SetConfig | AuthService.php:456-467 | after the update-then-insert, the key holds the value whether or not it existed |
| Auth.AuthService.InitSchema | AuthService.php:38-68 | the password hash and the default settings are stored unless already present |
| Auth.AuthService.GetSessionTimeout | AuthService.php:481-486 | the clamped timeout of the stored settings |
| Auth.AuthService.GetDefaultPerPage | AuthService.php:488-493 | the clamped page size of the stored settings |
| Auth.AuthService.InsertAllowedIpRow | AuthService.php:379-399 | skips an invalid address; otherwise one insert-or-ignore, `created_at` defaulting to now and `updated_at` to `created_at` |
| Auth.AuthService.InitializeFromCloudflare | AuthService.php:401-432 | lists the remote items without the cache, swallowing errors, and seeds the table from a non-empty result |
| Auth.AuthService.InitializeDefaultIps | AuthService.php:434-444 | inserts the two loopback defaults |
| Auth.AuthService.LoadAllowedIps | AuthService.php:354-377 | a non-empty table is only re-read; an empty one is bootstrapped; a completed load leaves the snapshot sorted, equal to a non-empty table |
| Auth.AuthService.BootstrapTable | AuthService.php:364-376 | seeds from the remote listing, then the defaults, re-reading the table after each |
| Auth.AuthService.Open | AuthService.php:20-35 | the schema's config rows are in place; a non-empty table is kept as it is with the remote untouched, an empty one ends as the bootstrap from an uncached remote listing; a completed load leaves a sorted snapshot of a non-empty table, and a failed one an empty snapshot |
| Auth.AuthService.CommitAndReload | AuthService.php:122-123 | commits and re-reads the table into the snapshot, leaving the rows and the remote list untouched |
| Auth.AuthService.AddAllowedIp | AuthService.php:86-131 | the invalid-format error before any change; false for an existing key; a local row only when the remote upsert succeeded, otherwise rollback and rethrow |
| Auth.AuthService.AddTwice | AuthService.php:86-131 | adding an address twice yields true, then false |
| Auth.AuthService.RemoveAllowedIp | AuthService.php:133-163 | false for an absent key; a failing remote delete restores the row and rethrows; success removes the key from table and snapshot while other rows remain; when the last row goes, the table is the bootstrap's; every success leaves a sorted snapshot of a non-empty table |
| Auth.AuthService.UpdateIpEntry | AuthService.php:176-215 | false without a description or for an absent key; otherwise new description and `updated_at`, kept only when the remote update succeeded |
| Auth.AuthService.RenameRemote | AuthService.php:243-261 | the remote phase: capture `newItemExisted`, upsert the new address, delete the old one, compensate on failure |
| Auth.AuthService.RestoreRemote | AuthService.php:290-298 | the best-effort restore: delete the new address unless it pre-existed, re-add the old one, swallow errors |
| Auth.AuthService.RenameLocal | AuthService.php:263-351 | the local phase: same address updates in place; a different address moves the row, keeping `created_at`; any local failure rolls back and restores the remote |
| Auth.AuthService.RenameChecked | AuthService.php:241-351 | the remote phase followed by the local phase: a remote failure leaves the table untouched; a local failure keeps the table and returns false exactly when the original row was gone (row count 0), and otherwise throws |
| Auth.AuthService.RenameAllowedIp | AuthService.php:217-352 | invalid target throws; missing source or taken target gives false; otherwise as the two phases, a local failure returning false exactly when the original row was gone and throwing otherwise, and a successful rename carries `created_at` forward |
| Admin.LowerAll | admin.php:208-209 | lower-casing keeps the length and folds each character |
| Admin.Filter | admin.php:207-210 | the filtered list is no longer than the input |
| Admin.FilterAppend | admin.php:207-210 | the filter works entry by entry: it distributes over concatenation, so order is kept |
| Admin.FilterMembers | admin.php:207-210 | an entry survives exactly when it is in the input and its `ip` or `description` holds the search case-insensitively |
| Admin.FilterEmptyNeedle | admin.php:206-210 | filtering by the empty text keeps every entry |
| Admin.Searched | admin.php:204-211 | computes the search step: trim the search text and filter by it unless it is empty or "0" |
| Admin.CeilDiv | admin.php:217 | for a positive page size, the page count is the least whole number of pages holding the total |
| Admin.ArraySlice | admin.php:221 | for non-negative offset and length, the slice is the run from the offset, at most length long |
| Admin.Paginate | admin.php:213-232 | computes the pagination: a division-by-zero Error for page size 0, otherwise the clamped page, its slice and the pagination fields |
| Admin.GetIPs | admin.php:198-237 | computes `handleGetIPs` on the stored entries: search, then paginate with the `intval` of page (default 1) and page size (default 10) |
| Admin.PaginateShape | admin.php:213-232 | total is the filtered count; pages = ceil(total / size); page clamped into [1, max(1, pages)]; slice from (page-1)*size, at most size; has_prev/has_next as stated |
| Admin.ZeroPageSize | admin.php:215-217 | a page size of 0 is a division-by-zero Error, not an Exception the handler catches |
| Admin.EveryEntryOnItsPage | admin.php:205-224 | every filtered entry k is shown at position k mod size of page k div size + 1 |
| Admin.EntryOnPage | admin.php:217-221 | each index of a list lies on its page at its offset |
| Admin.EntryPageNumber | admin.php:217-218 | the page number of an index is a page, so the clamp keeps it |
| Admin.EntryPageSlice | admin.php:220-221 | the page of an index starts at the index minus its offset |
| Admin.QuotientBelowPages | admin.php:217 | an index below the total lies before the last page |
| Admin.Range | admin.php:881-883 | `Array.from` yields the consecutive run from start to end, empty when the length is negative |
| Admin.BuildPages | admin.php:876-884 | computes `buildPages`: a window of at most max pages starting half a window before current, moved left when it would run past total |
| Admin.BuildPagesWindow | admin.php:876-884 | the window is a consecutive ascending run inside [1, total], min(max, total) long, holding current whenever it is a page |
| Admin.GotoTarget | admin.php:1050-1051 | the target lies in [1, totalPages or 1] and is p itself when p is a page |
| Admin.GotoIdempotent | admin.php:1050-1052 | going to the page just reached changes nothing |
| Admin.Pager.GotoPage | admin.php:1049-1055 | the page becomes the clamped target; it refreshes once exactly when that differs from the current page |

## Left out

- Auth.AuthService.UpdateIpEntry: the description is a string or absent; a null or non-string `description` is not modelled. PHP stores a null one as NULL in the nullable column. With a remote client, the `string` parameter of `updateItemComment` then raises a TypeError for a null or array value (a number or boolean is coerced to its string form, since the files do not declare strict types), after which the update is rolled back and the error rethrown. Entries therefore always carry a string description here, and the source's `?? ''` guards on it have no case to cover.
- Addresses: the parser is a parameter (`filter_var`, `ip2long` and `inet_pton` are the PHP runtime's). The model relies only on it rejecting strings holding '/' and parsing the two loopback literals. An IPv4 address is its `ip2long` value, an integer in [0, 2^32), and masking is arithmetic `x - x mod 2^k`, not a 32-bit word. That this equals `x & (-1 << k)` for x in [0, 2^32) and k <= 32 is the model's reading of the mask, not a proved fact.
- IpMatcher.ValidateIpFormat: PHP's `is_numeric` also accepts "8.5", "1e1", " 8" and "+8" as the prefix. The model accepts only a non-empty decimal digit string.
- IpMatcher.MatchIp: `(int)` of the prefix is modelled as PHP reads it: leading whitespace, an optional sign, then the leading decimal digits. A negative result counts as 0, which is what both matchers make of it. Not modelled: the exponent form, which PHP reads as a number (`(int)"1e1"` is 10 in PHP and 1 in the model), and saturation at the 64-bit limits.
- IpMatcher.Matches: has the same `(int)` prefix gap as IpMatcher.MatchIp, because its prefix comes from `EntryPrefix`. The exponent form and 64-bit saturation are not modelled.
- IpMatcher.MatchIPv4: a prefix above 32 makes `-1 << (32 - n)` an ArithmeticError in PHP. The model answers false instead; no validated entry has such a prefix.
- JSON values: floats are not modelled, and object keys are taken to be distinct. The integer keys `array_merge` renumbers are counted, not reproduced from PHP's internal counter. `json_encode`, `json_decode` and `http_build_query` are not modelled; the request keeps the query as an array. A decimal object key such as `"5"`, which `json_decode` stores as an integer key (and `array_merge` would then renumber), stays a string key here.
- Transport: the server is a finite reply script; when it runs out, the request fails. The source's `listItems` loop has no bound (`while (true)`): against a server whose `after` cursor never runs out it never returns. `CloudflareRulesList.FetchPages` terminates only because the script is finite. `HttpClient` itself (cURL options, proxies, redirects, async calls, header parsing) is not part of this model. `fromEnv`, `headers` and `buildUrl` (environment variables and URL text) are not modelled.
- Remote deletion: `request` sends DELETE through `HttpClient::send`, which does not exist. So in the model, as in the source, deleting an item that has an id always fails.
  - `removeAllowedIp` of an address listed remotely with an id always rolls back.
  - With a remote client, the remote phase of a rename to a different address fails whenever the old address is listed remotely with an id. It also fails when the upsert of the new address fails. After either failure, the compensation deletes the new address again unless it was listed before. Without a remote client there is no remote phase.
- Database: SQLite is the `Database` class. Only writes to `allowed_ips` fail, as the fault script says; SELECTs and config writes never fail. The `!$ok` branches after `execute` cannot be taken under PDO's exception error mode and are not modelled separately. The schema DDL is not modelled.
- Time: each `date()` is the one `now` parameter of the call, so `initializeDefaultIps` and rename's two `date()` calls read the same clock.
- Auth.AuthService.RemoveAllowedIp: removing the last entry empties the table, and the reload then bootstraps it again, so 127.0.0.1 and ::1 may reappear. "No entry has the key afterwards" is stated only when other rows remain. After removing the last entry, the table is stated as the bootstrap's result, and a success leaves a snapshot of it.
- Auth.AuthService.RenameAllowedIp: the remote phase runs before the transaction begins. A begin that fails afterwards leaves the remote list changed, as in the source. The catch-all compensation after a local exception is modelled for every local step that can throw. The final reload cannot throw, because the table is non-empty after a commit.
- Auth.AuthService.Open: the remote client (`fromEnv`) and the password hash of the default password are parameters; the directory creation and the PDO options are not modelled.
- Not modelled:
  - `getAdminPassword`, `updateAdminPassword`: they rely on `password_hash`, a foreign function;
  - `getAllowedIps`, `saveAllowedIps`: trivial accessors;
  - `login.php`, `captcha.php`;
  - the admin page's HTML, CSS and rendering, `checkAuth`, `jsonResponse` and the request dispatcher.
- Admin.GetIPs:
  - `intval` is modelled for optional whitespace, sign and decimal digits. Exponent forms such as "1e3", and saturation at the 64-bit limits, are not.
  - `ceil` gives a float in PHP; the model keeps its integer value.
  - `stripos` folds ASCII letters in bytes; the model folds ASCII letters in characters.
- Admin.Pager.GotoPage: `refresh()` (the request and the re-rendering) is not modelled; the model counts its calls.
- Concurrency: concurrent requests, and changes to the remote list between a lookup and the write that follows it, are not modelled.
