# OEV searcher: auction window, bid identifiers, waits and quote selection

A Dafny model of the logic inside the OEV searcher starter scripts. The scripts
bid in the OEV auctions of the API3 auction house on the OEV network. They win
the right to push a price update to a dAPI proxy on a target chain, and then
report that update as fulfilled.

The model covers the two scripts' own computations:

- `scripts/submit-bid-update.ts`
  - **AuctionWindow**: `determineSignedDataTimestampCutoff`. Auctions of
    L = 30 seconds sit on a grid shifted by a per-dapp offset. Each opens with a
    B = 25 second bidding phase. When fewer than S = 3 seconds of that phase
    remain, the bidder moves to the next auction. Also the bid expiry,
    `cutoff + L`.
  - **BidIdentifier**: `getBidTopic` (Solidity non-standard packed mode of
    `uint256, uint256, uint32, uint32`) and `getBidDetails` (Solidity contract
    ABI encoding of `(address, bytes32)`). Also the bid id
    `keccak256(bidder || topic || keccak256(details))` and the arguments of
    `reportFulfillment`.
  - **BidPolling**: the two `while (true)` waits. Each is a method that runs
    over a trace of poll observations. The award wait needs status 2 and an
    `AwardedBid` log in the block window [currentBlock - 10, currentBlock]. The
    confirmation wait needs a `ConfirmedFulfillment` log in the same window.
    Below block 10 that window starts at a negative block, which the log
    query refuses. The model counts such a poll as a failed read.
- `scripts/fetch-oevsigneddata.ts`
  - **SignedData**: the per-airnode loop as a method that appends to a
    sequence. The loop keeps the updates that carry the OEV template id and
    takes the latest by `parseInt(timestamp)`. Then come the validity filter,
    the encoding map and the quote. This module also holds the one finding
    below.
  - **Median**: `calculateMedianPrice` over exact reals.
  - **DapiName**: the dAPI-name encoding `toHex(name.padEnd(32, "\0"), { size: 32 })`
    and its hash.
  - **JsStrings**: the JavaScript semantics the filter and the encoding depend
    on: `parseInt`, `BigInt(string)` and `startsWith`.
  - **Bytes**: big-endian words and hex text.

keccak256 is an uninterpreted function `seq<byte> -> Bytes32`, passed as a
parameter. The clock (`now`), the random nonce and every chain or HTTP read are
parameters too.

Two calls in the same auction period need not agree: the cutoff moves one
auction forward once fewer than S seconds of the bidding phase remain
(`scripts/submit-bid-update.ts:164-178`). `AuctionWindow.CutoffStableUntilBuffer`
states the stability the code does have.

## Model

| member | source | states |
|---|---|---|
| AuctionWindow.JsRemainder | scripts/submit-bid-update.ts:159-160 | JavaScript's `%` truncates toward zero: a - r is a multiple of b, -b < r < b, and r takes the sign of a. |
| AuctionWindow.JsRemainderUnique | scripts/submit-bid-update.ts:159-160 | Those three facts fix the remainder: any r meeting them is JavaScript's `%`. |
| AuctionWindow.AuctionOffset | scripts/submit-bid-update.ts:152-156 | The per-dapp offset, keccak256 of the uint256-encoded dapp id modulo L, lies in [0, L). |
| AuctionWindow.ComputeWindow | scripts/submit-bid-update.ts:151-181 | The bidding-phase end is the auction start plus B. The cutoff is that end exactly when at least S seconds remain before it. Otherwise it is exactly one auction length later, and never anything else. |
| AuctionWindow.WindowContainsNow | scripts/submit-bid-update.ts:158-161 | For offset <= now, the auction start satisfies start <= now < start + L and sits on the offset grid, so (start - offset) % L == 0. |
| AuctionWindow.CutoffBounds | scripts/submit-bid-update.ts:159-180 | The cutoff is at least S and less than L + S seconds after now, and (cutoff - offset - B) % L == 0. |
| AuctionWindow.CutoffIsUniqueGridPoint | scripts/submit-bid-update.ts:151-181 | Reference definition: any grid point at least S and less than L + S seconds after now is the computed cutoff. The result depends only on now, the offset and the constants. |
| AuctionWindow.CutoffMonotone | scripts/submit-bid-update.ts:151-181 | A later time never yields an earlier cutoff. |
| AuctionWindow.CutoffStableUntilBuffer | scripts/submit-bid-update.ts:164-178 | A later call gives the same cutoff as long as at least S seconds still remain before the first call's cutoff. |
| AuctionWindow.SignedDataTimestampCutoff | scripts/submit-bid-update.ts:151-181 | The cutoff `placeBid` uses, with the keccak-derived offset. For any now >= L it is at least S and less than L + S seconds ahead, on the offset grid. |
| AuctionWindow.NextBiddingPhaseEnd | scripts/submit-bid-update.ts:327-328 | No contract of its own: the expiry `cutoff + L`. ExpiryFollowsCutoff states where it lies. |
| AuctionWindow.ExpiryFollowsCutoff | scripts/submit-bid-update.ts:327-328 | The expiry `cutoff + L` is on the same grid and after the cutoff, between L + S and 2L + S seconds after now. |
| Bytes.EncodeUint | scripts/submit-bid-update.ts:185-193 | A packed unsigned field of n bytes exists iff 0 <= x < 256^n. It is then n bytes whose big-endian value is x. |
| BidIdentifier.BidTopicPreimage | scripts/submit-bid-update.ts:183-194 | The packed preimage exists iff version and dapp id fit uint256 and auction length and cutoff fit uint32. It is then 72 bytes. |
| BidIdentifier.TopicPreimageLayout | scripts/submit-bid-update.ts:185-193 | Bytes 0-31 are the version, 32-63 the dapp id, 64-67 the auction length and 68-71 the cutoff, each big-endian. |
| BidIdentifier.BidTopic | scripts/submit-bid-update.ts:183-195 | A topic exists iff the auction length and the cutoff fit in uint32. |
| BidIdentifier.TopicPreimageSeparatesCutoffs | scripts/submit-bid-update.ts:183-195 | Equal topic preimages mean equal cutoffs, so distinct auctions get distinct lanes up to a keccak collision. |
| BidIdentifier.BidDetails | scripts/submit-bid-update.ts:197-204 | The details are 64 bytes: 12 zero bytes, the 20-byte beneficiary, then the 32-byte nonce. |
| BidIdentifier.BidDetailsInjective | scripts/submit-bid-update.ts:197-204 | Equal details mean equal beneficiary and nonce, so a fresh nonce gives fresh details. |
| BidIdentifier.BidIdPreimage | scripts/submit-bid-update.ts:363-369 | The bid-id preimage is 84 bytes: bidder (20), topic (32), then the details hash (32). |
| BidIdentifier.BidId | scripts/submit-bid-update.ts:363-369 | No contract of its own: keccak of the bid-id preimage. BidIdPreimageInjective and ReportIdentifiesBid state its properties. |
| BidIdentifier.BidIdPreimageInjective | scripts/submit-bid-update.ts:363-369 | The preimage determines bidder, topic and details hash. |
| BidIdentifier.PlanBid | scripts/submit-bid-update.ts:326-369 | Planning succeeds iff the cutoff fits uint32. The plan then has that cutoff, expiry cutoff + L, the details of beneficiary and nonce, the topic of the cutoff, and id keccak(bidder, topic, keccak(details)). |
| BidIdentifier.ReportFor | scripts/submit-bid-update.ts:265-271 | No contract of its own: the topic, the details hash and the update transaction hash sent to `reportFulfillment`. ReportIdentifiesBid states what they identify. |
| BidIdentifier.ReportIdentifiesBid | scripts/submit-bid-update.ts:265-271 | The topic and details hash sent to `reportFulfillment`, together with the bidder, rebuild exactly the id the bid was placed under. |
| BidIdentifier.PlanSucceedsBefore2106 | scripts/submit-bid-update.ts:326-330 | For any time whose cutoff still fits uint32 (now + 60 < 2^32), planning succeeds. |
| BidPolling.QueryLogs | scripts/submit-bid-update.ts:393-404 | `getLogs` returns exactly the logs of that event in [fromBlock, toBlock] with the given topic and bid id. Its first element is the earliest match in chain order. |
| BidPolling.AwardFromPoll | scripts/submit-bid-update.ts:385-423 | One poll of the award wait yields award details only when the status is 2 and the poll does not fail. It fails on a failed read, or when the status is 2 and the block is below 10, so that `fromBlock` is negative. |
| BidPolling.AwardFromPollMeaning | scripts/submit-bid-update.ts:385-423 | A poll yields award details iff the status is 2, the block is at least 10 and a matching AwardedBid log lies in [block - 10, block]. The details are those of the earliest such log. |
| BidPolling.AwaitAward | scripts/submit-bid-update.ts:371-427 | The wait resolves at the first poll that yields award details, with those details. Every earlier poll leaves it waiting. A failing poll (a failed read, or status 2 below block 10) stops it at that poll. A trace with no such poll leaves it polling. |
| BidPolling.ConfirmationsFromPoll | scripts/submit-bid-update.ts:281-295 | A poll's confirmations are exactly the matching ConfirmedFulfillment logs in [block - 10, block]. A failing poll (a failed read, or a block below 10) has none. |
| BidPolling.AwaitConfirmation | scripts/submit-bid-update.ts:276-306 | The wait resolves at the first poll with a non-empty confirmation list, with that list. Every earlier poll neither failed nor found any. A failing poll (a failed read, or a block below 10) stops it. |
| BidPolling.AwardSeenWithinLookback | scripts/submit-bid-update.ts:388-404 | An awarded poll at block 10 or later, and at most 10 blocks after a matching AwardedBid log, always yields award details. |
| BidPolling.StatusGatesAward | scripts/submit-bid-update.ts:388 | A status other than 2 never yields award details, whatever the logs hold. |
| Median.Sort | scripts/fetch-oevsigneddata.ts:74-76 | The values sorted ascending, as a permutation of the input. |
| Median.SortedUnique | scripts/fetch-oevsigneddata.ts:74-76 | Two ascending sequences with the same elements are equal, so the sort has a single answer. |
| Median.Median | scripts/fetch-oevsigneddata.ts:73-96 | The median of no values is 0. Otherwise it lies between two of the values, so between the minimum and the maximum. |
| Median.MedianOfMiddles | scripts/fetch-oevsigneddata.ts:81-95 | For odd n the median is the sorted value at n/2. For even n it is the mean of the sorted values at n/2-1 and n/2. |
| Median.MedianBetweenMiddles | scripts/fetch-oevsigneddata.ts:81-95 | The median lies between the sorted values at n/2-1 and n/2 (both n/2 for odd n). |
| Median.MedianOfTwo | scripts/fetch-oevsigneddata.ts:81-89 | The median of the prices 10 and 20 is 15. |
| Median.MedianOrderIndependent | scripts/fetch-oevsigneddata.ts:73-96 | Permuting the values does not change the median. |
| Median.MedianSplitsValues | scripts/fetch-oevsigneddata.ts:73-96 | Reference definition: at least half of the values are at most the median and at least half are at least it. |
| JsStrings.ParseInt | scripts/fetch-oevsigneddata.ts:261 | No contract of its own: `parseInt` with white-space skipping, sign, `0x` switch and longest digit run. The lemmas below state what it reads. |
| JsStrings.ParseIntReadsLeadingDigits | scripts/fetch-oevsigneddata.ts:261 | `parseInt` reads a leading run of decimal digits, leading zeros included, and ignores whatever follows it once a non-digit stops the run. Only text opening with `0x` or `0X` is excluded. |
| JsStrings.ParseIntDecimalRoundTrip | scripts/fetch-oevsigneddata.ts:261 | `parseInt` reads back the decimal numeral of every natural number. |
| JsStrings.StringToBigInt | scripts/fetch-oevsigneddata.ts:298 | No contract of its own: `BigInt(string)`, which trims, then reads a whole decimal, signed, or `0x`/`0o`/`0b` literal, and throws otherwise. BigIntDecimalRoundTrip and BigIntOfOneX state what it reads. |
| JsStrings.BigIntDecimalRoundTrip | scripts/fetch-oevsigneddata.ts:298 | `BigInt` reads back the decimal numeral of every natural number. |
| SignedData.OevTemplateId | scripts/fetch-oevsigneddata.ts:64-66 | The OEV template id is 0x-prefixed hex text of a 32-byte hash, 66 characters long. |
| SignedData.OevTemplateIdMatchesHash | scripts/fetch-oevsigneddata.ts:218-220 | Two OEV template id texts are equal iff the hashes are equal. |
| SignedData.FilterMembers | scripts/fetch-oevsigneddata.ts:218-220 | `Array.prototype.filter` keeps an element iff it passes, each as often as in the input. |
| SignedData.RelevantUpdates | scripts/fetch-oevsigneddata.ts:218-220 | The relevant updates are exactly the response entries whose template id equals the OEV template id, each as often as in the response, in response order. |
| SignedData.LatestIndex | scripts/fetch-oevsigneddata.ts:222-226 | The chosen entry's parsed timestamp is at least every parseable timestamp. Every entry before it has an unparseable or strictly smaller timestamp. An entry with an unparseable timestamp is chosen only at index 0, so the first entry is chosen when no timestamp parses. |
| SignedData.LatestRelevant | scripts/fetch-oevsigneddata.ts:222-228 | None iff no entry has the OEV template id. Otherwise an entry of the response with that id whose timestamp is at least that of every matching entry. |
| SignedData.LatestRelevantFirstAmongTies | scripts/fetch-oevsigneddata.ts:222-228 | The sort is stable: the chosen entry sits at a position of the response where every earlier entry with the OEV template id has an unparseable or strictly smaller timestamp. |
| SignedData.DetailOf | scripts/fetch-oevsigneddata.ts:199-246 | An airnode's detail, when there is one, needs its template id and a successful fetch, and carries that airnode and template id. |
| SignedData.DetailOfExists | scripts/fetch-oevsigneddata.ts:199-246 | An airnode contributes a detail iff its template id is present, its fetch succeeds, some entry has the OEV template id, and `BigInt` reads the latest such entry's encoded value. |
| SignedData.DetailIsLatestMatching | scripts/fetch-oevsigneddata.ts:218-244 | A pushed detail carries the airnode and template id it was read for and the OEV template id. It copies the fields of a response entry with that OEV id. Its timestamp is at least that of every matching entry. Its price is `BigInt` of its encoded value over 10^18. |
| SignedData.ReadAirnodeDetail | scripts/fetch-oevsigneddata.ts:205-246 | One iteration's try block yields the detail of the latest matching entry. It yields nothing on a failed fetch, when no entry matches, or when `BigInt` rejects the encoded value. |
| SignedData.CollectPriceDetails | scripts/fetch-oevsigneddata.ts:192-257 | The loop collects, in airnode order, each index's detail and skips indices without a template id. At most one detail per airnode, so at most as many details as airnodes. |
| SignedData.Collected | scripts/fetch-oevsigneddata.ts:192-257 | The details the loop collects, at most one per airnode. |
| SignedData.CollectedFromOutcomes | scripts/fetch-oevsigneddata.ts:195-246 | A detail is collected iff it is the outcome of some airnode index. There are no more of them than airnodes. |
| SignedData.FailedFetchDropsOnlyItsAirnode | scripts/fetch-oevsigneddata.ts:207-256 | Failing one airnode's fetch removes only that index's detail. The details of all other indices stay, in order. |
| SignedData.ValidPriceDetails | scripts/fetch-oevsigneddata.ts:259-286 | The filter keeps no more details than it gets, and only valid ones from its input. |
| SignedData.ValidPriceDetailsKeepsOrder | scripts/fetch-oevsigneddata.ts:259-286 | A detail is kept iff `parseInt(timestamp)` is a number and encoded value and signature start with "0x". Each kept detail keeps its multiplicity, and the kept details are an order-preserving subsequence of the input. |
| SignedData.TimestampWord | scripts/fetch-oevsigneddata.ts:298-304 | A timestamp that encodes is a uint256 (below 2^256). |
| SignedData.TimestampWordOfBigInt | scripts/fetch-oevsigneddata.ts:298-304 | A timestamp `BigInt` reads as v encodes iff 0 <= v < 2^256, and then as v. A negative one such as "-1" does not encode. |
| SignedData.TimestampWordOfDecimal | scripts/fetch-oevsigneddata.ts:298-304 | The decimal text of any uint256 encodes as that number. |
| SignedData.EncodeDetails | scripts/fetch-oevsigneddata.ts:297-309 | The encoding map succeeds iff every detail's timestamp encodes. It then has the same length and order as its input, element by element. On failure it names a detail whose timestamp does not encode. |
| SignedData.QuoteAsWritten | scripts/fetch-oevsigneddata.ts:259-314 | As written: on success the median comes from the valid details and the encoded updates are those same details in the same number and order. A failure names a valid input detail whose timestamp does not encode. |
| SignedData.QuoteAsWrittenFailsOnUnencodable | scripts/fetch-oevsigneddata.ts:259-309 | As written, the fetch fails iff some detail passes the validity check while its timestamp does not encode as a uint256. |
| SignedData.LenientTimestampAbortsQuote | scripts/fetch-oevsigneddata.ts:259-262 | A detail with timestamp "1x" and 0x-prefixed value and signature passes the validity check and makes the fetch as written fail. |
| SignedData.QuoteOf | scripts/fetch-oevsigneddata.ts:293-314 | The corrected quote never fails. Its median is computed from exactly the usable details, and its encoded updates are those same details in the same number and order. |
| SignedData.UsablePriceDetailsKeepsOrder | scripts/fetch-oevsigneddata.ts:259-286 | The usable details are exactly the valid ones whose timestamp encodes, each with its multiplicity, as an order-preserving subsequence. |
| SignedData.CorrectedAgreesWhenEncodable | scripts/fetch-oevsigneddata.ts:293-314 | Wherever the code as written succeeds, the corrected quote is the same quote. |
| SignedData.FetchOevSignedDataAsWritten | scripts/fetch-oevsigneddata.ts:192-314 | As written, the fetch fails iff some collected detail is valid but its timestamp does not encode, and then names such a detail. Otherwise it returns the corrected quote of the collected details. |
| SignedData.FetchOevSignedDataCorrected | scripts/fetch-oevsigneddata.ts:192-314 | With the corrected filter, the fetch returns the corrected quote of the collected details. It has at most one encoded update per airnode. |
| DapiName.PadEnd | scripts/fetch-oevsigneddata.ts:162 | `padEnd` leaves a name of at least n UTF-16 units as it is. Otherwise it appends NULs until the name is n units long, keeping the name as a prefix. |
| DapiName.Sized | scripts/fetch-oevsigneddata.ts:162 | `toHex` with size 32 accepts bytes iff they fit in 32. They are then right-padded with zero bytes. |
| DapiName.Utf8AtLeastUtf16 | scripts/fetch-oevsigneddata.ts:162 | The UTF-8 length of a name is at least its UTF-16 length, with equality iff the name is ASCII. |
| DapiName.EncodeDapiName | scripts/fetch-oevsigneddata.ts:162 | No contract of its own: `toHex(name.padEnd(32, "\0"), { size: 32 })`. EncodeDapiNameExact states what it gives. |
| DapiName.EncodeDapiNameExact | scripts/fetch-oevsigneddata.ts:162 | The encoding succeeds iff the name is ASCII and at most 32 characters long. It is then the name's bytes followed by zero bytes up to 32. |
| DapiName.DapiNameHash | scripts/fetch-oevsigneddata.ts:162-166 | The name hash exists iff the name encodes. |
| DapiName.DapiNameRoundTrip | scripts/fetch-oevsigneddata.ts:162 | An ASCII name of at most 32 characters without NUL reads back from its encoding. |
| DapiName.EncodeDapiNameInjective | scripts/fetch-oevsigneddata.ts:162-166 | Distinct such names get distinct encodings, so they get distinct hashes up to a keccak collision. |

## Left out

- Network I/O is not modelled: the viem clients, contract reads and writes, `waitForTransactionReceipt`, `getBlockNumber`, `getLogs` and the HTTP `fetch` with its JSON parsing. Their results are inputs: per-airnode fetch outcomes, and one observation per poll for the two waits.
- The chain-id and registry lookups are not modelled. The airnode and template-id lists they produce are inputs.
- keccak256 is not modelled beyond being a function, and neither is viem's ABI byte layout of the five-field price-update tuple. That tuple is kept as its fields.
- `Date.now()` and `crypto.getRandomValues` are not modelled. Time and nonce are parameters.
- The `setTimeout` sleeps are left out because they only affect timing. The waits have no deadline in the code, and the model adds none.
- The float conversion `Number(wei) / 1e18` is not modelled. The decoded price is the exact real wei / 10^18, and the median's even-count mean is exact.
- The `decodedtimestamp` Date of a price detail is left out. Nothing downstream reads it.
- The placement, update and report transactions are left out, along with `performOevUpdate`, the deploy and deposit scripts, environment parsing and logging.
- `decodeEventLog` and its `eventName === "AwardedBid"` check are not modelled separately. The log query already selects that event, so the check always passes for the logs it returns, and a log's award details are its payload.
- JsStrings.ParseInt: the result is an exact integer. JavaScript rounds it to a double, so timestamps that differ only beyond 2^53 compare equal in the sort, and the model may order them where JavaScript treats them as ties.
- SignedData.LatestIndex: when some timestamps are unparseable, `parseInt` yields NaN, the sort comparator is inconsistent, and the result depends on the engine. The model takes the first entry with the greatest parseable timestamp, or the first entry when none parses.
- AuctionWindow.WindowContainsNow: the grid properties are stated for offset <= now, which holds for every Unix time after 1970-01-01T00:00:30Z. ComputeWindow itself models JavaScript's truncating `%` for every `now`.
- BidPolling.AwaitAward, BidPolling.AwaitConfirmation: both waits run inside a `new Promise(async ...)` executor. A failed chain read rejects only that executor, so the awaited promise never settles. The model reports this as the wait ending without a value (Aborted at that poll).
- DapiName.PadEnd: lone UTF-16 surrogates cannot occur in a Dafny string. Names are sequences of Unicode scalar values, and characters above U+FFFF count as two UTF-16 units.
- viem's checks on the hex text of the `bytes` fields (encoded value, signature) are not modelled. Any 0x-prefixed text is taken as encodable there.

## Findings

| source | as written | input that shows it | evidently intended | confidence | as-written member | corrected member |
|---|---|---|---|---|---|---|
| scripts/fetch-oevsigneddata.ts:259-262, 297-304 | The validity filter accepts a timestamp when `parseInt` finds a leading number. The encoding map then converts the same text with `BigInt` and encodes it as a uint256, which throws for text like "1x" or "-1". The throw aborts the whole fetch, so the valid updates of every other airnode are lost too. | a price detail with timestamp "1x", encoded value "0x01" and signature "0x01" | drop such a detail in the filter, like any other invalid entry, and quote from the rest | not executed | SignedData.QuoteAsWritten, SignedData.LenientTimestampAbortsQuote, SignedData.FetchOevSignedDataAsWritten | SignedData.QuoteOf, SignedData.UsablePriceDetails, SignedData.FetchOevSignedDataCorrected |
