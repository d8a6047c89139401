# WAF admission decisions, modelled in Dafny

This project models the per-client decisions of a small Express web
application firewall:

- **Click-velocity detector** (`validateAdClick`, `cleanupClickTracker` in
  `src/middleware/ad-defender.ts`). A module-level dictionary maps each client
  key to `{count, lastClick}`. A click strictly less than 500 ms after the
  previous click from the same key increments `count`. Any other click resets
  `count` to 1. An existing record whose count reaches 50 is reported as a bot
  ("GIVT"), logged, and the call returns at once. Otherwise every record idle
  for strictly more than 5000 ms is deleted. This is the class
  `AdDefender.ClickTracker` over a `map`, specified by the function
  `AdDefender.Click`.
- **Expiring blocklist gate** (`blockRequestsByIP` in
  `src/middleware/req-blocker-by-ip.ts`). On every request the module-level
  list of `{ip, blockReason, blockedUntil}` is pruned to the entries with
  `blockedUntil > now` and saved. The client address is then looked up with
  `find`. A match answers 403 `Access denied: <reason>` and is logged as
  "IP blocked"; otherwise `next()` is called. This is the class
  `ReqBlockerByIp.BlockList`, specified by the functions `Prune`, `Find` and
  `Decide`.
- **Static blocklist gate** (`blockRequestsByIP` in
  `src/middleware/ip-blocker.ts`, which the server installs, and its older copy
  `middleware/ip-blocker.ts`). A first-match lookup in a list of `{ip, reason}`
  that never changes gives 403 with the reason, or `next()`. One function,
  `IpBlocker.BlockRequestsByIP`, stands for both copies.

`Http` holds what the three share: the request fields they read, the
403/`next()` decision, the record passed to `logRequest`, the 403 message and
the `user-agent || "unknown"` default.

Clock readings (`Date.now()`, `new Date()`) are integer parameters.
`validateAdClick` reads the clock twice: once itself (line 24) and once inside
`cleanupClickTracker` (line 13). The model gives these two readings as two
parameters, `currentTime` and `cleanupTime`.

Three details of the code shape the model:

- The click detector keys on the `x-forwarded-for` header when it is present
  and non-empty, and falls back to `req.ip` only otherwise.
- The click detector neither reads nor writes any blocklist. It only logs and
  returns `isBot`.
- No code writes entries into either blocklist. No code counts rate-limit
  violations.

## Model

| member | source | states |
|---|---|---|
| `Http.AccessDenied` | src/middleware/req-blocker-by-ip.ts:53-55 | The 403 body is "Access denied: " followed by the reason, and the reason can be read back from it. |
| `Http.UserAgentOf` | src/middleware/req-blocker-by-ip.ts:46 | The logged user agent is the header when it is present and non-empty, else "unknown"; it is never empty. |
| `AdDefender.ClientKey` | src/middleware/ad-defender.ts:22 | The key is a non-empty `x-forwarded-for` header when there is one, and `req.ip` otherwise. |
| `AdDefender.ClickTracker.constructor` | src/middleware/ad-defender.ts:5-6 | The tracker starts empty. |
| `AdDefender.Pruned` | src/middleware/ad-defender.ts:12-19 | Cleanup only deletes: every surviving key was in the tracker before, with the same record. |
| `AdDefender.Registered` | src/middleware/ad-defender.ts:27-42 | The clicking key's new record has `lastClick == now`. Its count is 1, or the old count + 1 when the key had a record and the gap is strictly below 500 ms. |
| `AdDefender.Click` | src/middleware/ad-defender.ts:21-62 | One call of `validateAdClick` on the dictionary. No key other than the clicker is added. A reported click needs an existing record and deletes nothing. If the clicker's record survives, its `lastClick` is `now`. |
| `AdDefender.GivtRecord` | src/middleware/ad-defender.ts:46-53 | The bot report is logged under the click key with block type "Ad Fraud", a non-empty user agent and no rate-limit figures. |
| `AdDefender.FirstClickIsFresh` | src/middleware/ad-defender.ts:27-61 | A first click from a key is never reported, even though no threshold check runs on that path. When the two clock readings are at most 5000 ms apart, it leaves `{count: 1, lastClick: now}`. |
| `AdDefender.ClickerRecord` | src/middleware/ad-defender.ts:33-42 | When the click is reported or the two clock readings are at most 5000 ms apart, the key's record survives the call with `lastClick == now`. Its count is the old count + 1 iff the key had a record and the gap is strictly below 500 ms, and 1 otherwise. |
| `AdDefender.BoundaryGapResets` | src/middleware/ad-defender.ts:36-39 | A click exactly 500 ms after the previous one resets the count to 1. |
| `AdDefender.BotIff` | src/middleware/ad-defender.ts:36-55 | A click is reported iff the key had a record, the gap is strictly below 500 ms, and the previous count was at least 49 (the updated count reaches 50). |
| `AdDefender.BotSkipsCleanup` | src/middleware/ad-defender.ts:45-59 | A reported click returns before cleanup, so every other key keeps its record unchanged, stale or not. |
| `AdDefender.CleanupRemovesExactlyStale` | src/middleware/ad-defender.ts:12-19 | After an unreported click, another key's record survives iff it is not idle for strictly more than 5000 ms at the cleanup time, and a survivor is unchanged. |
| `AdDefender.OnlyClickerChanges` | src/middleware/ad-defender.ts:27-42 | Apart from deletions, only the clicking key's record is created or changed. |
| `AdDefender.ClickKeepsPositive` | src/middleware/ad-defender.ts:28-39 | Every record keeps a count of at least 1. |
| `AdDefender.RapidRunContinues` | src/middleware/ad-defender.ts:33-55 | In a run of clicks each under 500 ms apart that continues a streak of c clicks, the i-th click is reported iff c + i + 1 >= 50. |
| `AdDefender.RapidRunFlagsAtMaxClicks` | src/middleware/ad-defender.ts:27-55 | In a run of clicks each under 500 ms apart from a key with no record, the i-th click is reported iff i + 1 >= 50. |
| `AdDefender.FiftyClicks100msApartFlagOnFiftieth` | src/middleware/ad-defender.ts:36-55 | Fifty clicks 100 ms apart from a new key: only the fiftieth is reported. |
| `AdDefender.SlowClicksNeverFlag` | src/middleware/ad-defender.ts:36-45 | Clicks at least 500 ms apart, the first of them also not rapid, are never reported. |
| `AdDefender.FiftyClicks600msApartNeverFlag` | src/middleware/ad-defender.ts:36-45 | Fifty clicks 600 ms apart from a new key are never reported. |
| `AdDefender.ClickTracker.CleanupClickTracker` | src/middleware/ad-defender.ts:12-19 | The loop over all keys leaves exactly the records that are not idle for strictly more than 5000 ms, unchanged, and keeps every count at least 1. |
| `AdDefender.ClickTracker.ValidateAdClick` | src/middleware/ad-defender.ts:21-62 | The new dictionary and `isBot` are those of `Click` on the old dictionary. A "GIVT" log record is emitted exactly when `isBot` is true. Every count stays at least 1. |
| `ReqBlockerByIp.Prune` | src/middleware/req-blocker-by-ip.ts:28-34 | Every kept entry has `blockedUntil > now`. Each unexpired entry keeps exactly its number of copies, and an entry with `blockedUntil == now` is dropped. |
| `ReqBlockerByIp.Find` | src/middleware/req-blocker-by-ip.ts:38 | `find` returns nothing iff no entry has the client address. Otherwise it returns an entry of the list with that address. |
| `ReqBlockerByIp.IpBlockedRecord` | src/middleware/req-blocker-by-ip.ts:41-51 | The rejection is logged under `req.ip` with block type "IP blocked", the entry's reason, a non-empty user agent and null `remainingRequests`/`windowMs`. |
| `ReqBlockerByIp.Decide` | src/middleware/req-blocker-by-ip.ts:38-58 | On the pruned list, a 403 response happens iff some entry has the client address, and a log record is written iff there is a 403. A rejection is status 403 and is logged as "IP blocked". |
| `ReqBlockerByIp.PruneIsSubsequence` | src/middleware/req-blocker-by-ip.ts:28 | The pruned list is a subsequence of the original: the kept entries stay in their relative order. |
| `ReqBlockerByIp.PruneKeepsUnexpiredList` | src/middleware/req-blocker-by-ip.ts:28-34 | A list with no expired entry is left exactly as it is. |
| `ReqBlockerByIp.PruneIdempotent` | src/middleware/req-blocker-by-ip.ts:28-34 | Pruning twice at the same time gives the same list as pruning once. |
| `ReqBlockerByIp.FindReturnsFirstMatch` | src/middleware/req-blocker-by-ip.ts:38 | `find` returns the first entry in list order whose address matches. |
| `ReqBlockerByIp.FindAfterPruneIsFirstActive` | src/middleware/req-blocker-by-ip.ts:28-38 | Looking up the pruned list finds the first entry of the original list that matches and is unexpired. |
| `ReqBlockerByIp.RejectedIffActiveEntry` | src/middleware/req-blocker-by-ip.ts:28-58 | A request is rejected iff some entry for its address has `blockedUntil > now`. Expired entries never reject. |
| `ReqBlockerByIp.RejectionUsesFirstActiveReason` | src/middleware/req-blocker-by-ip.ts:38-55 | A rejection is 403 with the `blockReason` of the first matching unexpired entry. It logs "IP blocked" with that reason and null `remainingRequests`/`windowMs`. |
| `ReqBlockerByIp.AdmittedWithoutResponse` | src/middleware/req-blocker-by-ip.ts:56-58 | With no matching unexpired entry, the request calls `next()`, and nothing is sent or logged. |
| `ReqBlockerByIp.BlockList.constructor` | src/middleware/req-blocker-by-ip.ts:14 | The in-memory list and the saved file both start as the loaded list. |
| `ReqBlockerByIp.BlockList.BlockRequestsByIP` | src/middleware/req-blocker-by-ip.ts:20-59 | Every request prunes the list and saves it, blocked or not, and never adds an entry. The answer is `Decide` on the pruned list: 403 iff an unexpired entry for the address existed. |
| `IpBlocker.Find` | src/middleware/ip-blocker.ts:21 | `find` returns nothing iff no entry has the client address. Otherwise it returns an entry of the list with that address. |
| `IpBlocker.BlockRequestsByIP` | src/middleware/ip-blocker.ts:16-30 | The request is answered 403 iff some entry has the client address; otherwise it calls `next()`. |
| `IpBlocker.RejectionUsesFirstReason` | middleware/ip-blocker.ts:19-23 | The 403 message carries the `reason` of the first entry in list order with the client address. |
| `IpBlocker.UnlistedAddressPasses` | middleware/ip-blocker.ts:25-27 | An address with no entry calls `next()` and gets no response. |
| `IpBlocker.SameAddressSameDecision` | src/middleware/ip-blocker.ts:14-30 | The list is constant, so two requests from the same address always get the same decision. |

## Left out

- Reading the blocklist JSON file at module load, and `saveBlockedIPs` writing it. The lists are in-memory sequences. The file is modelled only as the field `BlockList.saved`, which is overwritten with the pruned list on every request.
- Parsing ISO date strings in `new Date(blockedUntil)`. Timestamps are integers, and an unparsable date (`Invalid Date`, which compares false and so is pruned) is not modelled.
- `ReqBlockerByIp.Prune`: the filter at src/middleware/req-blocker-by-ip.ts:29 reads the clock once per entry. One `now` stands for all of those readings, so entries later in the list are not compared with a later time.
- The format of the shared blocklist file. src/middleware/ip-blocker.ts:13 and src/middleware/req-blocker-by-ip.ts:13 load the same `tempStorage/blockedIPs.json`. The static gate reads `reason` and ignores `blockedUntil`, while the expiring gate's entries carry `blockReason` and `blockedUntil`. `IpBlocker.BlockedIP` assumes the file holds `{ip, reason}` records. On a file written by the expiring gate, the installed static gate would answer "Access denied: undefined" and would never let a block expire.
- The timestamp that `logRequest` puts into its record, and the logger's file plumbing in `src/utils/logger.ts`. A log call is an output value (`LogRecord`) of the decision.
- `console.log("client ip", ...)` in `src/middleware/ip-blocker.ts:19`.
- `src/middleware/rate-limiter.ts`. It only configures an external rate-limiting library whose counting algorithm is not part of this model.
- `src/app.ts`: server wiring and `listen`.
- JavaScript numbers are doubles. Counts and millisecond timestamps stay far below 2^53, so they are unbounded integers here.
- An undefined `req.ip`. The model treats the address as always present.
- Keys that collide with properties inherited by a plain JavaScript object (such as `constructor` or `__proto__`). The tracker is a map of opaque strings.
- A multi-valued `x-forwarded-for` header. Its `toString()` joins the values, and the model takes the joined string as given.
- Concurrency. Each handler runs synchronously on Node's event loop.
- The run lemmas replay clicks with one clock reading per call, so each cleanup runs at the click's own instant. The single-call lemmas allow the two readings to differ.
