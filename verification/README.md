# Triva core, modelled in Dafny

Triva is a Node.js rate limiter with an encrypted, path-addressed document
store and a request log. This project models three pieces of it as pure
functions over immutable values and proves properties of those models.

- **The admission decision** (`Throttle.check` and `_violation`; module
  `Throttle`, file `throttle.dfy`). One `check` is a single atomic transition
  of an abstract key → record store. The result is `invalid_identity`,
  `auto_ban`, `ua_rotation`, `burst_limit`, `sliding_window` or `ok`. The
  clock reading `now` and the SHA-256 of the user agent (`hash`) are
  parameters. The constructor defaults, `_resolveConfig` and `_weightFromUA`
  are modelled as well.
- **The document store** (module `SecureStore`, file `store.dfy`). The
  document is a JSON value `J` (module `Json`), addressed by the segments of
  a path split on "." (module `Path`). The data operations are `get`, `has`,
  `set`, `delete`, `add`, `subtract` and `push`. Persistence is the
  write-behind engine of `_dirty`, `_writeTimer` and `_writeInProgress`
  (module `FlushEngine`, file `flush.dfy`). In that engine a physical write
  is an event that starts with a snapshot and later succeeds or throws.
  The store uses the engine with one correction to the code. A successful
  write re-arms the debounce timer when changes arrived while it was in
  flight (see "## Findings"). The store's liveness and consistency
  properties are stated for this corrected completion. The code's own
  completion is modelled as well, as `FlushEngine.WriteDoneAsWritten`.
- **The log query helpers** `since`, `between`, `last`, `sortByTime`,
  `countBy` and `countByNested` (module `LogQuery`, file `logquery.dfy`).
- **The payload framing** `iv ‖ tag ‖ ciphertext` that `encrypt` builds and
  `decrypt` slices (module `Framing`). The cipher itself is not modelled.

Shared helpers:
- `Seqs`: an order-preserving filter, the subsequence relation and repetition.
- `Decimal`: canonical array-index keys.
- `Wrappers`: `Option` and `Result`.

Conventions:
- `undefined` is `None`.
- A log entry's `timestamp` goes through JavaScript's number coercion
  before it is compared: `null` and `false` are 0, `true` is 1, and a string
  of decimal digits is its value.
- An array is addressed by canonical decimal keys ("0", "1", …) up to
  4294967294 (2^32 − 2), as in JavaScript. A larger key such as
  "4294967295" names an ordinary property, not an element.
- A write to an array at a canonical index updates the element inside the
  array or extends the array to that index. An index past the end leaves
  holes; `JSON.stringify` writes them as `null`, and so does the model.
- A key on an array that is not a canonical index is kept by JavaScript as
  an in-memory property. `JSON.stringify` drops it, so the model leaves the
  array unchanged.
- The exception is `length`. In JavaScript it reads as the element count,
  and writing it truncates or extends the array. The model has no `length`:
  it reads as undefined, and a write to it changes nothing (see
  "## Left out").
- Deleting an array element leaves a hole. It is modelled as `null`, which
  is how the hole is persisted.

Where the design description and the code disagree, the model follows the
code:
- Pruning keeps timestamps with `ts >= now - window`, so the current
  instant, and any later one, is kept.
- `deleteByPath` returns true whenever the walk reaches the last container,
  so deleting the same path twice returns true both times.
- A write that throws leaves `_writeInProgress` set, so no later flush ever
  runs.

## Model

| member | source | states |
|---|---|---|
| Throttle.New | lib/triva.main.js:15-34 | construction fails exactly when `limit` or `window_ms` is falsy; otherwise every other option takes its own value when truthy and its default otherwise (burst 20, burst window 1000, ban threshold 5, ban 86400000 ms, decay 3600000 ms, rotation threshold 5, namespace "throttle") |
| Throttle.ResolveConfig | lib/triva.main.js:88-92 | with no policy the base configuration is used unchanged; with an override, each of the eight fields takes the override's value when it is supplied and the base value otherwise |
| Throttle.Lower | lib/triva.main.js:67 | lower-casing keeps the length and maps every character through the ASCII lower-case mapping |
| Throttle.Weight | lib/triva.main.js:66-86 | the weight of a user agent is always 1, 5 or 10 |
| Throttle.FindsMarker | lib/triva.main.js:67-83 | `includes` on the lower-cased user agent finds a marker exactly when the marker occurs somewhere in the user agent in some letter case |
| Throttle.WeightCases | lib/triva.main.js:66-86 | for every user agent: weight 5 exactly when an automation marker occurs in any case; 10 exactly when an AI marker occurs and no automation marker does; 1 exactly when no marker of either kind occurs |
| Throttle.AutomationFirst | dist/tirva.throttle.js:52-63 | a user agent containing any automation marker, in any letter case, weighs 5, whatever AI marker it also contains |
| Throttle.AiSecond | dist/tirva.throttle.js:64-72 | with no automation marker, a user agent containing any AI marker weighs 10 |
| Throttle.WeightIgnoresCase | lib/triva.main.js:66-67 | two user agents that differ only in letter case weigh the same |
| Throttle.ClaudeBotIsAutomation | lib/triva.main.js:68-76 | "ClaudeBot" matches "bot" before "claude", so it weighs 5 rather than 10 |
| Throttle.KeysDistinct | lib/triva.main.js:54-64 | for an ip not starting with 'i' or 'b', the identity, ip and ban keys never collide |
| Throttle.LoadRecord | lib/triva.main.js:120-125 | the identity record read is the one stored under the key, or a fresh record with no hits, no burst and no violations when none is stored |
| Throttle.Decay | lib/triva.main.js:127-130 | violations drop by at most one, never below zero, and drop exactly when there are violations and strictly more than the decay time has passed; a drop restarts the decay clock (`last_violation = now`); otherwise the record is unchanged; the lists are untouched |
| Throttle.Prune | lib/triva.main.js:138-139 | the result is a subsequence of the list, holds only timestamps at or after the cutoff, and keeps every such timestamp with its multiplicity |
| Throttle.Violation | lib/triva.main.js:160-167 | the identity record is stored with one more violation and `last_violation = now`; a ban until `now + banMs` is written exactly when the count reaches the threshold; no other key changes |
| Throttle.Prepare | lib/triva.main.js:120-139 | the record the limits see is the stored one (or a fresh one) with its violations decayed, its hits pruned at `now - windowMs` and its burst list at `now - burstWindowMs`; no list gets longer and the violation count stays non-negative |
| Throttle.Admit | dist/tirva.throttle.js:156-179 | after the rotation step the outcome is `ok`, `burst_limit` or `sliding_window`, and the identity record is always stored; every key other than the identity and ban keys is left as it was |
| Throttle.RecordUa | lib/triva.main.js:110-118 | after the rotation step lets a request through, its hash is in the ip's list: a known hash leaves the store as it was, a new one is appended to the list, and no other key changes |
| Throttle.Check | lib/triva.main.js:94-157 | `invalid_identity` exactly when ip or user agent is empty; `auto_ban` exactly when a ban later than `now` is recorded; `ua_rotation` exactly when a new hash would exceed the rotation threshold; these three write nothing; every key other than the identity, ip and ban keys of the checked ip is left as it was |
| Throttle.BanIsPerIp | lib/triva.main.js:105-108 | an unexpired ban refuses every user agent of the ip and writes nothing; at `now == banned_until` it no longer applies |
| Throttle.BanPersists | lib/triva.main.js:101-166 | a check of another ip leaves this ip's ban record exactly as it was, so an unexpired ban stays unexpired |
| Throttle.Replay | lib/triva.main.js:94-157 | a run of checks gives one reason per request, `invalid_identity` exactly for the requests missing an ip or user agent |
| Throttle.BanHolds | lib/triva.main.js:105-108 | once an ip is banned until `u`, every later check of that ip with a user agent before `u` returns `auto_ban`, whatever other ips are checked in between, and the ban survives |
| Throttle.PruneKeepsRecent | lib/triva.main.js:138-139 | a list whose timestamps all lie inside the window is kept whole |
| Throttle.LimitOrder | lib/triva.main.js:141-157 | the burst test comes before the sliding-window test, and a request within both caps is admitted |
| Throttle.RecordAccounting | dist/tirva.throttle.js:158-195 | a rejection stores the pruned lists with one more violation at `now`; an admission appends `weight` copies of `now` to each list and leaves both within their caps |
| Throttle.DecayAtMostOne | dist/tirva.throttle.js:132-138 | per admission step the violation count falls by at most one, and only after a strictly longer gap than the decay time |
| Throttle.BanIffThreshold | dist/tirva.throttle.js:184-195 | a ban `now + banMs` is written exactly on a rejection that brings violations to the threshold; otherwise the ban record is untouched |
| Throttle.CheckDecides | lib/triva.main.js:94-157 | for a request past the identity, ban and rotation steps, the check refuses for burst exactly when the weight plus the stored burst timestamps within `burstWindowMs` exceeds `burstLimit`, refuses for the window exactly when it fits the burst but the weight plus the stored hits within `windowMs` exceeds `limit`, and admits exactly when it fits both |
| Throttle.RotationBookkeeping | dist/tirva.throttle.js:107-116 | a new hash within the threshold is appended to the ip's list once; a known hash leaves the ip record unwritten |
| Throttle.RecordUaKeepsInv | lib/triva.main.js:110-118 | recording an admitted user agent keeps every ip list duplicate-free and within the rotation threshold |
| Throttle.AdmitKeepsInv | lib/triva.main.js:138-157 | with non-negative caps, admitting or rejecting keeps every stored list within its cap and violation counts non-negative |
| Throttle.ViolationKeepsInv | lib/triva.main.js:160-167 | storing a counted violation, and possibly a ban, keeps every record within the caps |
| Throttle.CheckPreservesInv | lib/triva.main.js:94-167 | under a fixed configuration every check keeps the store invariant: lists within caps, ip lists duplicate-free and within the threshold |
| Throttle.CheckAsWritten | dist/tirva.throttle.js:107-114 | the code as written, on a store that hands out live objects, gives the same decision as the model; when it refuses for rotation an ip that has a stored list, the refused hash is in that list and the list is longer than the threshold |
| Throttle.RotationLeak | lib/triva.main.js:110-116 | as written, a user agent refused for rotation is let through on its next request and the ip list exceeds the threshold; the corrected check refuses it again |
| Seqs.Filter | dist/triva.log.query.js:94-96 | the filter result is a subsequence holding exactly the elements that satisfy the test, each as many times as in the input |
| Seqs.FilterMonotone | dist/triva.log.query.js:98-102 | filtering by a stronger test gives a subsequence of filtering by a weaker one |
| Decimal.ParseRender | dist/triva.d.path.js:10 | the decimal string of a natural is canonical and reads back as that natural; it names an array element exactly when the natural is at most 2^32 − 2 |
| Decimal.RenderParse | dist/triva.d.path.js:10 | a canonical decimal key is the rendering of its value |
| Json.Child | dist/triva.d.path.js:10 | a child is found only inside an object or an array |
| Json.Put | dist/triva.d.path.js:24 | storing a key keeps the container's kind; the key then reads back the value when it is an object key or an array index, and an array grows to the index written; a non-index key on an array changes nothing |
| Json.Remove | dist/triva.d.path.js:36 | removing a key from an object leaves it absent; removing an array element leaves a null hole; nothing else changes |
| Json.ChildPutOther | dist/triva.d.path.js:24 | storing one key leaves every other key's value unchanged, apart from the holes of a write past an array's end |
| Json.ChildPutPad | dist/triva.d.path.js:24 | a write past an array's end turns every index between the old length and the written one from undefined into a `null` hole |
| Json.ChildRemoveOther | dist/triva.d.path.js:36 | removing one key leaves every other key's value unchanged |
| Path.Split | dist/triva.d.path.js:10 | a split path always has at least one segment, and no segment contains a dot |
| Path.JoinSplit | dist/triva.d.path.js:14 | joining the segments of a split path with dots gives the path back |
| Path.SplitJoin | dist/triva.d.path.js:14 | splitting a dot-join of dot-free segments gives the segments back |
| Path.GetPath | dist/triva.d.path.js:9-11 | a non-empty path reads undefined from a primitive and when its first segment is missing |
| Path.GetPathAppend | dist/triva.db.global.js:110-112 | reading a path is reading its prefix, then reading the rest from there |
| Path.GetStopsEarly | dist/triva.d.path.js:9-11 | reading gives undefined as soon as an intermediate value is missing or falsy |
| Path.SetPath | dist/triva.d.path.js:13-25 | writing keeps the root's kind |
| Path.GetAfterSet | dist/triva.d.path.js:9-25 | after `setByPath(o, p, v)`, `getByPath(o, p)` returns `v` |
| Path.SetLeavesOthers | dist/triva.d.path.js:13-25 | a write leaves unchanged every path that parts from the written one, except that an undefined path may now end in a `null` hole of an array written past its end; with no such padding, every such path is unchanged |
| Path.SetPastEnd | dist/triva.d.path.js:24 | `setByPath({a: []}, "a.3", 1)` gives `{a: [null, null, null, 1]}` |
| Path.SetPastMaxIndex | dist/triva.d.path.js:24 | `setByPath({a: []}, "a.4294967295", 1)` leaves the saved array `[]`, because 2^32 − 1 is not an array index |
| Path.SetCreatesIntermediates | dist/triva.d.path.js:17-22 | after a write every intermediate on the path is a container, and one that was missing, null or a primitive is now a fresh object holding only the next segment |
| Path.DeletePath | dist/triva.d.path.js:27-37 | a delete that reports false changes nothing; a delete keeps the root's kind and truthiness |
| Path.DeleteFalseIffBlocked | dist/triva.db.global.js:128-138 | a delete reports false exactly when an intermediate segment is missing or falsy |
| Path.GetAfterDelete | dist/triva.d.path.js:27-37 | after a successful delete under an object the path reads undefined |
| Path.DeleteTwiceTrue | dist/triva.d.path.js:36-37 | a delete that succeeded succeeds again on the same path |
| Path.DeleteLeavesOthers | dist/triva.d.path.js:27-37 | a delete leaves every path that parts from it unchanged |
| FlushEngine.ScheduleFlush | dist/triva.db.global.js:178-187 | scheduling always marks the store dirty and arms a timer only when none is pending |
| FlushEngine.Flush | dist/triva.db.global.js:189-210 | a flush does nothing while a write is in flight, even when forced, or when clean and not forced; otherwise it clears the dirty flag before writing the current document |
| FlushEngine.TimerFires | dist/triva.d.global.js:60-63 | the timer clears itself and starts a write of the current document exactly when the engine is dirty and idle |
| FlushEngine.Close | dist/triva.db.global.js:272-274 | `close()` writes nothing while a write is in flight, and otherwise starts writing the current document |
| FlushEngine.WriteDoneAsWritten | dist/triva.db.global.js:201-209 | as written, a successful write clears `_writeInProgress` and makes the snapshot durable; a failed one leaves it set |
| FlushEngine.WriteDone | dist/triva.d.global.js:66-87 | the corrected completion re-arms the timer when changes arrived during the write |
| FlushEngine.LiveIsPreserved | dist/triva.d.global.js:55-87 | on an engine that is not stuck, every transition, with the corrected completion of a successful write, keeps at most one timer pending and leaves no pending change without a timer or a write in flight |
| FlushEngine.FailureStrands | dist/triva.db.global.js:193-209 | after a failed write the next change, once its timer has fired, is dirty with no timer and no write in flight |
| FlushEngine.StuckForever | dist/triva.d.global.js:67-86 | once a write has thrown, no later flush writes anything |
| FlushEngine.StrandedAsWritten | dist/triva.db.global.js:178-210 | as written, a change made during a write whose timer fires before the write completes is left dirty, idle and with no timer |
| FlushEngine.FollowUpFlush | dist/triva.db.global.js:178-210 | with the corrected completion the same sequence re-arms the timer and writes the latest document |
| SecureStore.Open | dist/triva.db.global.js:160-172 | with no file, a forced write of an empty store must succeed; with a file, its document is loaded clean and durable |
| SecureStore.Get | dist/triva.db.global.js:216-219 | `get` of a path with no dot reads that top-level key of the document |
| SecureStore.Has | dist/triva.db.global.js:216-224 | `has(p)` is true exactly when `get(p)` is defined |
| SecureStore.Set | dist/triva.db.global.js:226-231 | `set` returns its value, schedules a flush, and the value then reads back at its path |
| SecureStore.Delete | dist/triva.d.global.js:110-115 | `delete` reports true exactly when no intermediate segment is missing or falsy; only then does it schedule a flush; after it the path reads undefined |
| SecureStore.Add | dist/triva.db.global.js:240-249 | `add` stores and returns the current number plus the amount, with anything other than a number counting as 0 |
| SecureStore.Subtract | dist/triva.d.global.js:128-130 | `subtract` stores and returns the current number minus the amount |
| SecureStore.Push | dist/triva.db.global.js:255-266 | `push` returns the array at the path (a fresh one for anything else) extended by exactly the value, stores it and schedules a flush |
| SecureStore.TimerFires | dist/triva.db.global.js:183-186 | the timer clears itself, leaves the document as it is, and starts writing it when the store is dirty and no write is in flight |
| SecureStore.WriteDone | dist/triva.db.global.js:201-209 | with the corrected follow-up flush, a successful write makes its snapshot durable and re-arms the timer for changes made meanwhile; a failed one leaves the store stuck and the durable document as it was |
| SecureStore.Close | dist/triva.d.global.js:149-151 | `close()` changes nothing while a write is in flight, and otherwise starts writing the current document |
| SecureStore.ConsistentIsPreserved | dist/triva.db.global.js:178-274 | on a store that is not stuck, every data operation, timer, close and the corrected completion of a successful write keep the store consistent: a clean store's document is the one durably written or being written |
| SecureStore.OpenIsConsistent | dist/triva.db.global.js:160-172 | a store that opened successfully is consistent |
| SecureStore.QuiescentIsDurable | dist/triva.db.global.js:189-210 | a consistent store with no timer pending and no write in flight has its whole document durably written |
| SecureStore.SetCloseReopen | dist/triva.db.global.js:160-274 | after `set` and `close` on a store with no write in flight, and a successful write, reopening reads the value back |
| SecureStore.CloseDuringWrite | dist/triva.db.global.js:189-190 | `close()` during an in-flight write does not write the value just set |
| SecureStore.SetLeavesOtherPaths | dist/triva.db.global.js:226-231 | `set` changes no path that parts from the one it writes, except that an undefined path may now read a `null` hole of an array written past its end; with no such padding, nothing |
| SecureStore.DeleteLeavesOtherPaths | dist/triva.db.global.js:233-238 | `delete` changes no path that parts from the one it deletes |
| SecureStore.DeleteTwice | dist/triva.d.global.js:110-115 | a second `delete` of a deleted path also reports true |
| LogQuery.StringToNumber | dist/triva.log.query.js:95 | a canonical decimal string converts to the number it spells |
| LogQuery.ToNumber | dist/triva.log.query.js:95-116 | the comparison and the comparator see a number as itself, `null`, `false` and `""` as 0, and `true` as 1; objects are NaN, and the model also reads every array as NaN |
| LogQuery.Since | dist/triva.log.query.js:94-96 | `since(t)` keeps exactly the entries with `timestamp >= t`, in their order, each as often as in the input |
| LogQuery.Between | dist/triva.log.query.js:98-102 | `between(s, e)` keeps exactly the entries with `s <= timestamp <= e`; it is empty when `s > e` and is a subsequence of `since(s)` |
| LogQuery.Last | dist/triva.log.query.js:104-106 | `last(ms)` keeps exactly the entries at or after `now - ms`, in their order, each as often as in the input |
| LogQuery.Insert | dist/triva.log.query.js:112-118 | inserting into a sorted sequence keeps it sorted and adds exactly that entry |
| LogQuery.Sort | dist/triva.log.query.js:112-118 | the sort returns a permutation that is ordered in the requested direction |
| LogQuery.SortByTime | dist/triva.log.query.js:112-118 | `sortByTime` returns a permutation of its input; when every entry has a numeric timestamp it is ascending for "asc" and descending for any other direction |
| LogQuery.JsString | dist/triva.log.query.js:122-123 | the property key of a number reads back as that number; a string is its own key; booleans are "true" and "false" |
| LogQuery.Label | dist/triva.log.query.js:122-123 | an undefined or null value is counted under "unknown", a string under itself, and a number under a key that reads back as that number |
| LogQuery.Bump | dist/triva.log.query.js:123 | bumping a bucket adds exactly one to the sum of the counts and adds only that bucket's key |
| LogQuery.Tally | dist/triva.log.query.js:121-125 | counting labels gives a bucket for exactly the labels that occur, each holding that label's number of occurrences, with counts summing to the number of labels |
| LogQuery.CountBy | dist/triva.log.query.js:120-126 | `countBy` counts sum to the number of entries, each bucket holds the number of entries with that value, and every entry's bucket is present |
| LogQuery.UnknownBucket | dist/triva.log.query.js:122 | a missing or null value, or a nested path that does not resolve, is counted under "unknown" |
| LogQuery.CountByNested | dist/triva.log.query.js:128-134 | `countByNested` counts sum to the number of entries, and each bucket holds the number of entries whose nested value has that label |
| LogQuery.CountByIsNestedSingleton | dist/triva.log.query.js:120-134 | counting by a key is counting by the one-segment path of that key |
| Framing.Frame | dist/triva.db.global.js:32-46 | the payload is the iv, then the tag, then the ciphertext |
| Framing.SubArray | dist/triva.db.global.js:51-53 | `subarray` is never longer than the buffer, is the plain slice for bounds inside it, and is empty when the bounds cross or start past the end |
| Framing.Unframe | dist/triva.db.global.js:48-56 | decrypt's slices are at most 12 and 16 bytes long, exactly that long for a long enough buffer, and the ciphertext slice is empty for a short one |
| Framing.UnframeFrame | dist/triva.db.global.js:32-56 | slicing a framed payload recovers exactly the iv, tag and ciphertext |
| Framing.FrameUnframe | dist/triva.db.global.js:48-56 | the three slices always cover the buffer in order, with nothing lost |

## Left out

- AES-256-GCM, scrypt and the master key (`dist/triva.d.crypto.js`,
  `dist/triva.d.masterkey.js`): these call into Node's crypto library. Only
  the byte framing of the payload is modelled. Base64 is not modelled.
- File I/O and the physical write: `readFile` and `writeFile`
  (`dist/triva.d.file.js`). A write is an event that succeeds or fails.
  `Open` takes the loaded document as a parameter, so a corrupt file or a
  failed decryption is not modelled.
- Time and hashing: the real 50 ms `setTimeout`, `Date.now` and SHA-256 are
  parameters. `_violation` reads the clock again in the code; the model uses
  the `now` of the check.
- `weight_multiplier` with `Math.ceil`: an arbitrary floating-point factor.
  `Admit` takes any natural weight, so its lemmas cover every weight.
- Interleaving of concurrent `check` calls across `await` points: each check
  is atomic.
- `MiddlewareCore`, `createMiddleware`, the HTTP adapters, the logger and
  the `run`-based query wrappers: I/O plumbing around the core.
- The throttle's store module (`lib/cache.js`) is not part of this model. The
  store is an abstract map from key to record.
- Store keys are opaque strings. `dist/tirva.throttle.js` calls `db.get` and
  `db.set` (from line 100) but never declares or imports `db`. If `db` is
  the path-addressed store, an ip with dots becomes nested segments. That
  nesting is not modelled.
- A record of the wrong shape under a key is read as absent. This cannot
  arise while the keys stay apart (`Throttle.KeysDistinct`).
- Non-JSON quirks of the path helpers:
  - reading an index into a truthy string or number;
  - `__proto__` and other inherited properties;
  - non-index keys on arrays, which exist only in memory;
  - the `length` of an array or a string;
  - holes, which read `undefined` in memory but are `null` in the model, as
    in the saved document;
  - numbers other than integers.
- Json.Put: a key on an array that is not a canonical index leaves the array
  unchanged. JavaScript keeps such a property in memory, and
  `JSON.stringify` drops it on the next flush. `length` is different:
  writing it truncates or extends the array in JavaScript, and that change
  is saved. It is not modelled.
- Throttle.BanHolds: covers runs of checks in which every ip is non-empty and
  does not start with 'i' or 'b'; for other ips the identity, ip and ban key
  kinds can collide (`Throttle.KeysDistinct`), and the model then promises
  nothing about the ban.
- Path.GetPath: a path ending in `length` on an array, such as `a.length` on
  `{a: [1, 2, 3]}`, reads 3 in JavaScript. It reads undefined here, so `has`
  differs too.
- SecureStore.Add: `add("a.length", 1)` on `{a: [1, 2, 3]}` returns 4 and
  saves `[1, 2, 3, null]` in JavaScript. The model returns 1 and leaves the
  array as it was.
- Path.GetAfterSet: requires that the path is writable, meaning no array
  along it is written at a key that is not a canonical index, for the reason
  given under `Json.Put`. Writes past an array's end are covered.
- Path.SetCreatesIntermediates: requires a writable path, as
  `Path.GetAfterSet` does.
- Json.ChildPutOther: excludes the holes a write past an array's end leaves.
  `Json.ChildPutPad` states what they read.
- Path.SetLeavesOthers: a path that ends in a new hole reads `null`, where
  JavaScript's in-memory object reads `undefined`. Equality is stated when no
  array is extended past its end.
- SecureStore.SetLeavesOtherPaths: the same exception as
  `Path.SetLeavesOthers`.
- Path.GetAfterDelete: requires that the deleted key's container is not an
  array. Deleting an array element leaves a null hole, not undefined.
- SecureStore.Set: the round trip is stated only when `CanWrite` holds, for
  the same reason as `Path.GetAfterSet`.
- SecureStore.Add: the stored result is stated only when `CanWrite` holds.
  A non-index key on an array is the one excluded case.
- SecureStore.Subtract: the stored result is stated only when `CanWrite`
  holds, as for `SecureStore.Add`.
- SecureStore.Push: the stored array is stated only when `CanWrite` holds, as
  for `SecureStore.Add`.
- SecureStore.Delete: the undefined-after-delete clause is stated only when
  the container is not an array.
- Live references: `get` and `push` hand out the stored object itself in
  JavaScript. `set` stores the caller's object by reference, so a later
  mutation by the caller changes the store without scheduling a flush. The model returns values, so later mutation through such a
  reference is not modelled, except in `Throttle.CheckAsWritten`.
- Throttle.ResolveConfig: an override field set explicitly to `undefined`
  replaces the base value in JavaScript. Here an absent field keeps it.
- Throttle.Lower: only ASCII letters are lower-cased. JavaScript's
  `toLowerCase` maps every Unicode letter, and some map to several
  characters: "İ" becomes "i̇".
- Throttle.Weight: lower-casing is ASCII only, as under `Throttle.Lower`.
  "Aİ" weighs 10 in JavaScript, because its lower case contains "ai". It
  weighs 1 here.
- FlushEngine.LiveIsPreserved: stated for engines that are not stuck, with
  the corrected completion of a successful write. The code's completion
  (`FlushEngine.WriteDoneAsWritten`) does not keep the engine live
  (`FlushEngine.StrandedAsWritten`). Neither does a failed write
  (`FlushEngine.FailureStrands`).
- SecureStore.ConsistentIsPreserved: stated for stores that are not stuck,
  with the corrected completion of a successful write, as for
  `FlushEngine.LiveIsPreserved`. `SecureStore.WriteDone` uses that
  corrected completion.
- LogQuery.Since: number coercion of a string covers plain decimal digits
  with an optional sign, and "" as 0. Other strings are NaN in the model:
  surrounding whitespace, fractions, exponents, hex and "Infinity". Arrays
  are NaN too, where JavaScript turns `[]` into 0 and `[x]` into the number
  of `x`'s string. Non-integer numbers are not modelled. `t` is a number.
- LogQuery.Between: the same coercion limits as `LogQuery.Since`.
- LogQuery.ToNumber: an array is NaN here. JavaScript converts an array
  through its string, so `[]` is 0 and `[7]` is 7. A string goes through
  `LogQuery.StringToNumber`, with its limits.
- LogQuery.StringToNumber: covers only plain decimal digits with an
  optional sign, and "" as 0. Whitespace, fractions, exponents, hex and
  "Infinity" give NaN here but numbers in JavaScript.
- LogQuery.SortByTime: ordering is stated only when every entry's timestamp
  converts to a number. Otherwise the comparator yields NaN and JavaScript's
  order is implementation-defined. The model sorts such entries as if
  stamped 0. Stability is not stated.
- LogQuery.CountBy: bucket names are the JavaScript string conversion of the
  value. Floating-point numbers and inherited keys of the accumulator object
  (such as "toString") are not modelled.

## Findings

| source | as written | input that shows it | evidently intended | confidence | as-written member | corrected member |
|---|---|---|---|---|---|---|
| lib/triva.main.js:110-116 | `ipRecord.uas.push(uaHash)` runs before the threshold test, on the object the store handed out, so a user agent refused for `ua_rotation` is already in the stored list | rotation threshold 1, the ip has seen "A", then "B" twice: the first "B" is refused, the second is admitted and the list holds two hashes | a refused user agent is not recorded, and the ip list never exceeds the threshold | not executed; holds for a store whose `get` returns the stored object, as `SecureStore.get` does | Throttle.CheckAsWritten | Throttle.Check |
| dist/triva.db.global.js:178-210 | a change made while a write is in flight, whose debounce timer fires before that write completes, is not flushed until another mutation or `close()`: the store ends dirty, idle and with no timer | `set`, timer fires (write starts), `set` again, its timer fires while the write is still in flight, the write completes | every change is eventually written by a later flush | not executed | FlushEngine.WriteDoneAsWritten | FlushEngine.WriteDone |
