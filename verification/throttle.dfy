/** The rate limiter's admission decision (Throttle.check and _violation).
    The store is an abstract map from key to record; the clock reading `now`
    and the SHA-256 of the user agent (`hash`) are parameters. */
module Throttle {
  import opened Wrappers
  import Seqs

  /* ---------------- Configuration ---------------- */

  /** Constructor options; `None` is an absent option. */
  datatype Options = Options(
    limit: Option<int>,
    windowMs: Option<int>,
    burstLimit: Option<int>,
    burstWindowMs: Option<int>,
    banThreshold: Option<int>,
    banMs: Option<int>,
    violationDecayMs: Option<int>,
    uaRotationThreshold: Option<int>,
    namespace: Option<string>)

  datatype Config = Config(
    limit: int,
    windowMs: int,
    burstLimit: int,
    burstWindowMs: int,
    banThreshold: int,
    banMs: int,
    violationDecayMs: int,
    uaRotationThreshold: int)

  datatype Limiter = Limiter(base: Config, namespace: string)

  /** A numeric option JavaScript treats as truthy: present and not 0. */
  predicate Given(o: Option<int>) {
    o.Some? && o.value != 0
  }

  /** `option || fallback` for a numeric option. */
  function OrDefault(o: Option<int>, fallback: int): int {
    if Given(o) then o.value else fallback
  }

  /** The Throttle constructor: `limit` and `window_ms` are required; every
      other option falls back to its default when falsy. */
  function New(o: Options): (r: Result<Limiter, string>)
    ensures r.Failure? <==> !Given(o.limit) || !Given(o.windowMs)
    ensures r.Success? ==>
      && r.value.base.limit == o.limit.value
      && r.value.base.windowMs == o.windowMs.value
      && r.value.base.burstLimit == (if Given(o.burstLimit) then o.burstLimit.value else 20)
      && r.value.base.burstWindowMs == (if Given(o.burstWindowMs) then o.burstWindowMs.value else 1000)
      && r.value.base.banThreshold == (if Given(o.banThreshold) then o.banThreshold.value else 5)
      && r.value.base.banMs == (if Given(o.banMs) then o.banMs.value else 86400000)
      && r.value.base.violationDecayMs == (if Given(o.violationDecayMs) then o.violationDecayMs.value else 3600000)
      && r.value.base.uaRotationThreshold == (if Given(o.uaRotationThreshold) then o.uaRotationThreshold.value else 5)
      && r.value.namespace == (if o.namespace.Some? && o.namespace.value != "" then o.namespace.value else "throttle")
  {
    if !Given(o.limit) || !Given(o.windowMs) then Failure("limit and window_ms are required")
    else
      var base := Config(
        o.limit.value,
        o.windowMs.value,
        OrDefault(o.burstLimit, 20),
        OrDefault(o.burstWindowMs, 1000),
        OrDefault(o.banThreshold, 5),
        OrDefault(o.banMs, 24 * 60 * 60 * 1000),
        OrDefault(o.violationDecayMs, 60 * 60 * 1000),
        OrDefault(o.uaRotationThreshold, 5));
      var ns := if o.namespace.Some? && o.namespace.value != "" then o.namespace.value else "throttle";
      Success(Limiter(base, ns))
  }

  /** A per-request override returned by the policy function. */
  datatype Override = Override(
    limit: Option<int>,
    windowMs: Option<int>,
    burstLimit: Option<int>,
    burstWindowMs: Option<int>,
    banThreshold: Option<int>,
    banMs: Option<int>,
    violationDecayMs: Option<int>,
    uaRotationThreshold: Option<int>)

  /** `_resolveConfig`: `{ ...base, ...override }`, where `ov` is `None` when
      there is no policy function or it returned nothing. */
  function ResolveConfig(base: Config, ov: Option<Override>): (c: Config)
    ensures ov.None? ==> c == base
    ensures ov.Some? ==>
      && (ov.value.limit.Some? ==> c.limit == ov.value.limit.value)
      && (ov.value.limit.None? ==> c.limit == base.limit)
      && (ov.value.windowMs.Some? ==> c.windowMs == ov.value.windowMs.value)
      && (ov.value.windowMs.None? ==> c.windowMs == base.windowMs)
      && (ov.value.burstLimit.Some? ==> c.burstLimit == ov.value.burstLimit.value)
      && (ov.value.burstLimit.None? ==> c.burstLimit == base.burstLimit)
      && (ov.value.burstWindowMs.Some? ==> c.burstWindowMs == ov.value.burstWindowMs.value)
      && (ov.value.burstWindowMs.None? ==> c.burstWindowMs == base.burstWindowMs)
      && (ov.value.banThreshold.Some? ==> c.banThreshold == ov.value.banThreshold.value)
      && (ov.value.banThreshold.None? ==> c.banThreshold == base.banThreshold)
      && (ov.value.banMs.Some? ==> c.banMs == ov.value.banMs.value)
      && (ov.value.banMs.None? ==> c.banMs == base.banMs)
      && (ov.value.violationDecayMs.Some? ==> c.violationDecayMs == ov.value.violationDecayMs.value)
      && (ov.value.violationDecayMs.None? ==> c.violationDecayMs == base.violationDecayMs)
      && (ov.value.uaRotationThreshold.Some? ==> c.uaRotationThreshold == ov.value.uaRotationThreshold.value)
      && (ov.value.uaRotationThreshold.None? ==> c.uaRotationThreshold == base.uaRotationThreshold)
  {
    match ov
    case None => base
    case Some(o) =>
      Config(
        o.limit.GetOr(base.limit),
        o.windowMs.GetOr(base.windowMs),
        o.burstLimit.GetOr(base.burstLimit),
        o.burstWindowMs.GetOr(base.burstWindowMs),
        o.banThreshold.GetOr(base.banThreshold),
        o.banMs.GetOr(base.banMs),
        o.violationDecayMs.GetOr(base.violationDecayMs),
        o.uaRotationThreshold.GetOr(base.uaRotationThreshold))
  }

  /* ---------------- Request weight ---------------- */

  function LowerChar(c: char): char {
    if 'A' <= c <= 'Z' then (c as int + 32) as char else c
  }

  /** `toLowerCase`, on ASCII letters. */
  function Lower(s: string): (r: string)
    ensures |r| == |s| && forall i :: 0 <= i < |s| ==> r[i] == LowerChar(s[i])
  {
    seq(|s|, i requires 0 <= i < |s| => LowerChar(s[i]))
  }

  /** `pat` occurs in `s` starting at index `i`. */
  predicate MatchesAt(s: string, pat: string, i: int) {
    0 <= i && i + |pat| <= |s| && s[i..i + |pat|] == pat
  }

  /** `s.includes(pat)`. */
  predicate Contains(s: string, pat: string) {
    exists i :: 0 <= i <= |s| && MatchesAt(s, pat, i)
  }

  predicate ContainsAny(s: string, pats: seq<string>) {
    exists j :: 0 <= j < |pats| && Contains(s, pats[j])
  }

  const AutomationMarkers: seq<string> := ["bot", "crawler", "spider", "scrapy", "curl", "wget"]
  const AiMarkers: seq<string> := ["openai", "gpt", "anthropic", "claude", "ai"]

  /** `_weightFromUA`: automation tools cost 5, AI agents 10, everything else 1;
      the automation rule is tried first. */
  function Weight(ua: string): (w: nat)
    ensures w == 1 || w == 5 || w == 10
  {
    var l := Lower(ua);
    if ContainsAny(l, AutomationMarkers) then 5
    else if ContainsAny(l, AiMarkers) then 10
    else 1
  }

  /** Any automation marker, in any letter case, gives weight 5 whatever else
      the user agent contains. */
  lemma AutomationFirst(ua: string, marker: nat, at: nat)
    requires marker < |AutomationMarkers|
    requires at + |AutomationMarkers[marker]| <= |ua|
    requires Lower(ua[at..at + |AutomationMarkers[marker]|]) == AutomationMarkers[marker]
    ensures Weight(ua) == 5
  {
    var m := AutomationMarkers[marker];
    assert Lower(ua)[at..at + |m|] == Lower(ua[at..at + |m|]);
    assert MatchesAt(Lower(ua), m, at);
    assert Contains(Lower(ua), AutomationMarkers[marker]);
  }

  /** An AI marker in a user agent with no automation marker gives weight 10. */
  lemma AiSecond(ua: string, marker: nat, at: nat)
    requires !ContainsAny(Lower(ua), AutomationMarkers)
    requires marker < |AiMarkers|
    requires at + |AiMarkers[marker]| <= |ua|
    requires Lower(ua[at..at + |AiMarkers[marker]|]) == AiMarkers[marker]
    ensures Weight(ua) == 10
  {
    var m := AiMarkers[marker];
    assert Lower(ua)[at..at + |m|] == Lower(ua[at..at + |m|]);
    assert MatchesAt(Lower(ua), m, at);
    assert Contains(Lower(ua), AiMarkers[marker]);
  }

  /** The weight ignores letter case: lower-casing the user agent first, or
      changing the case of any letters, gives the same weight. */
  lemma WeightIgnoresCase(ua: string, other: string)
    requires |other| == |ua|
    requires forall i :: 0 <= i < |ua| ==> LowerChar(other[i]) == LowerChar(ua[i])
    ensures Weight(Lower(ua)) == Weight(ua)
    ensures Weight(other) == Weight(ua)
  {
    assert Lower(Lower(ua)) == Lower(ua);
    assert Lower(other) == Lower(ua);
  }

  /** Marker `m` of `markers` occurs in the user agent at index `at`, in any
      letter case. */
  predicate MarkerAt(ua: string, markers: seq<string>, m: int, at: int) {
    && 0 <= m < |markers|
    && 0 <= at && at + |markers[m]| <= |ua|
    && Lower(ua[at..at + |markers[m]|]) == markers[m]
  }

  /** Searching the lower-cased user agent finds a marker exactly when the
      marker occurs somewhere in the user agent in some letter case. */
  lemma FindsMarker(ua: string, markers: seq<string>)
    ensures ContainsAny(Lower(ua), markers) <==> exists m, at :: MarkerAt(ua, markers, m, at)
  {
    if ContainsAny(Lower(ua), markers) {
      var m :| 0 <= m < |markers| && Contains(Lower(ua), markers[m]);
      var at :| 0 <= at <= |ua| && MatchesAt(Lower(ua), markers[m], at);
      assert Lower(ua)[at..at + |markers[m]|] == Lower(ua[at..at + |markers[m]|]);
      assert MarkerAt(ua, markers, m, at);
    }
    if exists m, at :: MarkerAt(ua, markers, m, at) {
      var m, at :| MarkerAt(ua, markers, m, at);
      assert Lower(ua)[at..at + |markers[m]|] == Lower(ua[at..at + |markers[m]|]);
      assert MatchesAt(Lower(ua), markers[m], at);
    }
  }

  /** The weight of every user agent, in terms of where markers occur in it:
      5 exactly when an automation marker occurs, 10 exactly when an AI
      marker occurs and no automation marker does, and 1 exactly when no
      marker of either kind occurs. */
  lemma WeightCases(ua: string)
    ensures Weight(ua) == 5 <==> exists m, at :: MarkerAt(ua, AutomationMarkers, m, at)
    ensures Weight(ua) == 10 <==>
      (forall m, at :: !MarkerAt(ua, AutomationMarkers, m, at)) &&
      exists m, at :: MarkerAt(ua, AiMarkers, m, at)
    ensures Weight(ua) == 1 <==>
      (forall m, at :: !MarkerAt(ua, AutomationMarkers, m, at)) &&
      (forall m, at :: !MarkerAt(ua, AiMarkers, m, at))
  {
    FindsMarker(ua, AutomationMarkers);
    FindsMarker(ua, AiMarkers);
  }

  /** A user agent that names a bot and Claude is weighed as automation. */
  lemma ClaudeBotIsAutomation()
    ensures Weight("Mozilla/5.0 (compatible; ClaudeBot/1.0)") == 5
  {
    var ua := "Mozilla/5.0 (compatible; ClaudeBot/1.0)";
    AutomationFirst(ua, 0, 31);
  }

  /* ---------------- Records and keys ---------------- */

  datatype IdentityRecord = IdentityRecord(hits: seq<int>, burst: seq<int>, violations: int, lastViolation: int)

  datatype Rec =
    | IdRec(rec: IdentityRecord)
    | IpRec(uas: seq<string>)
    | BanRec(bannedUntil: int)

  /** The store as the limiter sees it: key to record. */
  type Db = map<string, Rec>

  datatype Reason = Ok | InvalidIdentity | AutoBan | UaRotation | BurstLimit | SlidingWindow
  {
    predicate Restricted() {
      !Ok?
    }
  }

  function IdentityKey(ns: string, ip: string, h: string): string {
    ns + ":" + ip + ":" + h
  }

  function IpKey(ns: string, ip: string): string {
    ns + ":ip:" + ip
  }

  function BanKey(ns: string, ip: string): string {
    ns + ":ban:" + ip
  }

  /** The three records a check touches live under three different keys. */
  predicate KeysApart(ns: string, ip: string, h: string) {
    && IdentityKey(ns, ip, h) != IpKey(ns, ip)
    && IdentityKey(ns, ip, h) != BanKey(ns, ip)
    && IpKey(ns, ip) != BanKey(ns, ip)
  }

  /** Keys of different kinds never collide for an ip that does not start with
      'i' or 'b' (every IPv4 address, and every IPv6 address whose text does
      not begin with the hex digit 'b'). */
  lemma KeysDistinct(ns: string, ip: string, ip': string, h: string)
    requires |ip| > 0 && ip[0] != 'i' && ip[0] != 'b'
    ensures IdentityKey(ns, ip, h) != IpKey(ns, ip')
    ensures IdentityKey(ns, ip, h) != BanKey(ns, ip')
    ensures IpKey(ns, ip) != BanKey(ns, ip')
    ensures KeysApart(ns, ip, h)
  {
    var n := |ns| + 1;
    assert IdentityKey(ns, ip, h)[n] == ip[0];
    assert IpKey(ns, ip')[n] == 'i';
    assert BanKey(ns, ip')[n] == 'b';
    assert IpKey(ns, ip)[n] == 'i';
  }

  /** `banned_until` of the ban record, if there is one. */
  function BanUntil(db: Db, k: string): Option<int> {
    if k in db && db[k].BanRec? then Some(db[k].bannedUntil) else None
  }

  /** The user-agent hashes recorded for an ip, `[]` when there is no record. */
  function KnownUas(db: Db, k: string): seq<string> {
    if k in db && db[k].IpRec? then db[k].uas else []
  }

  const NewRecord := IdentityRecord([], [], 0, 0)

  /** The identity record under `k`, or a fresh one: no hits, no burst, no
      violations. */
  function LoadRecord(db: Db, k: string): (r: IdentityRecord)
    ensures (k in db && db[k] == IdRec(r)) || (r == NewRecord && (k !in db || !db[k].IdRec?))
  {
    if k in db && db[k].IdRec? then db[k].rec else NewRecord
  }

  /* ---------------- The check ---------------- */

  /** Violation decay: forgive one violation once strictly more than
      `decayMs` has passed since the last one. */
  function Decay(r: IdentityRecord, now: int, decayMs: int): (d: IdentityRecord)
    ensures d.hits == r.hits && d.burst == r.burst
    ensures r.violations - 1 <= d.violations <= r.violations
    ensures r.violations >= 0 ==> d.violations >= 0
    ensures d.violations < r.violations <==> r.violations > 0 && now - r.lastViolation > decayMs
    ensures d.violations < r.violations ==> d.lastViolation == now
    ensures d.violations == r.violations ==> d == r
  {
    if r.violations > 0 && now - r.lastViolation > decayMs then
      r.(violations := r.violations - 1, lastViolation := now)
    else r
  }

  /** Keep the timestamps no older than `cutoff`, in order. */
  function Prune(ts: seq<int>, cutoff: int): (r: seq<int>)
    ensures Seqs.IsSubseq(r, ts)
    ensures forall i :: 0 <= i < |r| ==> r[i] >= cutoff
    ensures forall t :: t >= cutoff ==> multiset(r)[t] == multiset(ts)[t]
    ensures |r| <= |ts|
  {
    Seqs.Filter(ts, t => t >= cutoff)
  }

  /** `_violation`: count the violation, ban the ip once the count reaches the
      threshold, and store the record (hits and burst as pruned, not extended). */
  function Violation(db: Db, r: IdentityRecord, key: string, banKey: string, cfg: Config, now: int): (d: Db)
    ensures key in d && d[key] == IdRec(r.(violations := r.violations + 1, lastViolation := now))
    ensures banKey != key ==>
      (r.violations + 1 >= cfg.banThreshold <==> banKey in d && d[banKey] == BanRec(now + cfg.banMs))
      || (r.violations + 1 < cfg.banThreshold && banKey in db && db[banKey] == BanRec(now + cfg.banMs))
    ensures r.violations + 1 < cfg.banThreshold ==> d == db[key := d[key]]
    ensures forall k :: k != key && k != banKey ==> (k in d <==> k in db) && (k in d ==> d[k] == db[k])
  {
    var counted := r.(violations := r.violations + 1, lastViolation := now);
    var banned := if counted.violations >= cfg.banThreshold then db[banKey := BanRec(now + cfg.banMs)] else db;
    banned[key := IdRec(counted)]
  }

  /** The identity record as the check sees it before the limits: decayed and pruned. */
  function Prepare(db: Db, cfg: Config, key: string, now: int): (p: IdentityRecord)
    ensures |p.hits| <= |LoadRecord(db, key).hits| && |p.burst| <= |LoadRecord(db, key).burst|
    ensures LoadRecord(db, key).violations >= 0 ==> p.violations >= 0
    ensures p.hits == Prune(LoadRecord(db, key).hits, now - cfg.windowMs)
    ensures p.burst == Prune(LoadRecord(db, key).burst, now - cfg.burstWindowMs)
    ensures
      var d := Decay(LoadRecord(db, key), now, cfg.violationDecayMs);
      p.violations == d.violations && p.lastViolation == d.lastViolation
  {
    var rec := Decay(LoadRecord(db, key), now, cfg.violationDecayMs);
    rec.(hits := Prune(rec.hits, now - cfg.windowMs), burst := Prune(rec.burst, now - cfg.burstWindowMs))
  }

  /** Steps 4 to 9 for a request of weight `w`: decay, prune, then burst
      limit, sliding window or admit. */
  function Admit(db: Db, cfg: Config, key: string, banKey: string, w: nat, now: int): (r: (Db, Reason))
    ensures r.1 == Ok || r.1 == BurstLimit || r.1 == SlidingWindow
    ensures key in r.0 && r.0[key].IdRec?
    ensures forall k :: k != key && k != banKey ==> (k in r.0 <==> k in db) && (k in db ==> r.0[k] == db[k])
  {
    var pruned := Prepare(db, cfg, key, now);
    if |pruned.burst| + w > cfg.burstLimit then
      (Violation(db, pruned, key, banKey, cfg, now), BurstLimit)
    else if |pruned.hits| + w > cfg.limit then
      (Violation(db, pruned, key, banKey, cfg, now), SlidingWindow)
    else
      var admitted := pruned.(hits := pruned.hits + Seqs.Repeat(w, now), burst := pruned.burst + Seqs.Repeat(w, now));
      (db[key := IdRec(admitted)], Ok)
  }

  /** Whether an unexpired ban is recorded for the ip. */
  predicate Banned(db: Db, ns: string, ip: string, now: int) {
    var b := BanUntil(db, BanKey(ns, ip));
    b.Some? && b.value > now
  }

  /** Whether this user agent would be one too many for the ip. */
  predicate Rotates(db: Db, ns: string, ip: string, h: string, cfg: Config) {
    var uas := KnownUas(db, IpKey(ns, ip));
    h !in uas && |uas| + 1 > cfg.uaRotationThreshold
  }

  /** The store after the rotation step lets the request through: a new hash
      is recorded, a known one leaves the ip record as it was. */
  function RecordUa(db: Db, ipKey: string, h: string): (r: Db)
    ensures h in KnownUas(r, ipKey)
    ensures h in KnownUas(db, ipKey) ==> r == db
    ensures h !in KnownUas(db, ipKey) ==> ipKey in r && r[ipKey] == IpRec(KnownUas(db, ipKey) + [h])
    ensures forall k :: k != ipKey ==> (k in r <==> k in db) && (k in r ==> r[k] == db[k])
  {
    var uas := KnownUas(db, ipKey);
    if h in uas then db else db[ipKey := IpRec(uas + [h])]
  }

  /** `check(ip, ua)` as one atomic transition of the store. */
  function Check(db: Db, lim: Limiter, ov: Option<Override>, hash: string -> string,
                 ip: string, ua: string, now: int): (r: (Db, Reason))
    ensures r.1 == InvalidIdentity <==> ip == "" || ua == ""
    ensures r.1 == AutoBan <==> ip != "" && ua != "" && Banned(db, lim.namespace, ip, now)
    ensures r.1 == UaRotation <==>
      ip != "" && ua != "" && !Banned(db, lim.namespace, ip, now)
      && Rotates(db, lim.namespace, ip, hash(ua), ResolveConfig(lim.base, ov))
    ensures r.1 == InvalidIdentity || r.1 == AutoBan || r.1 == UaRotation ==> r.0 == db
    ensures forall k ::
      k != IdentityKey(lim.namespace, ip, hash(ua)) && k != IpKey(lim.namespace, ip) && k != BanKey(lim.namespace, ip) ==>
      (k in r.0 <==> k in db) && (k in db ==> r.0[k] == db[k])
  {
    if ip == "" || ua == "" then (db, InvalidIdentity)
    else
      var cfg := ResolveConfig(lim.base, ov);
      var h := hash(ua);
      var ns := lim.namespace;
      if Banned(db, ns, ip, now) then (db, AutoBan)
      else if Rotates(db, ns, ip, h, cfg) then (db, UaRotation)
      else Admit(RecordUa(db, IpKey(ns, ip), h), cfg, IdentityKey(ns, ip, h), BanKey(ns, ip), Weight(ua), now)
  }

  /* ---------------- Properties of a check ---------------- */


  /** Pruning keeps a list whose timestamps are all recent. */
  lemma PruneKeepsRecent(ts: seq<int>, cutoff: int)
    requires forall i :: 0 <= i < |ts| ==> ts[i] >= cutoff
    ensures Prune(ts, cutoff) == ts
  {
    Seqs.FilterKeepsAll(ts, t => t >= cutoff);
  }

  /** Which limit rejects the request: the burst limit is checked first, and a
      request within both limits is admitted. */
  lemma LimitOrder(db: Db, cfg: Config, key: string, banKey: string, w: nat, now: int)
    ensures
      var p := Prepare(db, cfg, key, now);
      var reason := Admit(db, cfg, key, banKey, w, now).1;
      && (reason == BurstLimit <==> |p.burst| + w > cfg.burstLimit)
      && (reason == SlidingWindow <==> |p.burst| + w <= cfg.burstLimit && |p.hits| + w > cfg.limit)
      && (reason == Ok <==> |p.burst| + w <= cfg.burstLimit && |p.hits| + w <= cfg.limit)
  {
  }

  /** On a rejection the violation count is the decayed count plus exactly one,
      `last_violation` is `now`, and hits and burst are stored pruned but not
      extended; on admission exactly `w` copies of `now` are appended to each
      list and the decayed count is kept. */
  lemma RecordAccounting(db: Db, cfg: Config, key: string, banKey: string, w: nat, now: int)
    ensures
      var p := Prepare(db, cfg, key, now);
      var r := Admit(db, cfg, key, banKey, w, now);
      && (r.1 != Ok ==> r.0[key].rec == p.(violations := p.violations + 1, lastViolation := now))
      && (r.1 == Ok ==> r.0[key].rec == p.(hits := p.hits + Seqs.Repeat(w, now), burst := p.burst + Seqs.Repeat(w, now)))
      && (r.1 == Ok ==> |r.0[key].rec.hits| <= cfg.limit && |r.0[key].rec.burst| <= cfg.burstLimit)
  {
  }

  /** The ban is per ip: while it lasts every user agent is refused with
      `auto_ban` and nothing is written; at `now == banned_until` it has
      expired. */
  lemma BanIsPerIp(db: Db, lim: Limiter, ov: Option<Override>, hash: string -> string, ip: string, ua: string, now: int)
    requires ip != "" && ua != ""
    ensures BanUntil(db, BanKey(lim.namespace, ip)) == Some(now) ==>
      Check(db, lim, ov, hash, ip, ua, now).1 != AutoBan
    ensures Banned(db, lim.namespace, ip, now) ==> Check(db, lim, ov, hash, ip, ua, now) == (db, AutoBan)
  {
  }

  /** An ip whose text cannot be confused with the `ip:` and `ban:` key kinds. */
  predicate PlainIp(ip: string) {
    |ip| > 0 && ip[0] != 'i' && ip[0] != 'b'
  }

  /** A check of another ip leaves this ip's ban record as it was. */
  lemma BanPersists(db: Db, lim: Limiter, ov: Option<Override>, hash: string -> string,
                    ip: string, ip': string, ua: string, now: int)
    requires PlainIp(ip') && ip' != ip
    ensures BanUntil(Check(db, lim, ov, hash, ip', ua, now).0, BanKey(lim.namespace, ip)) == BanUntil(db, BanKey(lim.namespace, ip))
    ensures forall t :: Banned(db, lim.namespace, ip, t) ==> Banned(Check(db, lim, ov, hash, ip', ua, now).0, lim.namespace, ip, t)
  {
    var ns := lim.namespace;
    KeysDistinct(ns, ip', ip, hash(ua));
    assert BanKey(ns, ip')[|ns| + 5..] == ip';
    assert BanKey(ns, ip)[|ns| + 5..] == ip;
  }

  /** A request as the limiter receives it. */
  datatype Request = Request(ip: string, ua: string, now: int)

  /** A sequence of checks run one after another on the store, with the
      reason each one returned. */
  function Replay(db: Db, lim: Limiter, ov: Option<Override>, hash: string -> string, reqs: seq<Request>): (r: (Db, seq<Reason>))
    ensures |r.1| == |reqs|
    ensures forall j :: 0 <= j < |reqs| ==> (r.1[j] == InvalidIdentity <==> reqs[j].ip == "" || reqs[j].ua == "")
    decreases |reqs|
  {
    if reqs == [] then (db, [])
    else
      var q := reqs[0];
      var (db1, reason) := Check(db, lim, ov, hash, q.ip, q.ua, q.now);
      var rest := Replay(db1, lim, ov, hash, reqs[1..]);
      (rest.0, [reason] + rest.1)
  }

  /** Once an ip is banned until `until`, every later check of that ip with a
      user agent and a time before `until` returns `auto_ban`, whatever other
      ips are checked in between, and the ban record survives them all. */
  lemma {:induction false} BanHolds(db: Db, lim: Limiter, ov: Option<Override>, hash: string -> string,
                                    ip: string, until: int, reqs: seq<Request>)
    requires BanUntil(db, BanKey(lim.namespace, ip)) == Some(until)
    requires forall j :: 0 <= j < |reqs| ==> PlainIp(reqs[j].ip) && reqs[j].now < until
    ensures BanUntil(Replay(db, lim, ov, hash, reqs).0, BanKey(lim.namespace, ip)) == Some(until)
    ensures forall j :: 0 <= j < |reqs| && reqs[j].ip == ip && reqs[j].ua != "" ==>
      Replay(db, lim, ov, hash, reqs).1[j] == AutoBan
    decreases |reqs|
  {
    if reqs != [] {
      var q := reqs[0];
      var db1 := Check(db, lim, ov, hash, q.ip, q.ua, q.now).0;
      if q.ip == ip {
        if q.ua != "" {
          BanIsPerIp(db, lim, ov, hash, ip, q.ua, q.now);
        }
      } else {
        BanPersists(db, lim, ov, hash, ip, q.ip, q.ua, q.now);
      }
      assert BanUntil(db1, BanKey(lim.namespace, ip)) == Some(until);
      BanHolds(db1, lim, ov, hash, ip, until, reqs[1..]);
      var r := Replay(db, lim, ov, hash, reqs);
      var rest := Replay(db1, lim, ov, hash, reqs[1..]);
      assert r.1 == [Check(db, lim, ov, hash, q.ip, q.ua, q.now).1] + rest.1;
      forall j | 0 <= j < |reqs| && reqs[j].ip == ip && reqs[j].ua != ""
        ensures r.1[j] == AutoBan
      {
        if j > 0 {
          assert reqs[1..][j - 1] == reqs[j];
        }
      }
    }
  }

  /** Decay forgives at most one violation per call, and it does so only when
      the record has violations and more than `violationDecayMs` has passed. */
  lemma DecayAtMostOne(db: Db, cfg: Config, key: string, banKey: string, w: nat, now: int)
    ensures
      var before := LoadRecord(db, key);
      var after := Admit(db, cfg, key, banKey, w, now).0[key].rec.violations;
      && before.violations - 1 <= after <= before.violations + 1
      && (after < before.violations ==> before.violations > 0 && now - before.lastViolation > cfg.violationDecayMs)
  {
    RecordAccounting(db, cfg, key, banKey, w, now);
  }

  /** A ban `now + banMs` is written exactly when a rejection brings the
      violation count to the threshold; otherwise the ban record is untouched. */
  lemma BanIffThreshold(db: Db, cfg: Config, key: string, banKey: string, w: nat, now: int)
    requires banKey != key
    ensures
      var r := Admit(db, cfg, key, banKey, w, now);
      var banning := r.1 != Ok && r.0[key].rec.violations >= cfg.banThreshold;
      && (banning ==> banKey in r.0 && r.0[banKey] == BanRec(now + cfg.banMs))
      && (!banning ==> (banKey in r.0 <==> banKey in db) && (banKey in db ==> r.0[banKey] == db[banKey]))
  {
    RecordAccounting(db, cfg, key, banKey, w, now);
  }

  /** A request that passes the identity, ban and rotation checks is decided
      by `Admit` on the store with its user agent recorded. */
  lemma CheckAdmits(db: Db, lim: Limiter, ov: Option<Override>, hash: string -> string, ip: string, ua: string, now: int)
    requires ip != "" && ua != ""
    requires !Banned(db, lim.namespace, ip, now)
    requires !Rotates(db, lim.namespace, ip, hash(ua), ResolveConfig(lim.base, ov))
    ensures Check(db, lim, ov, hash, ip, ua, now) ==
      Admit(RecordUa(db, IpKey(lim.namespace, ip), hash(ua)), ResolveConfig(lim.base, ov),
            IdentityKey(lim.namespace, ip, hash(ua)), BanKey(lim.namespace, ip), Weight(ua), now)
  {
  }

  /** End to end: a request past the identity, ban and rotation steps is
      refused for its burst exactly when its weight on top of the identity's
      stored burst timestamps no older than `burstWindowMs` exceeds
      `burstLimit`; otherwise for the window exactly when its weight on top of
      the stored hits no older than `windowMs` exceeds `limit`; and it is
      admitted exactly when it fits both. `Prepare` is the stored record with
      each list pruned at its own window. */
  lemma CheckDecides(db: Db, lim: Limiter, ov: Option<Override>, hash: string -> string, ip: string, ua: string, now: int)
    requires ip != "" && ua != ""
    requires !Banned(db, lim.namespace, ip, now)
    requires !Rotates(db, lim.namespace, ip, hash(ua), ResolveConfig(lim.base, ov))
    requires KeysApart(lim.namespace, ip, hash(ua))
    ensures
      var cfg := ResolveConfig(lim.base, ov);
      var p := Prepare(db, cfg, IdentityKey(lim.namespace, ip, hash(ua)), now);
      var reason := Check(db, lim, ov, hash, ip, ua, now).1;
      && (reason == BurstLimit <==> |p.burst| + Weight(ua) > cfg.burstLimit)
      && (reason == SlidingWindow <==> |p.burst| + Weight(ua) <= cfg.burstLimit && |p.hits| + Weight(ua) > cfg.limit)
      && (reason == Ok <==> |p.burst| + Weight(ua) <= cfg.burstLimit && |p.hits| + Weight(ua) <= cfg.limit)
  {
    var cfg := ResolveConfig(lim.base, ov);
    var ns := lim.namespace;
    var key := IdentityKey(ns, ip, hash(ua));
    var db1 := RecordUa(db, IpKey(ns, ip), hash(ua));
    CheckAdmits(db, lim, ov, hash, ip, ua, now);
    RecordUaKeepsRecord(db, IpKey(ns, ip), hash(ua), key);
    assert Prepare(db1, cfg, key, now) == Prepare(db, cfg, key, now);
    LimitOrder(db1, cfg, key, BanKey(ns, ip), Weight(ua), now);
  }

  /** Recording a user agent leaves every other key's identity record as it was. */
  lemma RecordUaKeepsRecord(db: Db, ipKey: string, h: string, key: string)
    requires key != ipKey
    ensures LoadRecord(RecordUa(db, ipKey, h), key) == LoadRecord(db, key)
  {
  }

  /** The rotation step: a new hash within the threshold is appended to the
      ip's list once; a known hash leaves the ip record as it was. */
  lemma RotationBookkeeping(db: Db, ipKey: string, key: string, banKey: string, cfg: Config, h: string, w: nat, now: int)
    requires ipKey != key && ipKey != banKey
    ensures
      var r := Admit(RecordUa(db, ipKey, h), cfg, key, banKey, w, now);
      var uas := KnownUas(db, ipKey);
      && (h !in uas ==> ipKey in r.0 && r.0[ipKey] == IpRec(uas + [h]))
      && (h in uas ==> (ipKey in r.0 <==> ipKey in db) && (ipKey in db ==> r.0[ipKey] == db[ipKey]))
  {
  }

  /* ---------------- The store invariant ---------------- */

  predicate Distinct(s: seq<string>) {
    forall i, j :: 0 <= i < j < |s| ==> s[i] != s[j]
  }

  /** Every stored record respects the configuration's caps. */
  predicate RecOk(r: Rec, cfg: Config) {
    match r
    case IdRec(x) => |x.hits| <= cfg.limit && |x.burst| <= cfg.burstLimit && x.violations >= 0
    case IpRec(uas) => |uas| <= cfg.uaRotationThreshold && Distinct(uas)
    case BanRec(_) => true
  }

  predicate Inv(db: Db, cfg: Config) {
    forall k :: k in db ==> RecOk(db[k], cfg)
  }

  /** Recording a user agent that passed the rotation check keeps the invariant. */
  lemma RecordUaKeepsInv(db: Db, ipKey: string, h: string, cfg: Config)
    requires Inv(db, cfg)
    requires h in KnownUas(db, ipKey) || |KnownUas(db, ipKey)| + 1 <= cfg.uaRotationThreshold
    ensures Inv(RecordUa(db, ipKey, h), cfg)
  {
    var uas := KnownUas(db, ipKey);
    if h !in uas {
      assert Distinct(uas) by {
        if ipKey in db && db[ipKey].IpRec? {
          assert RecOk(db[ipKey], cfg);
        }
      }
      assert RecOk(IpRec(uas + [h]), cfg);
    }
  }

  /** Admitting or rejecting keeps the invariant when the caps are non-negative. */
  lemma AdmitKeepsInv(db: Db, cfg: Config, key: string, banKey: string, w: nat, now: int)
    requires Inv(db, cfg) && cfg.limit >= 0 && cfg.burstLimit >= 0
    ensures Inv(Admit(db, cfg, key, banKey, w, now).0, cfg)
  {
    var loaded := LoadRecord(db, key);
    assert RecOk(IdRec(loaded), cfg) by {
      if key in db && db[key].IdRec? {
        assert RecOk(db[key], cfg);
      }
    }
    var p := Prepare(db, cfg, key, now);
    var r := Admit(db, cfg, key, banKey, w, now);
    RecordAccounting(db, cfg, key, banKey, w, now);
    if r.1 == Ok {
      assert r.0 == db[key := r.0[key]];
    } else {
      ViolationKeepsInv(db, p, key, banKey, cfg, now);
    }
  }

  /** Storing a counted violation keeps the invariant when the pruned lists
      were already within their caps. */
  lemma ViolationKeepsInv(db: Db, p: IdentityRecord, key: string, banKey: string, cfg: Config, now: int)
    requires Inv(db, cfg) && RecOk(IdRec(p), cfg)
    ensures Inv(Violation(db, p, key, banKey, cfg, now), cfg)
  {
    var d := Violation(db, p, key, banKey, cfg, now);
    forall k | k in d
      ensures RecOk(d[k], cfg)
    {
      if k != key && k != banKey {
        assert d[k] == db[k];
      }
    }
  }

  /** Under a fixed configuration with non-negative caps, every check keeps
      stored windows within their caps, ip lists duplicate-free and within the
      rotation threshold, and violation counts non-negative. */
  lemma {:induction false} CheckPreservesInv(db: Db, lim: Limiter, ov: Option<Override>, hash: string -> string, ip: string, ua: string, now: int)
    requires Inv(db, ResolveConfig(lim.base, ov))
    requires ResolveConfig(lim.base, ov).limit >= 0 && ResolveConfig(lim.base, ov).burstLimit >= 0
    ensures Inv(Check(db, lim, ov, hash, ip, ua, now).0, ResolveConfig(lim.base, ov))
  {
    var cfg := ResolveConfig(lim.base, ov);
    var ns := lim.namespace;
    if ip != "" && ua != "" && !Banned(db, ns, ip, now) && !Rotates(db, ns, ip, hash(ua), cfg) {
      CheckAdmits(db, lim, ov, hash, ip, ua, now);
      var db1 := RecordUa(db, IpKey(ns, ip), hash(ua));
      RecordUaKeepsInv(db, IpKey(ns, ip), hash(ua), cfg);
      AdmitKeepsInv(db1, cfg, IdentityKey(ns, ip, hash(ua)), BanKey(ns, ip), Weight(ua), now);
    }
  }

  /* ---------------- The check as written, with a live-reference store ---------------- */

  /** The check as the code runs it against a store whose `get` hands out the
      stored object itself: `ipRecord.uas.push(uaHash)` runs before the
      threshold test, so a rejected hash is already in the stored list. */
  function CheckAsWritten(db: Db, lim: Limiter, ov: Option<Override>, hash: string -> string,
                          ip: string, ua: string, now: int): (r: (Db, Reason))
    ensures r.1 == Check(db, lim, ov, hash, ip, ua, now).1
    ensures r.1 != UaRotation ==> r == Check(db, lim, ov, hash, ip, ua, now)
    ensures
      var ik := IpKey(lim.namespace, ip);
      r.1 == UaRotation && ik in db && db[ik].IpRec? ==>
        && hash(ua) in KnownUas(r.0, ik)
        && |KnownUas(r.0, ik)| > ResolveConfig(lim.base, ov).uaRotationThreshold
  {
    var r := Check(db, lim, ov, hash, ip, ua, now);
    var ik := IpKey(lim.namespace, ip);
    if r.1 == UaRotation && ik in db && db[ik].IpRec? then
      (db[ik := IpRec(db[ik].uas + [hash(ua)])], UaRotation)
    else r
  }

  /** As written, a rejected user agent is let in on its next request and the
      ip's list grows past the threshold; the modelled check rejects it again
      and keeps the list within the threshold. */
  lemma RotationLeak()
    ensures
      var lim := Limiter(Config(100, 60000, 20, 1000, 5, 86400000, 3600000, 1), "throttle");
      var hash := (s: string) => s;
      var db: Db := map["throttle:ip:10.0.0.1" := IpRec(["A"])];
      var first := CheckAsWritten(db, lim, None, hash, "10.0.0.1", "B", 1000);
      var second := CheckAsWritten(first.0, lim, None, hash, "10.0.0.1", "B", 1001);
      var fixed1 := Check(db, lim, None, hash, "10.0.0.1", "B", 1000);
      var fixed2 := Check(fixed1.0, lim, None, hash, "10.0.0.1", "B", 1001);
      && Inv(db, lim.base)
      && first.1 == UaRotation && !Inv(first.0, lim.base)
      && second.1 != UaRotation
      && fixed1.1 == UaRotation && fixed2.1 == UaRotation
  {
    var lim := Limiter(Config(100, 60000, 20, 1000, 5, 86400000, 3600000, 1), "throttle");
    var hash := (s: string) => s;
    var db: Db := map["throttle:ip:10.0.0.1" := IpRec(["A"])];
    var ik := IpKey("throttle", "10.0.0.1");
    assert ik == "throttle:ip:10.0.0.1";
    var bk := BanKey("throttle", "10.0.0.1");
    assert bk != ik by {
      KeysDistinct("throttle", "10.0.0.1", "10.0.0.1", "B");
    }
    assert !Banned(db, "throttle", "10.0.0.1", 1000);
    assert Rotates(db, "throttle", "10.0.0.1", "B", lim.base);
    assert hash("B") == "B";
    assert Check(db, lim, None, hash, "10.0.0.1", "B", 1000).1 == UaRotation;
    assert db[ik].uas + [hash("B")] == ["A", "B"];
    var first := CheckAsWritten(db, lim, None, hash, "10.0.0.1", "B", 1000);
    assert first.0 == db[ik := IpRec(["A", "B"])];
    assert !RecOk(first.0[ik], lim.base);
    assert !Banned(first.0, "throttle", "10.0.0.1", 1001);
    assert KnownUas(first.0, ik) == ["A", "B"];
    assert !Rotates(first.0, "throttle", "10.0.0.1", "B", lim.base);
  }
}
