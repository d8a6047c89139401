/**
  Click-velocity fraud detection for ad clicks (src/middleware/ad-defender.ts).

  A module-level dictionary maps each client key to the number of consecutive
  rapid clicks and the time of the last click. A click less than
  MINIMUM_CLICK_INTERVAL_MS after the previous one extends the streak, any
  other click restarts it at 1; a streak of MAX_CLICKS is reported as a bot
  (general invalid traffic). Unless the click is reported, every record idle
  for more than TRACKER_EXPIRATION_TIME is then deleted.
 */
module AdDefender {
  import opened Http

  const MAX_CLICKS: int := 50
  const MINIMUM_CLICK_INTERVAL_MS: int := 500
  const TRACKER_EXPIRATION_TIME: int := 5000

  /** What the tracker remembers about one client key: `{count, lastClick}`. */
  datatype ClickRecord = ClickRecord(count: int, lastClick: int)

  type Tracker = map<string, ClickRecord>

  /** The result of `validateAdClick` together with the tracker it leaves. */
  datatype ClickOutcome = ClickOutcome(tracker: Tracker, isBot: bool)

  /** The key clicks are counted under:
      `req.headers["x-forwarded-for"]?.toString() || req.ip`. An empty header
      is falsy, so it falls back to the connection address too. */
  function ClientKey(req: Request): (key: string)
    ensures req.forwardedFor.Some? && req.forwardedFor.value != "" ==> key == req.forwardedFor.value
    ensures key == req.ip || (req.forwardedFor == Some(key) && key != "")
  {
    match req.forwardedFor
    case Some(h) => if h != "" then h else req.ip
    case None => req.ip
  }

  /** A record idle for strictly more than TRACKER_EXPIRATION_TIME at `now`. */
  predicate Stale(r: ClickRecord, now: int)
  {
    now - r.lastClick > TRACKER_EXPIRATION_TIME
  }

  /** A click at `now` strictly less than MINIMUM_CLICK_INTERVAL_MS after the
      one `r` remembers. */
  predicate Rapid(r: ClickRecord, now: int)
  {
    now - r.lastClick < MINIMUM_CLICK_INTERVAL_MS
  }

  /** Every record holds a streak of at least one click. */
  ghost predicate Positive(m: Tracker)
  {
    forall ip :: ip in m ==> m[ip].count >= 1
  }

  /** The tracker once `cleanupClickTracker` has run at time `now`. */
  function Pruned(m: Tracker, now: int): (p: Tracker)
    ensures p.Keys <= m.Keys
    ensures forall ip :: ip in p ==> p[ip] == m[ip]
  {
    map ip | ip in m && !Stale(m[ip], now) :: m[ip]
  }

  /** The record of `key` once a click at `now` has been registered. */
  function Registered(m: Tracker, key: string, now: int): (r: ClickRecord)
    ensures r.lastClick == now
    ensures r.count == 1 || (key in m && Rapid(m[key], now) && r.count == m[key].count + 1)
  {
    if key !in m then ClickRecord(1, now)
    else ClickRecord(if Rapid(m[key], now) then m[key].count + 1 else 1, now)
  }

  /** `validateAdClick` on tracker `m`: the click of `key` at `now` is
      registered; a streak that reaches MAX_CLICKS on an existing record is
      reported and the call ends there; otherwise the tracker is cleaned up at
      `cleanupNow`, the handler's second reading of the clock. */
  function Click(m: Tracker, key: string, now: int, cleanupNow: int): (o: ClickOutcome)
    ensures o.tracker.Keys <= m.Keys + {key}
    ensures o.isBot ==> key in m && o.tracker.Keys == m.Keys
    ensures key in o.tracker ==> o.tracker[key].lastClick == now
  {
    var r := Registered(m, key, now);
    if key in m && r.count >= MAX_CLICKS then ClickOutcome(m[key := r], true)
    else ClickOutcome(Pruned(m[key := r], cleanupNow), false)
  }

  /** The record logged when a bot is reported. */
  function GivtRecord(req: Request): (log: LogRecord)
    ensures log.ip == ClientKey(req) && log.userAgent != ""
    ensures log.blockType == "Ad Fraud" && log.remainingRequests.None? && log.windowMs.None?
  {
    LogRecord(ClientKey(req), req.httpMethod, req.originalUrl, UserAgentOf(req),
              "Ad Fraud", "GIVT detected: too many fast clicks", None, None)
  }

  // ---------------------------------------------------------------------------
  // What one click does
  // ---------------------------------------------------------------------------

  /** A first click from a key creates `{count: 1, lastClick: now}` and is
      never reported, although no threshold check runs on that path. */
  lemma FirstClickIsFresh(m: Tracker, key: string, now: int, cleanupNow: int)
    requires key !in m
    ensures !Click(m, key, now, cleanupNow).isBot
    ensures cleanupNow - now <= TRACKER_EXPIRATION_TIME ==>
              key in Click(m, key, now, cleanupNow).tracker &&
              Click(m, key, now, cleanupNow).tracker[key] == ClickRecord(1, now)
  {
  }

  /** The clicking key's record after the call: its streak grows by one
      exactly when the gap is strictly below MINIMUM_CLICK_INTERVAL_MS and is
      otherwise exactly 1, and its last click is `now`. It survives the
      cleanup whenever the two clock readings are at most
      TRACKER_EXPIRATION_TIME apart. */
  lemma ClickerRecord(m: Tracker, key: string, now: int, cleanupNow: int)
    requires Click(m, key, now, cleanupNow).isBot || cleanupNow - now <= TRACKER_EXPIRATION_TIME
    ensures var t := Click(m, key, now, cleanupNow).tracker;
      && key in t
      && t[key].lastClick == now
      && t[key].count == (if key in m && now - m[key].lastClick < MINIMUM_CLICK_INTERVAL_MS
                          then m[key].count + 1 else 1)
  {
  }

  /** A gap of exactly MINIMUM_CLICK_INTERVAL_MS restarts the streak. */
  lemma BoundaryGapResets(m: Tracker, key: string)
    requires key in m
    ensures Registered(m, key, m[key].lastClick + MINIMUM_CLICK_INTERVAL_MS).count == 1
  {
  }

  /** A click is reported exactly when its key already had a record, the gap
      is strictly below MINIMUM_CLICK_INTERVAL_MS and the streak before it was
      at least MAX_CLICKS - 1: a restarted streak can never be reported. */
  lemma BotIff(m: Tracker, key: string, now: int, cleanupNow: int)
    ensures Click(m, key, now, cleanupNow).isBot <==>
              key in m && Rapid(m[key], now) && m[key].count >= MAX_CLICKS - 1
  {
  }

  /** A reported click returns before cleanup: every other key keeps its
      record exactly, stale or not. */
  lemma BotSkipsCleanup(m: Tracker, key: string, now: int, cleanupNow: int)
    requires Click(m, key, now, cleanupNow).isBot
    ensures var t := Click(m, key, now, cleanupNow).tracker;
      t.Keys == m.Keys && forall ip :: ip in m && ip != key ==> t[ip] == m[ip]
  {
  }

  /** An unreported click deletes exactly the other records idle for strictly
      more than TRACKER_EXPIRATION_TIME at the cleanup time, and leaves the
      surviving ones untouched. */
  lemma CleanupRemovesExactlyStale(m: Tracker, key: string, now: int, cleanupNow: int)
    requires !Click(m, key, now, cleanupNow).isBot
    ensures var t := Click(m, key, now, cleanupNow).tracker;
      forall ip :: ip != key ==>
        (ip in t <==> ip in m && !Stale(m[ip], cleanupNow)) &&
        (ip in t ==> t[ip] == m[ip])
  {
  }

  /** Apart from deletions, only the clicking key's record is created or
      changed. */
  lemma OnlyClickerChanges(m: Tracker, key: string, now: int, cleanupNow: int)
    ensures var t := Click(m, key, now, cleanupNow).tracker;
      t.Keys <= m.Keys + {key} &&
      forall ip :: ip in t && ip != key ==> t[ip] == m[ip]
  {
  }

  /** Every record keeps a streak of at least one click. */
  lemma ClickKeepsPositive(m: Tracker, key: string, now: int, cleanupNow: int)
    requires Positive(m)
    ensures Positive(Click(m, key, now, cleanupNow).tracker)
  {
  }

  // ---------------------------------------------------------------------------
  // Runs of clicks from one key
  // ---------------------------------------------------------------------------

  /** The verdicts of successive clicks from `key` at the given times, each
      call reading the clock once (cleanup at the instant of the click), and
      the tracker left at the end. */
  function Replay(m: Tracker, key: string, times: seq<int>): (r: (Tracker, seq<bool>))
    ensures |r.1| == |times|
    decreases |times|
  {
    if times == [] then (m, [])
    else
      var o := Click(m, key, times[0], times[0]);
      var rest := Replay(o.tracker, key, times[1..]);
      (rest.0, [o.isBot] + rest.1)
  }

  /** Clicks each strictly less than MINIMUM_CLICK_INTERVAL_MS after the one
      before. */
  ghost predicate RapidGaps(times: seq<int>)
  {
    forall i :: 0 < i < |times| ==> times[i] - times[i - 1] < MINIMUM_CLICK_INTERVAL_MS
  }

  /** Clicks each at least MINIMUM_CLICK_INTERVAL_MS after the one before. */
  ghost predicate SlowGaps(times: seq<int>)
  {
    forall i :: 0 < i < |times| ==> times[i] - times[i - 1] >= MINIMUM_CLICK_INTERVAL_MS
  }

  /** `n` click times starting at `start`, `gap` apart. */
  function Spaced(start: int, gap: int, n: nat): (times: seq<int>)
    ensures |times| == n
    ensures forall i :: 0 <= i < n ==> times[i] == start + gap * i
  {
    seq(n, i => start + gap * i)
  }

  /** A rapid run continuing a streak of `c` clicks: the i-th click of the run
      is reported exactly when the streak it makes, c + i + 1, reaches
      MAX_CLICKS. */
  lemma {:induction false} RapidRunContinues(m: Tracker, key: string, times: seq<int>)
    requires key in m
    requires times != [] ==> Rapid(m[key], times[0])
    requires RapidGaps(times)
    ensures forall i :: 0 <= i < |times| ==>
              Replay(m, key, times).1[i] == (m[key].count + i + 1 >= MAX_CLICKS)
    decreases |times|
  {
    if times != [] {
      var o := Click(m, key, times[0], times[0]);
      assert key in o.tracker && o.tracker[key] == ClickRecord(m[key].count + 1, times[0]);
      var tail := times[1..];
      assert RapidGaps(tail) by {
        forall i | 0 < i < |tail| ensures tail[i] - tail[i - 1] < MINIMUM_CLICK_INTERVAL_MS {
          assert tail[i] == times[i + 1] && tail[i - 1] == times[i];
        }
      }
      assert tail != [] ==> tail[0] == times[1];
      RapidRunContinues(o.tracker, key, tail);
    }
  }

  /** A rapid run from a key with no record: the i-th click is reported
      exactly when i + 1 reaches MAX_CLICKS. */
  lemma RapidRunFlagsAtMaxClicks(m: Tracker, key: string, times: seq<int>)
    requires key !in m
    requires RapidGaps(times)
    ensures forall i :: 0 <= i < |times| ==> Replay(m, key, times).1[i] == (i + 1 >= MAX_CLICKS)
  {
    if times != [] {
      var o := Click(m, key, times[0], times[0]);
      assert key in o.tracker && o.tracker[key] == ClickRecord(1, times[0]);
      var tail := times[1..];
      assert RapidGaps(tail) by {
        forall i | 0 < i < |tail| ensures tail[i] - tail[i - 1] < MINIMUM_CLICK_INTERVAL_MS {
          assert tail[i] == times[i + 1] && tail[i - 1] == times[i];
        }
      }
      assert tail != [] ==> tail[0] == times[1];
      RapidRunContinues(o.tracker, key, tail);
    }
  }

  /** Fifty clicks 100 ms apart from a new key: only the fiftieth is
      reported. */
  lemma FiftyClicks100msApartFlagOnFiftieth(m: Tracker, key: string, start: int)
    requires key !in m
    ensures var v := Replay(m, key, Spaced(start, 100, 50)).1;
      |v| == 50 && v[49] && forall i :: 0 <= i < 49 ==> !v[i]
  {
    RapidRunFlagsAtMaxClicks(m, key, Spaced(start, 100, 50));
  }

  /** Clicks at least MINIMUM_CLICK_INTERVAL_MS apart, the first of them not
      rapid either, are never reported. */
  lemma {:induction false} SlowClicksNeverFlag(m: Tracker, key: string, times: seq<int>)
    requires key in m && times != [] ==> !Rapid(m[key], times[0])
    requires SlowGaps(times)
    ensures forall i :: 0 <= i < |times| ==> !Replay(m, key, times).1[i]
    decreases |times|
  {
    if times != [] {
      var o := Click(m, key, times[0], times[0]);
      assert !o.isBot;
      assert key in o.tracker && o.tracker[key] == ClickRecord(1, times[0]);
      var tail := times[1..];
      assert SlowGaps(tail) by {
        forall i | 0 < i < |tail| ensures tail[i] - tail[i - 1] >= MINIMUM_CLICK_INTERVAL_MS {
          assert tail[i] == times[i + 1] && tail[i - 1] == times[i];
        }
      }
      assert tail != [] ==> tail[0] == times[1];
      SlowClicksNeverFlag(o.tracker, key, tail);
    }
  }

  /** Fifty clicks 600 ms apart from a new key are never reported. */
  lemma FiftyClicks600msApartNeverFlag(m: Tracker, key: string, start: int)
    requires key !in m
    ensures var v := Replay(m, key, Spaced(start, 600, 50)).1;
      |v| == 50 && forall i :: 0 <= i < 50 ==> !v[i]
  {
    SlowClicksNeverFlag(m, key, Spaced(start, 600, 50));
  }

  // ---------------------------------------------------------------------------
  // The module-level tracker, updated in place
  // ---------------------------------------------------------------------------

  /** The `clickTracker` dictionary with the two functions that update it. */
  class ClickTracker {
    var entries: Tracker

    ghost predicate Valid()
      reads this
    {
      Positive(entries)
    }

    constructor ()
      ensures Valid() && entries == map[]
    {
      entries := map[];
    }

    /** `cleanupClickTracker`: visits every key and deletes the records idle
        for strictly more than TRACKER_EXPIRATION_TIME at `currentTime`. */
    method CleanupClickTracker(currentTime: int)
      requires Valid()
      modifies this
      ensures Valid()
      ensures entries == Pruned(old(entries), currentTime)
    {
      var pending := entries.Keys;
      while pending != {}
        invariant pending <= old(entries).Keys
        invariant forall ip :: ip in entries <==>
                    ip in old(entries) && (ip in pending || !Stale(old(entries)[ip], currentTime))
        invariant forall ip :: ip in entries ==> entries[ip] == old(entries)[ip]
        decreases pending
      {
        var ip :| ip in pending;
        if currentTime - entries[ip].lastClick > TRACKER_EXPIRATION_TIME {
          entries := entries - {ip};
        }
        pending := pending - {ip};
      }
    }

    /** `validateAdClick`: registers the click of the request's key at
        `currentTime`, reports a bot (and logs it) when the streak reaches
        MAX_CLICKS, and otherwise cleans up at `cleanupTime`. */
    method ValidateAdClick(req: Request, currentTime: int, cleanupTime: int)
      returns (isBot: bool, log: Option<LogRecord>)
      requires Valid()
      modifies this
      ensures Valid()
      ensures var o := Click(old(entries), ClientKey(req), currentTime, cleanupTime);
        entries == o.tracker && isBot == o.isBot
      ensures log == if isBot then Some(GivtRecord(req)) else None
    {
      var ip := ClientKey(req);
      if ip !in entries {
        entries := entries[ip := ClickRecord(1, currentTime)];
      } else {
        var timeSinceLastClick := currentTime - entries[ip].lastClick;
        var count := if timeSinceLastClick < MINIMUM_CLICK_INTERVAL_MS then entries[ip].count + 1 else 1;
        entries := entries[ip := ClickRecord(count, currentTime)];
        if count >= MAX_CLICKS {
          return true, Some(GivtRecord(req));
        }
      }
      CleanupClickTracker(cleanupTime);
      return false, None;
    }
  }
}
