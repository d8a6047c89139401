/**
  The expiring blocklist gate (src/middleware/req-blocker-by-ip.ts).

  The blocklist is an ordered list of `{ip, blockReason, blockedUntil}`
  entries loaded once from a JSON file. On every request the handler drops
  the entries whose `blockedUntil` is not strictly after the current time,
  writes the pruned list back, and looks the client address up with `find`:
  the first matching entry rejects the request with 403 and its reason,
  otherwise the request goes on with `next()`. `blockedUntil` and the clock
  are integers here (the source parses ISO date strings).
 */
module ReqBlockerByIp {
  import opened Http

  datatype BlockedIP = BlockedIP(ip: string, blockReason: string, blockedUntil: int)

  /** What the handler decides and what it logs. */
  datatype Outcome = Outcome(decision: Decision, log: Option<LogRecord>)

  /** The `filter` callback: an entry still in force at `now`. An entry whose
      `blockedUntil` equals `now` has expired. */
  predicate Unexpired(b: BlockedIP, now: int)
  {
    b.blockedUntil > now
  }

  /** The list after `blockedIPs.filter(...)`: every entry in force at `now`,
      with exactly as many copies as before, and no expired entry. */
  function Prune(s: seq<BlockedIP>, now: int): (r: seq<BlockedIP>)
    ensures forall i :: 0 <= i < |r| ==> Unexpired(r[i], now)
    ensures forall b :: multiset(r)[b] == if Unexpired(b, now) then multiset(s)[b] else 0
  {
    if s == [] then []
    else
      assert s == [s[0]] + s[1..];
      if Unexpired(s[0], now) then [s[0]] + Prune(s[1..], now) else Prune(s[1..], now)
  }

  /** `blockedIPs.find((block) => block.ip === clientIP)`. The same search as
      `IpBlocker.Find`, kept per module because each source file declares its
      own `BlockedIP` shape and its own `find` callback. */
  function Find(s: seq<BlockedIP>, clientIP: string): (r: Option<BlockedIP>)
    ensures r.None? <==> forall i :: 0 <= i < |s| ==> s[i].ip != clientIP
    ensures r.Some? ==> r.value in s && r.value.ip == clientIP
  {
    if s == [] then None
    else if s[0].ip == clientIP then Some(s[0])
    else Find(s[1..], clientIP)
  }

  /** The record logged for a rejected request. */
  function IpBlockedRecord(req: Request, reason: string): (log: LogRecord)
    ensures log.ip == req.ip && log.userAgent != ""
    ensures log.blockType == "IP blocked" && log.blockReason == reason
    ensures log.remainingRequests.None? && log.windowMs.None?
  {
    LogRecord(req.ip, req.httpMethod, req.originalUrl, UserAgentOf(req),
              "IP blocked", reason, None, None)
  }

  /** The 403/next choice made on the pruned list `pruned`. */
  function Decide(pruned: seq<BlockedIP>, req: Request): (o: Outcome)
    ensures o.decision.Respond? <==> o.log.Some?
    ensures o.decision.Respond? <==> exists i :: 0 <= i < |pruned| && pruned[i].ip == req.ip
    ensures o.decision.Respond? ==> o.decision.status == FORBIDDEN && o.log.value.blockType == "IP blocked"
  {
    match Find(pruned, req.ip)
    case Some(b) => Outcome(Respond(FORBIDDEN, AccessDenied(b.blockReason)),
                            Some(IpBlockedRecord(req, b.blockReason)))
    case None => Outcome(Next, None)
  }

  /** `a` is `b` with some elements left out and the rest in their order
      (matched greedily from the front, which finds an embedding whenever one
      exists). */
  ghost predicate IsSubsequence<T>(a: seq<T>, b: seq<T>)
    decreases |b|
  {
    if a == [] then true
    else if b == [] then false
    else if a[0] == b[0] then IsSubsequence(a[1..], b[1..])
    else IsSubsequence(a, b[1..])
  }

  /** An entry of the list that matches the client and is in force: the first
      such entry in list order is at index `i`. */
  ghost predicate FirstActiveMatch(s: seq<BlockedIP>, clientIP: string, now: int, i: int)
  {
    && 0 <= i < |s|
    && s[i].ip == clientIP && Unexpired(s[i], now)
    && forall j :: 0 <= j < i ==> !(s[j].ip == clientIP && Unexpired(s[j], now))
  }

  // ---------------------------------------------------------------------------
  // Pruning
  // ---------------------------------------------------------------------------

  /** Pruning keeps the order of the entries it keeps. */
  lemma {:induction false} PruneIsSubsequence(s: seq<BlockedIP>, now: int)
    ensures IsSubsequence(Prune(s, now), s)
  {
    if s != [] {
      PruneIsSubsequence(s[1..], now);
      var r := Prune(s[1..], now);
      if !Unexpired(s[0], now) && r != [] {
        assert Unexpired(r[0], now);
      }
    }
  }

  /** A list with no expired entry is left as it is. */
  lemma {:induction false} PruneKeepsUnexpiredList(s: seq<BlockedIP>, now: int)
    requires forall i :: 0 <= i < |s| ==> Unexpired(s[i], now)
    ensures Prune(s, now) == s
  {
    if s != [] {
      PruneKeepsUnexpiredList(s[1..], now);
    }
  }

  /** Pruning twice at the same time prunes nothing more. */
  lemma PruneIdempotent(s: seq<BlockedIP>, now: int)
    ensures Prune(Prune(s, now), now) == Prune(s, now)
  {
    PruneKeepsUnexpiredList(Prune(s, now), now);
  }

  // ---------------------------------------------------------------------------
  // First match
  // ---------------------------------------------------------------------------

  /** `find` returns the first entry whose address matches. */
  lemma {:induction false} FindReturnsFirstMatch(s: seq<BlockedIP>, clientIP: string, i: int)
    requires 0 <= i < |s| && s[i].ip == clientIP
    requires forall j :: 0 <= j < i ==> s[j].ip != clientIP
    ensures Find(s, clientIP) == Some(s[i])
  {
    if i > 0 {
      FindReturnsFirstMatch(s[1..], clientIP, i - 1);
    }
  }

  /** Looking the client up in the pruned list finds the first entry of the
      original list that matches and is in force. */
  lemma {:induction false} FindAfterPruneIsFirstActive(s: seq<BlockedIP>, clientIP: string, now: int, i: int)
    requires FirstActiveMatch(s, clientIP, now, i)
    ensures Find(Prune(s, now), clientIP) == Some(s[i])
  {
    if i > 0 {
      assert FirstActiveMatch(s[1..], clientIP, now, i - 1);
      FindAfterPruneIsFirstActive(s[1..], clientIP, now, i - 1);
    }
  }

  // ---------------------------------------------------------------------------
  // The decision
  // ---------------------------------------------------------------------------

  /** A request is rejected exactly when some entry for its address is still
      in force; expired entries never reject. */
  lemma RejectedIffActiveEntry(s: seq<BlockedIP>, req: Request, now: int)
    ensures Decide(Prune(s, now), req).decision.Respond? <==>
              exists i :: 0 <= i < |s| && s[i].ip == req.ip && Unexpired(s[i], now)
  {
    var r := Prune(s, now);
    if i :| 0 <= i < |s| && s[i].ip == req.ip && Unexpired(s[i], now) {
      assert multiset(s)[s[i]] > 0;
      assert s[i] in r;
    } else {
      forall k | 0 <= k < |r| ensures r[k].ip != req.ip {
        assert multiset(r)[r[k]] > 0;
        assert r[k] in s;
      }
    }
  }

  /** A rejection answers 403 with the reason of the first entry in list
      order that matches and is in force, and logs an "IP blocked" record
      with that reason and no rate-limit figures. */
  lemma RejectionUsesFirstActiveReason(s: seq<BlockedIP>, req: Request, now: int, i: int)
    requires FirstActiveMatch(s, req.ip, now, i)
    ensures Decide(Prune(s, now), req) ==
              Outcome(Respond(403, "Access denied: " + s[i].blockReason),
                      Some(LogRecord(req.ip, req.httpMethod, req.originalUrl, UserAgentOf(req),
                                     "IP blocked", s[i].blockReason, None, None)))
  {
    FindAfterPruneIsFirstActive(s, req.ip, now, i);
  }

  /** Without an entry in force for the address the request goes on with
      `next()` and nothing is sent or logged. */
  lemma AdmittedWithoutResponse(s: seq<BlockedIP>, req: Request, now: int)
    requires forall i :: 0 <= i < |s| && s[i].ip == req.ip ==> !Unexpired(s[i], now)
    ensures Decide(Prune(s, now), req) == Outcome(Next, None)
  {
    RejectedIffActiveEntry(s, req, now);
  }

  // ---------------------------------------------------------------------------
  // The module-level list, reassigned on every request
  // ---------------------------------------------------------------------------

  /** The `let blockedIPs` list, and the contents of the JSON file it is
      saved to. */
  class BlockList {
    var blockedIPs: seq<BlockedIP>
    var saved: seq<BlockedIP>

    /** The list as read from the file when the module loads. */
    constructor (loaded: seq<BlockedIP>)
      ensures blockedIPs == loaded && saved == loaded
    {
      blockedIPs := loaded;
      saved := loaded;
    }

    /** `blockRequestsByIP`: prunes and saves the list whether or not the
        client is blocked, then rejects or admits. It never adds an entry. */
    method BlockRequestsByIP(req: Request, now: int) returns (decision: Decision, log: Option<LogRecord>)
      modifies this
      ensures blockedIPs == Prune(old(blockedIPs), now) && saved == blockedIPs
      ensures multiset(blockedIPs) <= multiset(old(blockedIPs))
      ensures Outcome(decision, log) == Decide(blockedIPs, req)
      ensures decision.Respond? <==>
                exists i :: 0 <= i < |old(blockedIPs)| && old(blockedIPs)[i].ip == req.ip
                            && Unexpired(old(blockedIPs)[i], now)
    {
      RejectedIffActiveEntry(blockedIPs, req, now);
      blockedIPs := Prune(blockedIPs, now);
      saved := blockedIPs;
      var blockedIP := Find(blockedIPs, req.ip);
      if blockedIP.Some? {
        log := Some(IpBlockedRecord(req, blockedIP.value.blockReason));
        decision := Respond(FORBIDDEN, AccessDenied(blockedIP.value.blockReason));
      } else {
        log := None;
        decision := Next;
      }
    }
  }
}
