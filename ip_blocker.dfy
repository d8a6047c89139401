/**
  The static blocklist gate: `blockRequestsByIP` in
  src/middleware/ip-blocker.ts, the gate the server installs, and its earlier
  copy in middleware/ip-blocker.ts, which differs only in the file it reads
  and in not printing the client address.

  The list of `{ip, reason}` entries is read once when the module loads and
  never changed, so the gate is a function of the list and the request.
 */
module IpBlocker {
  import opened Http

  datatype BlockedIP = BlockedIP(ip: string, reason: string)

  /** `blockedIPs.find((block) => block.ip === clientIP)` over this file's
      `{ip, reason}` entries; `ReqBlockerByIp.Find` is the same search over
      the expiring gate's entries. */
  function Find(list: seq<BlockedIP>, clientIP: string): (r: Option<BlockedIP>)
    ensures r.None? <==> forall i :: 0 <= i < |list| ==> list[i].ip != clientIP
    ensures r.Some? ==> r.value in list && r.value.ip == clientIP
  {
    if list == [] then None
    else if list[0].ip == clientIP then Some(list[0])
    else Find(list[1..], clientIP)
  }

  /** `blockRequestsByIP`: 403 with the reason of the entry found for the
      client address, or `next()`. */
  function BlockRequestsByIP(list: seq<BlockedIP>, req: Request): (d: Decision)
    ensures d.Respond? <==> exists i :: 0 <= i < |list| && list[i].ip == req.ip
    ensures d.Respond? ==> d.status == FORBIDDEN
  {
    match Find(list, req.ip)
    case Some(b) => Respond(FORBIDDEN, AccessDenied(b.reason))
    case None => Next
  }

  /** The 403 message carries the reason of the first entry for the client
      address in list order. */
  lemma {:induction false} RejectionUsesFirstReason(list: seq<BlockedIP>, req: Request, i: int)
    requires 0 <= i < |list| && list[i].ip == req.ip
    requires forall j :: 0 <= j < i ==> list[j].ip != req.ip
    ensures BlockRequestsByIP(list, req) == Respond(403, "Access denied: " + list[i].reason)
  {
    if i > 0 {
      RejectionUsesFirstReason(list[1..], req, i - 1);
    }
  }

  /** An address with no entry goes on with `next()` and nothing is sent. */
  lemma UnlistedAddressPasses(list: seq<BlockedIP>, req: Request)
    requires forall i :: 0 <= i < |list| ==> list[i].ip != req.ip
    ensures BlockRequestsByIP(list, req) == Next
  {
  }

  /** Two requests from the same address get the same answer, whatever else
      differs between them. That the list is constant is built into the
      signature (the list is a parameter that no operation here changes), not
      proved: the lemma only shows the answer depends on nothing in the
      request but its address. */
  lemma SameAddressSameDecision(list: seq<BlockedIP>, r1: Request, r2: Request)
    requires r1.ip == r2.ip
    ensures BlockRequestsByIP(list, r1) == BlockRequestsByIP(list, r2)
  {
  }
}
