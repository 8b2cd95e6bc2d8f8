/** The sliding-window request limiter of the mesh HTTP front end. */
module RateLimiter {
  import opened Collections
  import opened Numbers

  type Ip = string
  type Requests = map<Ip, seq<int>>

  datatype Request = Request(ip: Ip, at: int)

  function Fresh(window: nat, now: int): int -> bool { (t: int) => Since(now, t) < window }

  function Entries(requests: Requests, ip: Ip): seq<int>
  {
    if ip in requests then requests[ip] else []
  }

  function Kept(window: nat, requests: Requests, ip: Ip, now: int): seq<int>
  {
    Filter(Entries(requests, ip), Fresh(window, now))
  }

  predicate Allowed(limit: nat, window: nat, requests: Requests, q: Request)
  {
    |Kept(window, requests, q.ip, q.at)| < limit
  }

  function After(limit: nat, window: nat, requests: Requests, q: Request): Requests
  {
    var kept := Kept(window, requests, q.ip, q.at);
    requests[q.ip := if |kept| < limit then kept + [q.at] else kept]
  }

  class Limiter {
    const limit: nat
    const window: nat
    var requests: Requests

    constructor (limit: nat, window: nat)
      ensures this.limit == limit && this.window == window && requests == map[]
    {
      this.limit, this.window, requests := limit, window, map[];
    }

    /** Drop the entries older than the window, then count what is left. */
    method Check(ip: Ip, now: int) returns (ok: bool)
      modifies this
      ensures ok == Allowed(limit, window, old(requests), Request(ip, now))
      ensures requests == After(limit, window, old(requests), Request(ip, now))
    {
      var entries := if ip in requests then requests[ip] else [];
      var kept: seq<int> := [];
      for i := 0 to |entries|
        invariant requests == old(requests)
        invariant kept == Filter(entries[..i], Fresh(window, now))
      {
        assert entries[..i + 1] == entries[..i] + [entries[i]];
        FilterSnoc(entries[..i], entries[i], Fresh(window, now));
        if Since(now, entries[i]) < window {
          kept := kept + [entries[i]];
        }
      }
      assert entries[..|entries|] == entries;
      ok := |kept| < limit;
      requests := requests[ip := if ok then kept + [now] else kept];
    }
  }

  // ---- Runs ----

  function State(limit: nat, window: nat, qs: seq<Request>): Requests
  {
    if qs == [] then map[]
    else After(limit, window, State(limit, window, qs[..|qs| - 1]), qs[|qs| - 1])
  }

  /** The times at which requests of `ip` were let through, oldest first. */
  function Accepted(limit: nat, window: nat, qs: seq<Request>, ip: Ip): seq<int>
  {
    if qs == [] then [] else
      var init, q := qs[..|qs| - 1], qs[|qs| - 1];
      var before := Accepted(limit, window, init, ip);
      if q.ip == ip && Allowed(limit, window, State(limit, window, init), q) then before + [q.at] else before
  }

  ghost predicate Ordered(qs: seq<Request>)
  {
    forall i, j :: 0 <= i < j < |qs| ==> qs[i].at <= qs[j].at
  }

  ghost predicate NotBefore(now: int, qs: seq<Request>)
  {
    forall i :: 0 <= i < |qs| ==> qs[i].at <= now
  }

  /** The stored entries still know every accepted request that matters. */
  lemma {:induction false} EntriesRecallAccepted(limit: nat, window: nat, qs: seq<Request>, ip: Ip, now: int)
    requires Ordered(qs) && NotBefore(now, qs)
    ensures Kept(window, State(limit, window, qs), ip, now) ==
            Filter(Accepted(limit, window, qs, ip), Fresh(window, now))
  {
    if qs != [] {
      var init, q := qs[..|qs| - 1], qs[|qs| - 1];
      var before, isFresh := State(limit, window, init), Fresh(window, now);
      EntriesRecallAccepted(limit, window, init, ip, now);
      if q.ip == ip {
        var entries := Entries(before, ip);
        FilterTwice(entries, Fresh(window, q.at), isFresh, isFresh);
        if Allowed(limit, window, before, q) {
          FilterSnoc(Kept(window, before, ip, q.at), q.at, isFresh);
          FilterSnoc(Accepted(limit, window, init, ip), q.at, isFresh);
        }
      }
    }
  }

  lemma AllowedIff(limit: nat, window: nat, qs: seq<Request>, q: Request)
    requires Ordered(qs + [q])
    ensures Allowed(limit, window, State(limit, window, qs), q) <==>
            |Filter(Accepted(limit, window, qs, q.ip), Fresh(window, q.at))| < limit
  {
    assert forall i :: 0 <= i < |qs| ==> (qs + [q])[i] == qs[i];
    assert (qs + [q])[|qs|] == q;
    EntriesRecallAccepted(limit, window, qs, q.ip, q.at);
  }

  function Within(start: int, window: nat): int -> bool { (t: int) => start <= t < start + window }

  lemma {:induction false} AcceptedWasAsked(limit: nat, window: nat, qs: seq<Request>, ip: Ip, t: int)
    requires t in Accepted(limit, window, qs, ip)
    ensures exists i :: 0 <= i < |qs| && qs[i].at == t
  {
    var init, q := qs[..|qs| - 1], qs[|qs| - 1];
    if t in Accepted(limit, window, init, ip) {
      AcceptedWasAsked(limit, window, init, ip, t);
      var i :| 0 <= i < |init| && init[i].at == t;
      assert qs[i] == init[i];
    } else {
      assert q.at == t;
    }
  }

  /** A request is refused exactly when `limit` requests of the same address
      were let through in the window of the configured length that ends at it. */
  lemma RefusedIff(limit: nat, window: nat, qs: seq<Request>, q: Request)
    requires Ordered(qs + [q])
    ensures Allowed(limit, window, State(limit, window, qs), q) <==>
            |Filter(Accepted(limit, window, qs, q.ip), Within(q.at - window + 1, window))| < limit
  {
    var accepted := Accepted(limit, window, qs, q.ip);
    AllowedIff(limit, window, qs, q);
    forall t | t in accepted ensures Fresh(window, q.at)(t) == Within(q.at - window + 1, window)(t) {
      AcceptedWasAsked(limit, window, qs, q.ip, t);
      var i :| 0 <= i < |qs| && qs[i].at == t;
      assert (qs + [q])[i].at <= (qs + [q])[|qs|].at;
    }
    FilterCongruent(accepted, Fresh(window, q.at), Within(q.at - window + 1, window));
  }

  /** Every half-open window of the configured length holds at most `limit`
      accepted requests of an address. */
  lemma {:induction false} WindowLimit(limit: nat, window: nat, qs: seq<Request>, ip: Ip, start: int)
    requires Ordered(qs)
    ensures |Filter(Accepted(limit, window, qs, ip), Within(start, window))| <= limit
  {
    if qs != [] {
      var init, q := qs[..|qs| - 1], qs[|qs| - 1];
      var accepted := Accepted(limit, window, init, ip);
      WindowLimit(limit, window, init, ip, start);
      if q.ip == ip && Allowed(limit, window, State(limit, window, init), q) {
        assert qs == init + [q];
        AllowedIff(limit, window, init, q);
        AcceptingKeepsLimit(limit, window, accepted, q.at, start);
      }
    }
  }

  lemma AcceptingKeepsLimit(limit: nat, window: nat, accepted: seq<int>, at: int, start: int)
    requires |Filter(accepted, Within(start, window))| <= limit
    requires |Filter(accepted, Fresh(window, at))| < limit
    ensures |Filter(accepted + [at], Within(start, window))| <= limit
  {
    FilterSnoc(accepted, at, Within(start, window));
    if start <= at < start + window {
      FilterWeaker(accepted, Within(start, window), Fresh(window, at));
    }
  }

  function OfIp(ip: Ip): Request -> bool { (q: Request) => q.ip == ip }

  lemma {:induction false} EntriesIndependent(limit: nat, window: nat, qs: seq<Request>, ip: Ip)
    ensures Entries(State(limit, window, qs), ip) == Entries(State(limit, window, Filter(qs, OfIp(ip))), ip)
  {
    if qs != [] {
      EntriesIndependent(limit, window, qs[..|qs| - 1], ip);
      if qs[|qs| - 1].ip == ip {
        var own := Filter(qs[..|qs| - 1], OfIp(ip));
        assert (own + [qs[|qs| - 1]])[..|own|] == own;
      } else {
        assert Filter(qs, OfIp(ip)) == Filter(qs[..|qs| - 1], OfIp(ip));
      }
    }
  }

  /** Requests of other addresses never change what an address may do. */
  lemma {:induction false} OtherAddressesIrrelevant(limit: nat, window: nat, qs: seq<Request>, ip: Ip)
    ensures Accepted(limit, window, qs, ip) == Accepted(limit, window, Filter(qs, OfIp(ip)), ip)
  {
    if qs != [] {
      var init, q := qs[..|qs| - 1], qs[|qs| - 1];
      OtherAddressesIrrelevant(limit, window, init, ip);
      EntriesIndependent(limit, window, init, ip);
      if q.ip == ip {
        var own := Filter(init, OfIp(ip));
        assert (own + [q])[..|own|] == own;
      } else {
        assert Filter(qs, OfIp(ip)) == Filter(init, OfIp(ip));
      }
    }
  }
}
