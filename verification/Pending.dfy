/**
 Generated private keys awaiting their one download: the pending map of
 internal/sftpadmin/server.go under its mutex.
 */
module Pending {
  import opened Text

  /** Ten minutes, in nanoseconds. */
  const PENDING_TTL := 600_000_000_000

  datatype PendingKey = PendingKey(username: string, private: string, expires: int)

  type Waiting = map<string, PendingKey>

  /** One section under the mutex. */
  datatype Event = Stash(token: string, username: string, private: string, at: int) | Download(token: string, at: int)

  function Stashed(e: Event): PendingKey
    requires e.Stash?
  {
    PendingKey(e.username, e.private, e.at + PENDING_TTL)
  }

  function After(w: Waiting, e: Event): Waiting {
    match e
    case Stash(token, _, _, _) => w[token := Stashed(e)]
    case Download(token, _) => w - {token}
  }

  /** What the request gets; the entry is gone either way. */
  function Delivered(w: Waiting, e: Event): Option<PendingKey> {
    if e.Download? && e.token in w && e.token != "" && e.at <= w[e.token].expires then Some(w[e.token]) else None
  }

  class PendingKeys {
    var pending: Waiting

    constructor ()
      ensures pending == map[]
    {
      pending := map[];
    }

    method Put(token: string, username: string, private: string, now: int)
      modifies this
      ensures pending == After(old(pending), Stash(token, username, private, now))
    {
      pending := pending[token := PendingKey(username, private, now + PENDING_TTL)];
    }

    /** handleDownload. */
    method Take(token: string, now: int) returns (r: Option<PendingKey>)
      modifies this
      ensures pending == After(old(pending), Download(token, now))
      ensures r == Delivered(old(pending), Download(token, now))
    {
      var ok := token in pending;
      var pk := if ok then pending[token] else PendingKey("", "", 0);
      pending := pending - {token};
      if !ok || token == "" || now > pk.expires {
        return None;
      }
      return Some(pk);
    }
  }

  function Before(events: seq<Event>, n: nat): Waiting
    requires n <= |events|
  {
    if n == 0 then map[] else After(Before(events, n - 1), events[n - 1])
  }

  function DeliveredAt(events: seq<Event>, i: nat): Option<PendingKey>
    requires i < |events|
  {
    Delivered(Before(events, i), events[i])
  }

  /** Whatever waits was put there by the last event that named its token. */
  lemma {:induction false} WaitingSince(events: seq<Event>, n: nat, token: string)
    requires n <= |events| && token in Before(events, n)
    ensures exists j: nat :: StashedBy(events, n, token, j)
  {
    if events[n - 1].token == token {
      assert StashedBy(events, n, token, n - 1);
    } else {
      WaitingSince(events, n - 1, token);
      var j: nat :| StashedBy(events, n - 1, token, j);
      assert StashedBy(events, n, token, j);
    }
  }

  predicate StashedBy(events: seq<Event>, n: nat, token: string, j: nat)
    requires n <= |events|
  {
    && j < n && events[j].Stash? && events[j].token == token
    && token in Before(events, n) && Before(events, n)[token] == Stashed(events[j])
    && forall k :: j < k < n ==> events[k].token != token
  }

  /**
   * Every key handed out was put there by an earlier event under the same token,
   * at most ten minutes before, and no request has asked for it in between.
   */
  lemma DeliveryHasOneSource(events: seq<Event>, i: nat)
    requires i < |events| && DeliveredAt(events, i).Some?
    ensures exists j: nat :: StashedBy(events, i, events[i].token, j) && DeliveredAt(events, i).value == Stashed(events[j]) &&
                        events[i].at <= events[j].at + PENDING_TTL
  {
    WaitingSince(events, i, events[i].token);
    var j: nat :| StashedBy(events, i, events[i].token, j);
    assert DeliveredAt(events, i).value == Stashed(events[j]);
  }

  /** Two deliveries never come from the same stash. */
  lemma NeverTwice(events: seq<Event>, i: nat, k: nat, j: nat)
    requires i < k < |events| && DeliveredAt(events, i).Some? && DeliveredAt(events, k).Some?
    requires StashedBy(events, i, events[i].token, j) && events[k].token == events[i].token
    ensures !StashedBy(events, k, events[k].token, j)
  {
    assert j < i < k && events[i].token == events[k].token;
  }

  function Stashes(events: seq<Event>, token: string): nat {
    if events == [] then 0
    else
      var e := events[|events| - 1];
      Stashes(events[..|events| - 1], token) + if e.Stash? && e.token == token then 1 else 0
  }

  function Deliveries(events: seq<Event>, token: string): nat {
    if events == [] then 0
    else
      var n := |events| - 1;
      Deliveries(events[..n], token) + if events[n].token == token && DeliveredAt(events, n).Some? then 1 else 0
  }

  lemma {:induction false} BeforePrefix(events: seq<Event>, m: nat, n: nat)
    requires n <= m <= |events|
    ensures Before(events[..m], n) == Before(events, n)
  {
    if n > 0 {
      BeforePrefix(events, m, n - 1);
    }
  }

  /** Conservation, for every run: deliveries plus what still waits never exceed what was put in. */
  lemma {:induction false} DeliveriesBounded(events: seq<Event>, token: string)
    ensures Deliveries(events, token) + (if token in Before(events, |events|) then 1 else 0) <= Stashes(events, token)
  {
    if events != [] {
      var n := |events| - 1;
      DeliveriesBounded(events[..n], token);
      BeforePrefix(events, n, n);
    }
  }

  // ----------------------------------------------------------- who gets what when

  /** Event `j` stored this key under the token, and no event between `j` and `i` named the token. */
  predicate LastStored(events: seq<Event>, i: nat, token: string, username: string, private: string, j: nat)
    requires i <= |events|
  {
    && j < i && events[j].Stash? && events[j].token == token
    && events[j].username == username && events[j].private == private
    && forall k :: j < k < i ==> events[k].token != token
  }

  lemma {:induction false} StillWaiting(events: seq<Event>, n: nat, j: nat)
    requires j < n <= |events| && events[j].Stash? && forall k :: j < k < n ==> events[k].token != events[j].token
    ensures events[j].token in Before(events, n) && Before(events, n)[events[j].token] == Stashed(events[j])
  {
    if n - 1 > j {
      StillWaiting(events, n - 1, j);
    }
  }

  /**
   * A request gets a user's private key exactly when that very key was the last
   * thing stored under its token, nobody has asked since, and no more than ten
   * minutes have passed.
   */
  lemma DeliveredIff(events: seq<Event>, i: nat, username: string, private: string)
    requires i < |events| && events[i].Download?
    ensures var r := DeliveredAt(events, i);
      (r.Some? && r.value.username == username && r.value.private == private) <==>
      && events[i].token != ""
      && exists j: nat :: LastStored(events, i, events[i].token, username, private, j) && events[i].at <= events[j].at + 600_000_000_000
  {
    var token := events[i].token;
    if DeliveredAt(events, i).Some? {
      WaitingSince(events, i, token);
      var j: nat :| StashedBy(events, i, token, j);
      assert forall u, p :: LastStored(events, i, token, u, p, j) <==> events[j].username == u && events[j].private == p;
      forall k: nat | LastStored(events, i, token, username, private, k) ensures k == j {
        assert events[j].token == token && events[k].token == token;
      }
    }
    forall j: nat | LastStored(events, i, token, username, private, j) && events[i].at <= events[j].at + 600_000_000_000
      ensures token in Before(events, i) && Before(events, i)[token] == PendingKey(username, private, events[j].at + 600_000_000_000)
    {
      StillWaiting(events, i, j);
    }
  }
}
