/** The banning of addresses in src/server/protection.go: counting, eviction, release. */
module BanPolicy {
  import opened Basics

  const SECOND := 1_000_000_000
  const BAN_THRESHOLD := 10
  const BAN_DURATION := 30 * 60 * SECOND
  const BAN_WINDOW := 5 * 60 * SECOND
  const MAX_RECORDS := 4096

  type Ip = string
  type Time = int

  /** banInfo; a zero bannedUntil lies before every clock reading. */
  datatype BanInfo = BanInfo(fails: nat, lastFail: Time, bannedUntil: Option<Time>) {
    predicate BannedAt(now: Time) {
      bannedUntil.Some? && now < bannedUntil.value
    }
  }

  type Bans = map<Ip, BanInfo>

  // ---------- the operations, as functions of the table ----------

  predicate Expired(b: BanInfo, now: Time) {
    now - b.lastFail > BAN_DURATION
  }

  function Evict(bans: Bans, now: Time): Bans {
    map k | k in bans && !Expired(bans[k], now) :: bans[k]
  }

  /** The record after one more failure; `b` is None for an address without a record. */
  function AfterFail(b: Option<BanInfo>, now: Time): BanInfo {
    var before := if b.None? || now - b.value.lastFail > BAN_WINDOW then 0 else b.value.fails;
    var until := if b.None? then None else b.value.bannedUntil;
    if before + 1 >= BAN_THRESHOLD then BanInfo(0, now, Some(now + BAN_DURATION))
    else BanInfo(before + 1, now, until)
  }

  function Get(bans: Bans, ip: Ip): Option<BanInfo> {
    if ip in bans then Some(bans[ip]) else None
  }

  function Fail(bans: Bans, ip: Ip, now: Time, evicting: bool): Bans {
    var kept := if evicting && |bans| > MAX_RECORDS then Evict(bans, now) else bans;
    kept[ip := AfterFail(Get(kept, ip), now)]
  }

  /** The ban table and the switch. */
  class TrafficServer {
    var bans: Bans
    var banEnabled: bool

    constructor ()
      ensures bans == map[] && banEnabled
    {
      bans, banEnabled := map[], true;
    }

    method Banned(ip: Ip, now: Time) returns (b: bool)
      ensures b <==> banEnabled && ip in bans && bans[ip].BannedAt(now)
    {
      if !banEnabled {
        return false;
      }
      b := ip in bans && bans[ip].BannedAt(now);
    }

    method RecordFail(ip: Ip, now: Time)
      modifies this
      ensures banEnabled == old(banEnabled)
      ensures bans == if banEnabled then Fail(old(bans), ip, now, true) else old(bans)
    {
      if !banEnabled {
        return;
      }
      if |bans| > MAX_RECORDS {
        var todo := bans.Keys;
        ghost var all := bans;
        while todo != {}
          invariant todo <= all.Keys
          invariant banEnabled == old(banEnabled)
          invariant forall k :: k in bans <==> k in all && (k in todo || !Expired(all[k], now))
          invariant forall k :: k in bans ==> bans[k] == all[k]
          decreases |todo|
        {
          var k :| k in todo;
          if Expired(bans[k], now) {
            bans := bans - {k};
          }
          todo := todo - {k};
        }
        assert bans == Evict(all, now);
      }
      var b := if ip in bans then bans[ip] else BanInfo(0, now, None);
      if now - b.lastFail > BAN_WINDOW {
        b := b.(fails := 0);
      }
      b := b.(fails := b.fails + 1, lastFail := now);
      if b.fails >= BAN_THRESHOLD {
        b := b.(bannedUntil := Some(now + BAN_DURATION), fails := 0);
      }
      bans := bans[ip := b];
    }

    method RecordOK(ip: Ip)
      modifies this
      ensures bans == old(bans) - {ip} && banEnabled == old(banEnabled)
    {
      bans := bans - {ip};
    }

    /** The first locked section of SetBanEnabled. */
    method Switch(on: bool)
      modifies this
      ensures banEnabled == on && bans == old(bans)
    {
      banEnabled := on;
    }

    /** The second one. */
    method Clear()
      modifies this
      ensures bans == map[] && banEnabled == old(banEnabled)
    {
      bans := map[];
    }

    /** A call that nothing interrupts. */
    method SetBanEnabled(on: bool)
      modifies this
      ensures banEnabled == on
      ensures bans == if on then old(bans) else map[]
    {
      Switch(on);
      if !on {
        Clear();
      }
    }
  }

  // ---------- runs ----------

  /** The locked sections, in any order: other calls may come between the two of SetBanEnabled. */
  datatype Event = Failure(ip: Ip, at: Time) | Success(ip: Ip, at: Time) | Switched(on: bool, at: Time) | Cleared(at: Time)

  datatype State = State(bans: Bans, enabled: bool)

  function Step(s: State, e: Event, evicting: bool): State {
    match e
    case Failure(ip, at) => if s.enabled then s.(bans := Fail(s.bans, ip, at, evicting)) else s
    case Success(ip, at) => s.(bans := s.bans - {ip})
    case Switched(on, at) => s.(enabled := on)
    case Cleared(at) => s.(bans := map[])
  }

  function Run(events: seq<Event>, evicting: bool): State {
    if events == [] then State(map[], true)
    else Step(Run(events[..|events| - 1], evicting), events[|events| - 1], evicting)
  }

  predicate IsBanned(s: State, ip: Ip, now: Time) {
    s.enabled && ip in s.bans && s.bans[ip].BannedAt(now)
  }

  /** One clock that never goes back. */
  ghost predicate Monotone(events: seq<Event>) {
    forall i, j :: 0 <= i < j < |events| ==> events[i].at <= events[j].at
  }

  ghost predicate NotAfter(events: seq<Event>, now: Time) {
    forall i :: 0 <= i < |events| ==> events[i].at <= now
  }

  // ---------- eviction cannot be observed ----------

  ghost predicate BanBounded(b: BanInfo) {
    b.bannedUntil.Some? ==> b.bannedUntil.value <= b.lastFail + BAN_DURATION
  }

  /** Equal except for a ban that has run out. */
  ghost predicate SameRecord(b: BanInfo, u: BanInfo, now: Time) {
    && b.fails == u.fails && b.lastFail == u.lastFail
    && (b.bannedUntil == u.bannedUntil || (!b.BannedAt(now) && !u.BannedAt(now)))
  }

  /** A record is missing from the evicting table only if it has expired in the other one. */
  ghost predicate Similar(b: Bans, u: Bans, now: Time) {
    && (forall ip :: ip in b ==> ip in u && SameRecord(b[ip], u[ip], now))
    && (forall ip :: ip in u ==> BanBounded(u[ip]) && u[ip].lastFail <= now && (ip in b || Expired(u[ip], now)))
  }

  lemma SimilarLater(b: Bans, u: Bans, now: Time, later: Time)
    requires Similar(b, u, now) && now <= later
    ensures Similar(b, u, later)
  {
  }

  lemma SimilarFail(b: Bans, u: Bans, ip: Ip, now: Time)
    requires Similar(b, u, now)
    ensures Similar(Fail(b, ip, now, true), Fail(u, ip, now, false), now)
  {
    var kept := if |b| > MAX_RECORDS then Evict(b, now) else b;
    assert Similar(kept, u, now);
    var x, y := AfterFail(Get(kept, ip), now), AfterFail(Get(u, ip), now);
    assert SameRecord(x, y, now) && BanBounded(y);
  }

  lemma {:induction false} RunSimilar(events: seq<Event>, now: Time)
    requires Monotone(events) && NotAfter(events, now)
    ensures Run(events, true).enabled == Run(events, false).enabled
    ensures Similar(Run(events, true).bans, Run(events, false).bans, now)
  {
    if events == [] {
    } else {
      var init, e := events[..|events| - 1], events[|events| - 1];
      RunSimilar(init, e.at);
      var b, u := Run(init, true), Run(init, false);
      if e.Failure? && b.enabled {
        SimilarFail(b.bans, u.bans, e.ip, e.at);
      }
      SimilarLater(Run(events, true).bans, Run(events, false).bans, e.at, now);
    }
  }

  /** The bounded table and one that never forgets answer alike, for every address at every later time. */
  lemma EvictionUnobservable(events: seq<Event>, ip: Ip, now: Time)
    requires Monotone(events) && NotAfter(events, now)
    ensures IsBanned(Run(events, true), ip, now) <==> IsBanned(Run(events, false), ip, now)
  {
    RunSimilar(events, now);
  }

  // ---------- every tenth failure of a chain bans ----------

  function Enabled(events: seq<Event>): bool {
    if events == [] then true
    else if events[|events| - 1].Switched? then events[|events| - 1].on
    else Enabled(events[..|events| - 1])
  }

  /** The counted failures of an address since its last success and the last release of all addresses. */
  function History(events: seq<Event>, ip: Ip): seq<Time> {
    if events == [] then []
    else
      var init, e := events[..|events| - 1], events[|events| - 1];
      match e
      case Failure(x, at) => if x == ip && Enabled(init) then History(init, ip) + [at] else History(init, ip)
      case Success(x, at) => if x == ip then [] else History(init, ip)
      case Switched(on, at) => History(init, ip)
      case Cleared(at) => []
  }

  /** The length of the chain that ends with the last failure: consecutive gaps of at most the window. */
  function Chain(h: seq<Time>): nat {
    if h == [] then 0
    else if |h| > 1 && h[|h| - 1] - h[|h| - 2] <= BAN_WINDOW then 1 + Chain(h[..|h| - 1])
    else 1
  }

  /** Some tenth, twentieth, ... failure of a chain is less than 30 minutes old. */
  ghost predicate BanDue(h: seq<Time>, now: Time) {
    exists k :: 0 <= k < |h| && Chain(h[..k + 1]) % BAN_THRESHOLD == 0 && now < h[k] + BAN_DURATION
  }

  lemma BanDueAppend(h: seq<Time>, t: Time, now: Time)
    ensures BanDue(h + [t], now) <==>
      BanDue(h, now) || (Chain(h + [t]) % BAN_THRESHOLD == 0 && now < t + BAN_DURATION)
  {
    hide Chain;
    var g := h + [t];
    assert g[..|h| + 1] == g && g[|h|] == t;
    if BanDue(h, now) {
      var k :| 0 <= k < |h| && Chain(h[..k + 1]) % BAN_THRESHOLD == 0 && now < h[k] + BAN_DURATION;
      assert g[..k + 1] == h[..k + 1] && g[k] == h[k];
    }
    if BanDue(g, now) {
      var k :| 0 <= k < |g| && Chain(g[..k + 1]) % BAN_THRESHOLD == 0 && now < g[k] + BAN_DURATION;
      if k < |h| {
        assert g[..k + 1] == h[..k + 1] && g[k] == h[k];
      }
    }
  }

  /** What a record says about the history that it stands for. */
  ghost predicate Records(b: Option<BanInfo>, h: seq<Time>) {
    if h == [] then b.None?
    else
      && b.Some?
      && b.value.lastFail == h[|h| - 1]
      && b.value.fails == Chain(h) % BAN_THRESHOLD
      && forall now: Time :: now >= h[|h| - 1] ==> (b.value.BannedAt(now) <==> BanDue(h, now))
  }

  ghost predicate UpTo(h: seq<Time>, t: Time) {
    forall i :: 0 <= i < |h| ==> h[i] <= t
  }

  lemma BanDueEarlier(h: seq<Time>, t: Time, now: Time)
    requires BanDue(h, now) && UpTo(h, t)
    ensures now < t + BAN_DURATION
  {
  }

  lemma RecordsFail(b: Option<BanInfo>, h: seq<Time>, t: Time)
    requires Records(b, h) && UpTo(h, t)
    ensures Records(Some(AfterFail(b, t)), h + [t])
  {
    var g, a := h + [t], AfterFail(b, t);
    assert g[..|h|] == h;
    assert a.fails == Chain(g) % BAN_THRESHOLD;
    hide Chain;
    forall now: Time | now >= t ensures a.BannedAt(now) <==> BanDue(g, now) {
      BanDueAppend(h, t, now);
      if h == [] {
        assert !BanDue(h, now);
      } else {
        assert b.value.BannedAt(now) <==> BanDue(h, now);
        if a.fails == 0 && BanDue(h, now) {
          BanDueEarlier(h, t, now);
        }
      }
    }
  }

  lemma {:induction false} HistoryUpTo(events: seq<Event>, ip: Ip, now: Time)
    requires NotAfter(events, now)
    ensures UpTo(History(events, ip), now)
  {
    if events == [] {
    } else {
      HistoryUpTo(events[..|events| - 1], ip, now);
    }
  }

  lemma {:induction false} RunRecords(events: seq<Event>, ip: Ip)
    requires Monotone(events)
    ensures Run(events, false).enabled == Enabled(events)
    ensures Records(Get(Run(events, false).bans, ip), History(events, ip))
  {
    if events == [] {
    } else {
      var init, e := events[..|events| - 1], events[|events| - 1];
      RunRecords(init, ip);
      if e.Failure? && e.ip == ip && Enabled(init) {
        HistoryUpTo(init, ip, e.at);
        hide Records, AfterFail;
        RecordsFail(Get(Run(init, false).bans, ip), History(init, ip), e.at);
      }
    }
  }

  /** The server as it runs, with eviction: an address is banned exactly while banning is on and a
      failure that completes a tenth of its chain is less than 30 minutes old; its counter is the
      length of the chain modulo ten, and it has a record for at least 30 minutes after a failure. */
  lemma BannedExactly(events: seq<Event>, ip: Ip, now: Time)
    requires Monotone(events) && NotAfter(events, now)
    ensures IsBanned(Run(events, true), ip, now) <==> Enabled(events) && BanDue(History(events, ip), now)
    ensures var bans, h := Run(events, true).bans, History(events, ip);
      ip in bans ==> h != [] && bans[ip].fails == Chain(h) % BAN_THRESHOLD
    ensures var bans, h := Run(events, true).bans, History(events, ip);
      h != [] && now <= h[|h| - 1] + BAN_DURATION ==> ip in bans
  {
    EvictionUnobservable(events, ip, now);
    RunSimilar(events, now);
    RunRecords(events, ip);
    HistoryUpTo(events, ip, now);
  }

  lemma {:induction false} ChainBounds(h: seq<Time>)
    requires h != []
    ensures 1 <= Chain(h) <= |h|
  {
    if |h| > 1 {
      ChainBounds(h[..|h| - 1]);
    }
  }

  /** Fewer than ten failures since the last success never ban. */
  lemma FewFailuresNeverBan(events: seq<Event>, ip: Ip, now: Time)
    requires Monotone(events) && NotAfter(events, now) && |History(events, ip)| < 10
    ensures !IsBanned(Run(events, true), ip, now)
  {
    hide Run, History, Enabled, Chain;
    BannedExactly(events, ip, now);
    var h := History(events, ip);
    if BanDue(h, now) {
      var k :| 0 <= k < |h| && Chain(h[..k + 1]) % BAN_THRESHOLD == 0 && now < h[k] + BAN_DURATION;
      ChainBounds(h[..k + 1]);
    }
  }

  // ---------- the policy in numbers ----------

  /** A failure continues the chain if it comes at most five minutes after the one before it. */
  lemma ChainNext(h: seq<Time>, t: Time)
    requires h != []
    ensures Chain([t]) == 1
    ensures Chain(h + [t]) == if t - h[|h| - 1] <= 300_000_000_000 then Chain(h) + 1 else 1
  {
    assert (h + [t])[..|h|] == h;
  }

  /** n failures at one moment. */
  function Burst(ip: Ip, t: Time, n: nat): seq<Event> {
    seq(n, _ => Failure(ip, t))
  }

  lemma {:induction false} BurstHistory(ip: Ip, t: Time, n: nat)
    ensures Enabled(Burst(ip, t, n))
    ensures var h := History(Burst(ip, t, n), ip); |h| == n && forall i :: 0 <= i < n ==> h[i] == t
  {
    if n == 0 {
    } else {
      BurstHistory(ip, t, n - 1);
      assert Burst(ip, t, n)[..n - 1] == Burst(ip, t, n - 1);
      var h := History(Burst(ip, t, n), ip);
      assert h[..n - 1] == History(Burst(ip, t, n - 1), ip);
    }
  }

  lemma {:induction false} SameTimesChain(h: seq<Time>, t: Time)
    requires forall i :: 0 <= i < |h| ==> h[i] == t
    ensures Chain(h) == |h|
  {
    if |h| > 1 {
      SameTimesChain(h[..|h| - 1], t);
    }
  }

  lemma SameTimesDue(h: seq<Time>, t: Time, now: Time)
    requires forall i :: 0 <= i < |h| ==> h[i] == t
    ensures BanDue(h, now) <==> |h| >= 10 && now < t + 1_800_000_000_000
  {
    hide Chain;
    if BanDue(h, now) {
      var k :| 0 <= k < |h| && Chain(h[..k + 1]) % BAN_THRESHOLD == 0 && now < h[k] + BAN_DURATION;
      SameTimesChain(h[..k + 1], t);
    }
    if |h| >= 10 {
      SameTimesChain(h[..9 + 1], t);
      assert h[9] == t;
    }
  }

  /** Ten failures and no fewer ban the address, for thirty minutes and no longer. */
  lemma BurstBans(ip: Ip, t: Time, n: nat, now: Time)
    requires t <= now
    ensures IsBanned(Run(Burst(ip, t, n), true), ip, now) <==> n >= 10 && now < t + 1_800_000_000_000
  {
    BurstHistory(ip, t, n);
    assert Monotone(Burst(ip, t, n)) && NotAfter(Burst(ip, t, n), now);
    hide *;
    BannedExactly(Burst(ip, t, n), ip, now);
    SameTimesDue(History(Burst(ip, t, n), ip), t, now);
  }

  /** A success of the address or a release of all of them lifts a ban and forgets the failures; what other
      addresses do changes nothing. */
  lemma WhatLifts(events: seq<Event>, e: Event, ip: Ip, now: Time)
    requires Monotone(events + [e]) && NotAfter(events + [e], now)
    ensures (e.Success? && e.ip == ip) || e.Cleared? ==>
      History(events + [e], ip) == [] && !IsBanned(Run(events + [e], true), ip, now)
    ensures (e.Success? || e.Failure?) && e.ip != ip ==>
      && History(events + [e], ip) == History(events, ip)
      && (IsBanned(Run(events + [e], true), ip, now) <==> IsBanned(Run(events, true), ip, now))
  {
    var all := events + [e];
    assert all[..|events|] == events;
    assert all[|events|] == e;
    assert Monotone(events) && NotAfter(events, now) by {
      forall i, j | 0 <= i < j < |events| ensures events[i].at <= events[j].at {
        assert all[i].at <= all[j].at;
      }
      forall i | 0 <= i < |events| ensures events[i].at <= now {
        assert all[i].at <= now;
      }
    }
    BannedExactly(all, ip, now);
    BannedExactly(events, ip, now);
  }

  /** With more than 4096 records a failure drops those of addresses that did not fail for thirty minutes. */
  lemma FailForgets(bans: Bans, ip: Ip, now: Time, other: Ip)
    requires other != ip
    ensures var after := Fail(bans, ip, now, true);
      && ip in after && after[ip].lastFail == now
      && (other in after <==> other in bans && (|bans| > 4096 ==> now - bans[other].lastFail <= 1_800_000_000_000))
      && (other in after ==> after[other] == bans[other])
  {
  }

  /** n failures, each five minutes after the one before it. */
  function SlowFailures(ip: Ip, n: nat): seq<Event> {
    seq(n, i => Failure(ip, i * BAN_WINDOW))
  }

  lemma {:induction false} SlowHistory(ip: Ip, n: nat)
    ensures Enabled(SlowFailures(ip, n))
    ensures var h := History(SlowFailures(ip, n), ip);
      |h| == n && (forall i :: 0 <= i < n ==> h[i] == i * BAN_WINDOW) && Chain(h) == n
  {
    if n == 0 {
    } else {
      SlowHistory(ip, n - 1);
      assert SlowFailures(ip, n)[..n - 1] == SlowFailures(ip, n - 1);
      var h := History(SlowFailures(ip, n), ip);
      assert h[..n - 1] == History(SlowFailures(ip, n - 1), ip);
    }
  }

  /** docs/architecture.md speaks of ten failures within five minutes; ten failures spread over
      forty-five minutes ban as well. */
  lemma SlowFailuresBan(ip: Ip)
    ensures IsBanned(Run(SlowFailures(ip, 10), true), ip, 9 * BAN_WINDOW)
  {
    var events := SlowFailures(ip, 10);
    SlowHistory(ip, 10);
    var h := History(events, ip);
    assert h[..9 + 1] == h;
    BannedExactly(events, ip, 9 * BAN_WINDOW);
  }
}
