/** The two caches: DNS answers in src/server/dnsrelay.go and routing decisions in src/tunnel/route.go. */
module Caches {
  import opened Basics

  type Time = int

  const SECOND := 1_000_000_000

  // ---------- DNS answers ----------

  const DNS_TTL := 60 * SECOND
  const DNS_MAX := 4096

  datatype DnsEntry = DnsEntry(resp: Bytes, exp: Time)
  type DnsTable = map<Bytes, DnsEntry>

  /** An answer with the identifier of the query. */
  function WithId(q: Bytes, resp: Bytes): Bytes
    requires |q| >= 2 && |resp| >= 2
  {
    q[..2] + resp[2..]
  }

  function PutSpec(t: DnsTable, q: Bytes, resp: Bytes, now: Time): DnsTable
    requires |q| >= 2
  {
    (if |t| > DNS_MAX then map[] else t)[q[2..] := DnsEntry(resp, now + DNS_TTL)]
  }

  class DnsCache {
    var table: DnsTable

    constructor ()
      ensures table == map[]
    {
      table := map[];
    }

    /** The key leaves out the first two bytes of the query. */
    method Get(q: Bytes, now: Time) returns (r: Option<Bytes>)
      requires |q| >= 2
      requires forall k :: k in table ==> |table[k].resp| >= 2
      ensures r == if q[2..] in table && now <= table[q[2..]].exp then Some(WithId(q, table[q[2..]].resp)) else None
    {
      if q[2..] !in table || now > table[q[2..]].exp {
        return None;
      }
      var e := table[q[2..]];
      var out := new byte[|e.resp|](i requires 0 <= i < |e.resp| => e.resp[i]);
      out[0], out[1] := q[0], q[1];
      assert out[..] == WithId(q, e.resp);
      return Some(out[..]);
    }

    method Put(q: Bytes, resp: Bytes, now: Time)
      requires |q| >= 2
      modifies this
      ensures table == PutSpec(old(table), q, resp, now)
    {
      if |table| > DNS_MAX {
        table := map[];
      }
      table := table[q[2..] := DnsEntry(resp, now + DNS_TTL)];
    }
  }

  /** Every run is a sequence of stores, since lookups change nothing. */
  datatype DnsPut = DnsPut(q: Bytes, resp: Bytes, at: Time) {
    ghost predicate Valid() {
      |q| >= 12 && |resp| >= 12
    }
  }

  ghost predicate ValidPuts(puts: seq<DnsPut>) {
    forall i :: 0 <= i < |puts| ==> puts[i].Valid()
  }

  function DnsRun(puts: seq<DnsPut>): DnsTable
    requires ValidPuts(puts)
  {
    if puts == [] then map[]
    else
      var p := puts[|puts| - 1];
      PutSpec(DnsRun(puts[..|puts| - 1]), p.q, p.resp, p.at)
  }

  /** The last store under a key. */
  ghost predicate LastFor(puts: seq<DnsPut>, key: Bytes, i: int) {
    && 0 <= i < |puts| && |puts[i].q| >= 2 && puts[i].q[2..] == key
    && forall j :: i < j < |puts| ==> |puts[j].q| >= 2 && puts[j].q[2..] != key
  }

  /** An entry is the last answer stored for its key, and expires sixty seconds after it was stored. */
  lemma {:induction false} DnsEntryIsLastPut(puts: seq<DnsPut>, key: Bytes) returns (i: int)
    requires ValidPuts(puts) && key in DnsRun(puts)
    ensures LastFor(puts, key, i)
    ensures DnsRun(puts)[key] == DnsEntry(puts[i].resp, puts[i].at + DNS_TTL)
  {
    var n := |puts| - 1;
    if puts[n].q[2..] == key {
      i := n;
    } else {
      i := DnsEntryIsLastPut(puts[..n], key);
    }
  }

  lemma {:induction false} DnsBounded(puts: seq<DnsPut>)
    requires ValidPuts(puts)
    ensures |DnsRun(puts)| <= 4097
    ensures forall k :: k in DnsRun(puts) ==> |DnsRun(puts)[k].resp| >= 12
  {
    if puts == [] {
    } else {
      DnsBounded(puts[..|puts| - 1]);
      var t, p := DnsRun(puts[..|puts| - 1]), puts[|puts| - 1];
      var base := if |t| > DNS_MAX then map[] else t;
      var k := p.q[2..];
      assert base[k := DnsEntry(p.resp, p.at + DNS_TTL)].Keys == base.Keys + {k};
    }
  }

  /** An answer can be found for sixty seconds after it was stored, unless another one replaces it or the table
      is cleared; that happens only when it holds more than 4096. */
  lemma DnsStored(t: DnsTable, q: Bytes, resp: Bytes, now: Time, key: Bytes)
    requires |q| >= 2
    ensures var after := PutSpec(t, q, resp, now);
      && q[2..] in after && after[q[2..]] == DnsEntry(resp, now + 60_000_000_000)
      && (key != q[2..] ==>
          (key in after <==> key in t && |t| <= 4096) && (key in after ==> after[key] == t[key]))
  {
  }

  /** A hit is the answer stored last for a query that equals this one but for its first two bytes, is at
      most sixty seconds old, and carries this query's identifier. */
  lemma DnsHit(puts: seq<DnsPut>, q: Bytes, now: Time) returns (i: int)
    requires ValidPuts(puts) && |q| >= 12
    requires q[2..] in DnsRun(puts) && now <= DnsRun(puts)[q[2..]].exp
    ensures LastFor(puts, q[2..], i)
    ensures now - puts[i].at <= 60_000_000_000
    ensures puts[i].q[2..] == q[2..] && DnsRun(puts)[q[2..]].resp == puts[i].resp
    ensures var r := WithId(q, puts[i].resp); r[..2] == q[..2] && r[2..] == puts[i].resp[2..]
  {
    DnsBounded(puts);
    i := DnsEntryIsLastPut(puts, q[2..]);
  }

  // ---------- routing decisions ----------

  const ROUTE_TTL := 10 * 60 * SECOND
  const ROUTE_MAX := 8192

  datatype RouteEntry = RouteEntry(deadline: Time, direct: bool)
  type RouteTable = map<string, RouteEntry>

  /** What the resolver answered, each address with DirectOK's verdict; an IPv6 address is never direct. */
  datatype Resolved = Failed | Addresses(directOk: seq<bool>)

  function Verdict(r: Resolved): bool {
    r.Addresses? && r.directOk != [] && forall i :: 0 <= i < |r.directOk| ==> r.directOk[i]
  }

  function StoreSpec(t: RouteTable, host: string, direct: bool, now: Time): RouteTable {
    (if |t| >= ROUTE_MAX then map[] else t)[host := RouteEntry(now + ROUTE_TTL, direct)]
  }

  /** The resolution runs between the two locked sections, so each section is a step of its own. */
  class Router {
    var cache: RouteTable

    constructor ()
      ensures cache == map[]
    {
      cache := map[];
    }

    /** The first section of decide. */
    method Lookup(host: string, now: Time) returns (hit: Option<bool>)
      modifies this
      ensures host in old(cache) && now < old(cache)[host].deadline ==>
        hit == Some(old(cache)[host].direct) && cache == old(cache)
      ensures !(host in old(cache) && now < old(cache)[host].deadline) ==>
        hit == None && cache == old(cache) - {host}
    {
      if host in cache {
        if now < cache[host].deadline {
          return Some(cache[host].direct);
        }
        cache := cache - {host};
      }
      hit := None;
    }

    method Judge(r: Resolved) returns (direct: bool)
      ensures direct == Verdict(r)
    {
      direct := false;
      if r.Addresses? && |r.directOk| > 0 {
        direct := true;
        var i := 0;
        while i < |r.directOk|
          invariant 0 <= i <= |r.directOk|
          invariant direct && forall k :: 0 <= k < i ==> r.directOk[k]
        {
          if !r.directOk[i] {
            return false;
          }
          i := i + 1;
        }
      }
    }

    /** The second section of decide. */
    method Store(host: string, direct: bool, now: Time)
      modifies this
      ensures cache == StoreSpec(old(cache), host, direct, now)
    {
      if |cache| >= ROUTE_MAX {
        cache := map[];
      }
      cache := cache[host := RouteEntry(now + ROUTE_TTL, direct)];
    }
  }

  datatype RouteStep = Look(host: string, at: Time) | Decided(host: string, answer: Resolved, at: Time)

  function RouteApply(t: RouteTable, step: RouteStep): RouteTable {
    match step
    case Look(host, at) => if host in t && at < t[host].deadline then t else t - {host}
    case Decided(host, answer, at) => StoreSpec(t, host, Verdict(answer), at)
  }

  function RouteRun(steps: seq<RouteStep>): RouteTable {
    if steps == [] then map[] else RouteApply(RouteRun(steps[..|steps| - 1]), steps[|steps| - 1])
  }

  lemma EntryKept(t: RouteTable, step: RouteStep, host: string)
    requires host in RouteApply(t, step) && !(step.Decided? && step.host == host)
    ensures host in t && RouteApply(t, step)[host] == t[host]
  {
  }

  lemma StoreSize(t: RouteTable, host: string, direct: bool, now: Time)
    requires |t| <= ROUTE_MAX
    ensures |StoreSpec(t, host, direct, now)| <= ROUTE_MAX
  {
    var base: RouteTable := if |t| >= ROUTE_MAX then map[] else t;
    var entry := RouteEntry(now + ROUTE_TTL, direct);
    assert base[host := entry].Keys == base.Keys + {host};
  }

  lemma LookSize(t: RouteTable, host: string)
    ensures |t - {host}| <= |t|
  {
    assert (t - {host}).Keys == t.Keys - {host};
  }

  lemma {:induction false} RouteBounded(steps: seq<RouteStep>)
    ensures |RouteRun(steps)| <= 8192
  {
    hide StoreSpec, Verdict;
    if steps == [] {
    } else {
      var t := RouteRun(steps[..|steps| - 1]);
      RouteBounded(steps[..|steps| - 1]);
      match steps[|steps| - 1] {
        case Look(host, at) => LookSize(t, host);
        case Decided(host, answer, at) => StoreSize(t, host, Verdict(answer), at);
      }
    }
  }

  /** A decision can be found for ten minutes after it was stored, unless another one replaces it or the table
      is cleared; that happens only when it holds 8192. */
  lemma RouteStored(t: RouteTable, host: string, direct: bool, now: Time, other: string)
    ensures var after := StoreSpec(t, host, direct, now);
      && host in after && after[host] == RouteEntry(now + 600_000_000_000, direct)
      && (other != host ==>
          (other in after <==> other in t && |t| < 8192) && (other in after ==> after[other] == t[other]))
  {
  }

  /** The last decision stored for a host. */
  ghost predicate LastDecision(steps: seq<RouteStep>, host: string, i: int) {
    && 0 <= i < |steps| && steps[i].Decided? && steps[i].host == host
    && forall j :: i < j < |steps| && steps[j].Decided? ==> steps[j].host != host
  }

  lemma LastDecisionExtends(steps: seq<RouteStep>, host: string, i: int)
    requires steps != [] && LastDecision(steps[..|steps| - 1], host, i)
    requires !(steps[|steps| - 1].Decided? && steps[|steps| - 1].host == host)
    ensures LastDecision(steps, host, i)
  {
  }

  lemma {:induction false} RouteEntryIsLastDecision(steps: seq<RouteStep>, host: string) returns (i: int)
    requires host in RouteRun(steps)
    ensures LastDecision(steps, host, i)
    ensures RouteRun(steps)[host] == RouteEntry(steps[i].at + ROUTE_TTL, Verdict(steps[i].answer))
  {
    hide Verdict;
    var n := |steps| - 1;
    if steps[n].Decided? && steps[n].host == host {
      i := n;
    } else {
      EntryKept(RouteRun(steps[..n]), steps[n], host);
      hide *;
      i := RouteEntryIsLastDecision(steps[..n], host);
      LastDecisionExtends(steps, host, i);
    }
  }

  /** Over every interleaving, a routing hit is the last decision for the host and less than ten minutes
      old; it is "direct" if and only if every resolved address was safe to dial directly. */
  lemma RouteHit(steps: seq<RouteStep>, host: string, now: Time) returns (i: int)
    requires host in RouteRun(steps) && now < RouteRun(steps)[host].deadline
    ensures LastDecision(steps, host, i)
    ensures now - steps[i].at < 600_000_000_000
    ensures RouteRun(steps)[host].direct <==>
      steps[i].answer.Addresses? && steps[i].answer.directOk != [] && false !in steps[i].answer.directOk
  {
    i := RouteEntryIsLastDecision(steps, host);
  }
}
