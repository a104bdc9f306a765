/** The fake-IP pool of src/tun2sock/fakeip.go: domains to reserved addresses and back. */
module FakeIp {
  import opened Basics

  type Name = seq<byte>

  /** A block of `size` addresses from `base`, and the number of domains held before a reset. */
  datatype Config = Config(base: Address, size: nat, limit: nat) {
    /** What newFakeIPPool makes of an IPv4 prefix of at most 30 bits, with a limit that the block can hold. */
    ghost predicate Valid() {
      size > 2 && base + size <= 0x1_0000_0000 && 0 < limit <= size - 2
    }

    /** p.next % (p.size - 2) + 1, which skips the first address of the block. */
    function Offset(next: nat): (off: nat)
      requires size > 2
      ensures 1 <= off <= size - 2
    {
      next % (size - 2) + 1
    }
  }

  /** The counter value that leads to an address: offset 1 comes last. */
  function Counter(c: Config, ip: int): int {
    if ip == c.base + 1 then c.size - 2 else ip - c.base - 1
  }

  datatype Entries = Entries(next: nat, d2i: map<Name, Address>, i2d: map<Address, Name>)

  const EMPTY := Entries(1, map[], map[])

  // ---------- the invariant ----------

  /** The two maps are inverse to each other. */
  ghost predicate Inverse(e: Entries) {
    && (forall d :: d in e.d2i ==> e.d2i[d] in e.i2d && e.i2d[e.d2i[d]] == d)
    && (forall ip :: ip in e.i2d ==> e.i2d[ip] in e.d2i && e.d2i[e.i2d[ip]] == ip)
  }

  /** The addresses in use are those of the counters 1 .. next - 1. */
  ghost predicate Slots(c: Config, e: Entries) {
    forall ip: Address :: ip in e.i2d <==> c.base < ip <= c.base + c.size - 2 && Counter(c, ip) < e.next
  }

  ghost predicate Inv(c: Config, e: Entries)
    requires c.size > 2
  {
    && Inverse(e) && Slots(c, e)
    && e.next == 1 + |e.d2i|
    && |e.d2i| <= c.size - 2
  }

  lemma EmptyInv(c: Config)
    requires c.size > 2
    ensures Inv(c, EMPTY)
  {
  }

  lemma Residue(j: nat, m: nat)
    requires 1 <= j <= m
    ensures j % m == if j == m then 0 else j
  {
  }

  lemma OffsetCounter(c: Config, next: nat)
    requires c.size > 2 && 1 <= next <= c.size - 2
    ensures Counter(c, c.base + c.Offset(next)) == next
  {
    Residue(next, c.size - 2);
  }

  /** Unless the block is used up, the next candidate is free. */
  lemma NextIsFree(c: Config, e: Entries)
    requires c.size > 2 && c.base + c.size <= 0x1_0000_0000 && Inv(c, e) && |e.d2i| < c.size - 2
    ensures c.base + c.Offset(e.next) !in e.i2d
  {
    hide Config.Offset;
    OffsetCounter(c, e.next);
  }

  function Add(c: Config, e: Entries, domain: Name): Entries
    requires c.size > 2 && c.base + c.size <= 0x1_0000_0000
  {
    var ip := c.base + c.Offset(e.next);
    Entries(e.next + 1, e.d2i[domain := ip], e.i2d[ip := domain])
  }

  lemma AddCounts(c: Config, e: Entries, domain: Name)
    requires c.size > 2 && c.base + c.size <= 0x1_0000_0000 && domain !in e.d2i
    ensures |Add(c, e, domain).d2i| == |e.d2i| + 1 && Add(c, e, domain).next == e.next + 1
  {
    hide Config.Offset;
    assert Add(c, e, domain).d2i.Keys == e.d2i.Keys + {domain};
  }

  lemma AddInverse(c: Config, e: Entries, domain: Name)
    requires c.size > 2 && c.base + c.size <= 0x1_0000_0000
    requires Inverse(e) && domain !in e.d2i && c.base + c.Offset(e.next) !in e.i2d
    ensures Inverse(Add(c, e, domain))
  {
    hide Config.Offset;
  }

  lemma AddSlots(c: Config, e: Entries, domain: Name)
    requires c.size > 2 && c.base + c.size <= 0x1_0000_0000 && Slots(c, e) && 1 <= e.next <= c.size - 2
    ensures Slots(c, Add(c, e, domain))
  {
    hide Config.Offset;
    OffsetCounter(c, e.next);
    forall ip: Address | c.base < ip <= c.base + c.size - 2 && Counter(c, ip) == e.next
      ensures ip == c.base + c.Offset(e.next)
    {
    }
  }

  lemma AddKeepsInv(c: Config, e: Entries, domain: Name)
    requires c.size > 2 && c.base + c.size <= 0x1_0000_0000
    requires Inv(c, e) && |e.d2i| < c.size - 2 && domain !in e.d2i
    ensures Inv(c, Add(c, e, domain))
    ensures |Add(c, e, domain).d2i| == |e.d2i| + 1
  {
    hide Config.Offset;
    NextIsFree(c, e);
    AddInverse(c, e, domain);
    AddSlots(c, e, domain);
    AddCounts(c, e, domain);
    hide Inverse, Slots, Add;
  }

  // ---------- obtain ----------

  /** What obtain does to the entries. */
  function ObtainSpec(c: Config, e: Entries, domain: Name): Entries
    requires c.size > 2 && c.base + c.size <= 0x1_0000_0000
  {
    if domain in e.d2i then e
    else Add(c, if |e.d2i| >= c.limit then EMPTY else e, domain)
  }

  /** Some counter value from next on leads to a free address. */
  lemma FreeCounter(c: Config, e: Entries) returns (free: nat)
    requires c.size > 2 && c.base + c.size <= 0x1_0000_0000 && Inv(c, e) && |e.d2i| < c.size - 2
    ensures free >= e.next && c.base + c.Offset(free) !in e.i2d
  {
    NextIsFree(c, e);
    free := e.next;
  }

  lemma ObtainKeepsInv(c: Config, e: Entries, domain: Name)
    requires c.Valid() && Inv(c, e) && |e.d2i| <= c.limit
    ensures var e' := ObtainSpec(c, e, domain);
      && Inv(c, e') && |e'.d2i| <= c.limit && domain in e'.d2i
      && (domain in e.d2i || |e.d2i| < c.limit ==> forall ip :: ip in e.i2d ==> ip in e'.i2d && e'.i2d[ip] == e.i2d[ip])
  {
    hide Config.Offset, Inverse, Slots;
    if domain !in e.d2i {
      EmptyInv(c);
      var kept := if |e.d2i| >= c.limit then EMPTY else e;
      AddKeepsInv(c, kept, domain);
      NextIsFree(c, kept);
    }
  }

  lemma OffsetOf(c: Config, next: nat)
    requires c.size > 2 && 1 <= next <= c.size - 2
    ensures c.Offset(next) == if next == c.size - 2 then 1 else next + 1
  {
    Residue(next, c.size - 2);
  }

  /** Which address a new domain gets: the first one the third of the block, each later one the next, and only
      the last one the second address of the block. A table that has reached the limit starts over. */
  lemma NewDomainGets(c: Config, e: Entries, domain: Name)
    requires c.Valid() && Inv(c, e) && |e.d2i| <= c.limit && domain !in e.d2i
    ensures var e', n := ObtainSpec(c, e, domain), |e.d2i|;
      && (n == c.limit ==> e'.d2i == map[domain := c.base + if c.size == 3 then 1 else 2])
      && (n < c.limit ==> e'.d2i == e.d2i[domain := c.base + if n == c.size - 3 then 1 else n + 2])
  {
    var n := |e.d2i|;
    assert e.next == 1 + n;
    hide Config.Offset, Inv;
    OffsetOf(c, if n == c.limit then 1 else e.next);
  }

  class Pool {
    const c: Config
    var e: Entries

    ghost predicate Valid()
      reads this
    {
      c.Valid() && Inv(c, e) && |e.d2i| <= c.limit
    }

    constructor (c: Config)
      requires c.Valid()
      ensures this.c == c && e == EMPTY && Valid()
    {
      this.c := c;
      e := EMPTY;
    }

    /** The search for a free address, over a table that is not full. */
    method Search() returns (ip: Address)
      requires c.Valid() && Inv(c, e) && |e.d2i| < c.size - 2
      modifies this
      ensures ip == c.base + c.Offset(old(e).next)
      ensures ip !in e.i2d && e == old(e).(next := old(e).next + 1)
    {
      hide Config.Offset, Inv;
      var free := FreeCounter(c, e);
      while true
        invariant old(e).next <= e.next <= free && e == old(e).(next := e.next)
        invariant forall j :: old(e).next <= j < e.next ==> c.base + c.Offset(j) in e.i2d
        decreases free - e.next
      {
        var off := c.Offset(e.next);
        ip := c.base + off;
        e := e.(next := e.next + 1);
        if ip in e.i2d {
          continue;
        }
        break;
      }
      NextIsFree(c, old(e));
    }

    /** The search loop ends in its first round. */
    method Obtain(domain: Name) returns (ip: Address)
      requires Valid()
      modifies this
      ensures Valid()
      ensures e == ObtainSpec(c, old(e), domain)
      ensures domain in e.d2i && ip == e.d2i[domain]
      ensures ip in e.i2d && e.i2d[ip] == domain
      ensures c.base < ip <= c.base + c.size - 2
      ensures domain in old(e).d2i ==> ip == old(e).d2i[domain]
    {
      hide Config.Offset;
      ObtainKeepsInv(c, e, domain);
      if domain in e.d2i {
        ip := e.d2i[domain];
        assert Slots(c, e);
        return;
      }
      EmptyInv(c);
      hide Inv;
      if |e.d2i| >= c.limit {
        e := EMPTY;
      }
      ip := Search();
      e := e.(d2i := e.d2i[domain := ip], i2d := e.i2d[ip := domain]);
    }

    method Lookup(u: Address) returns (d: Option<Name>)
      ensures d == if c.base <= u < c.base + c.size && u in e.i2d then Some(e.i2d[u]) else None
    {
      if u < c.base || u >= c.base + c.size {
        return None;
      }
      d := if u in e.i2d then Some(e.i2d[u]) else None;
    }
  }

  // ---------- runs ----------

  function Run(c: Config, e: Entries, domains: seq<Name>): Entries
    requires c.size > 2 && c.base + c.size <= 0x1_0000_0000
  {
    if domains == [] then e else ObtainSpec(c, Run(c, e, domains[..|domains| - 1]), domains[|domains| - 1])
  }

  lemma {:induction false} RunKeepsInv(c: Config, domains: seq<Name>)
    requires c.Valid()
    ensures var e := Run(c, EMPTY, domains); Inv(c, e) && |e.d2i| <= c.limit
  {
    if domains == [] {
      EmptyInv(c);
    } else {
      hide Inv, ObtainSpec;
      RunKeepsInv(c, domains[..|domains| - 1]);
      ObtainKeepsInv(c, Run(c, EMPTY, domains[..|domains| - 1]), domains[|domains| - 1]);
    }
  }

  /** No call along the way starts the table over. */
  ghost predicate NoReset(c: Config, e: Entries, domains: seq<Name>)
    requires c.Valid()
  {
    forall n: nat :: n < |domains| ==>
      var before := Run(c, e, domains[..n]);
      domains[n] in before.d2i || |before.d2i| < c.limit
  }

  lemma PrefixOfPrefix(later: seq<Name>, n: nat, m: nat)
    requires m < n <= |later|
    ensures later[..n][..m] == later[..m] && later[..n][m] == later[m]
  {
  }

  lemma NoResetBefore(c: Config, e: Entries, later: seq<Name>)
    requires c.Valid() && NoReset(c, e, later) && later != []
    ensures NoReset(c, e, later[..|later| - 1])
  {
    hide Run;
    var n := |later| - 1;
    forall m: nat | m < n
      ensures var before := Run(c, e, later[..n][..m]); later[..n][m] in before.d2i || |before.d2i| < c.limit
    {
      PrefixOfPrefix(later, n, m);
    }
  }

  lemma NoResetLast(c: Config, e: Entries, later: seq<Name>)
    requires c.Valid() && NoReset(c, e, later) && later != []
    ensures var before := Run(c, e, later[..|later| - 1]);
      later[|later| - 1] in before.d2i || |before.d2i| < c.limit
  {
    hide Run;
  }

  lemma {:induction false} KeptUntilReset(c: Config, e: Entries, later: seq<Name>, ip: Address)
    requires c.Valid() && Inv(c, e) && |e.d2i| <= c.limit && NoReset(c, e, later) && ip in e.i2d
    ensures var last := Run(c, e, later);
      Inv(c, last) && |last.d2i| <= c.limit && ip in last.i2d && last.i2d[ip] == e.i2d[ip]
  {
    hide Inv, ObtainSpec, NoReset;
    if later == [] {
    } else {
      var n := |later| - 1;
      NoResetBefore(c, e, later);
      NoResetLast(c, e, later);
      KeptUntilReset(c, e, later[..n], ip);
      ObtainKeepsInv(c, Run(c, e, later[..n]), later[n]);
    }
  }

  /** An address handed out for a domain looks up to that domain until the next reset. */
  lemma LookupUntilReset(c: Config, before: seq<Name>, domain: Name, later: seq<Name>)
    requires c.Valid()
    requires NoReset(c, ObtainSpec(c, Run(c, EMPTY, before), domain), later)
    ensures var e := ObtainSpec(c, Run(c, EMPTY, before), domain);
      && domain in e.d2i
      && var ip, last := e.d2i[domain], Run(c, e, later);
      && ip in last.i2d && last.i2d[ip] == domain
      && c.base < ip <= c.base + c.size - 2
  {
    var e := ObtainSpec(c, Run(c, EMPTY, before), domain);
    RunKeepsInv(c, before);
    ObtainKeepsInv(c, Run(c, EMPTY, before), domain);
    hide Run, ObtainSpec, Config.Offset;
    assert Slots(c, e) && Inverse(e);
    KeptUntilReset(c, e, later, e.d2i[domain]);
  }

  // ---------- the condition on the limit is needed ----------

  /** With every address of the block in use, no counter value leads to a free one: with a limit above
      size - 2, obtain would search for ever instead of starting over. */
  lemma ExhaustedPoolHasNoCandidate(c: Config, e: Entries, next: nat)
    requires c.size > 2 && c.base + c.size <= 0x1_0000_0000 && Inv(c, e) && |e.d2i| == c.size - 2
    ensures c.base + c.Offset(next) in e.i2d
  {
    var off := c.Offset(next);
    hide Config.Offset;
    assert c.base < c.base + off <= c.base + c.size - 2;
  }

  /** The table in which obtain looks for a free address of a new domain. */
  function Searched(c: Config, e: Entries): Entries {
    if |e.d2i| >= c.limit then EMPTY else e
  }

  /** The search loop of obtain ends, or is not entered. */
  ghost predicate Returns(c: Config, e: Entries, domain: Name)
    requires c.size > 2
  {
    domain in e.d2i || exists next: nat :: next >= Searched(c, e).next && c.base + c.Offset(next) !in Searched(c, e).i2d
  }

  /** Every obtain of the run returns. */
  ghost predicate AllReturn(c: Config, domains: seq<Name>)
    requires c.size > 2 && c.base + c.size <= 0x1_0000_0000
  {
    forall n: nat :: n < |domains| ==> Returns(c, Run(c, EMPTY, domains[..n]), domains[n])
  }

  /** The n-th of infinitely many names. */
  function NthName(n: nat): (d: Name)
    ensures |d| == n
  {
    seq(n, _ => 0)
  }

  function Names(n: nat): (domains: seq<Name>)
    ensures |domains| == n && forall i :: 0 <= i < n ==> domains[i] == NthName(i)
  {
    seq(n, i requires i >= 0 => NthName(i))
  }

  lemma NamesPrefix(n: nat, m: nat)
    requires m <= n
    ensures Names(n)[..m] == Names(m)
  {
  }

  /** New names fill the block, one entry each, as long as the limit is not reached. */
  lemma {:induction false} NamesFill(c: Config, n: nat)
    requires c.size > 2 && c.base + c.size <= 0x1_0000_0000 && n <= c.size - 2 < c.limit
    ensures var e := Run(c, EMPTY, Names(n));
      Inv(c, e) && |e.d2i| == n && forall d :: d in e.d2i ==> |d| < n
  {
    if n == 0 {
      EmptyInv(c);
    } else {
      NamesFill(c, n - 1);
      NamesPrefix(n, n - 1);
      hide Inv, Config.Offset;
      AddKeepsInv(c, Run(c, EMPTY, Names(n - 1)), NthName(n - 1));
    }
  }

  /** Within the limit every obtain of every run returns. */
  lemma WithinLimitReturns(c: Config, domains: seq<Name>)
    requires c.Valid()
    ensures AllReturn(c, domains)
  {
    forall n: nat | n < |domains| ensures Returns(c, Run(c, EMPTY, domains[..n]), domains[n]) {
      var e := Run(c, EMPTY, domains[..n]);
      RunKeepsInv(c, domains[..n]);
      EmptyInv(c);
      hide Inv, Run, Config.Offset;
      NextIsFree(c, Searched(c, e));
      assert Searched(c, e).next >= 0;
    }
  }

  /** Beyond it a run over size - 1 names does not: the last one finds the block full and the limit not
      reached. */
  lemma BeyondLimitHangs(c: Config)
    requires c.size > 2 && c.base + c.size <= 0x1_0000_0000 && c.limit > c.size - 2
    ensures !AllReturn(c, Names(c.size - 1))
  {
    var n := c.size - 2;
    var e := Run(c, EMPTY, Names(n));
    NamesFill(c, n);
    NamesPrefix(n + 1, n);
    hide Inv, Run, Config.Offset;
    assert NthName(n) !in e.d2i;
    forall next: nat ensures c.base + c.Offset(next) in e.i2d {
      ExhaustedPoolHasNoCandidate(c, e, next);
    }
    assert !Returns(c, e, NthName(n));
  }

  /** The bound on the limit is exact: every obtain of every run returns if and only if the limit is at most
      the number of addresses to give away. */
  lemma LimitIsExact(c: Config)
    requires c.size > 2 && c.base + c.size <= 0x1_0000_0000 && c.limit > 0
    ensures c.limit <= c.size - 2 <==> forall domains: seq<Name> :: AllReturn(c, domains)
  {
    hide AllReturn;
    if c.limit <= c.size - 2 {
      forall domains: seq<Name> ensures AllReturn(c, domains) {
        WithinLimitReturns(c, domains);
      }
    } else {
      BeyondLimitHangs(c);
    }
  }

  /** The engine's own pool: 198.18.0.0/15 with 65535 domains. */
  lemma EnginePoolValid()
    ensures Config(0xC6120000, 0x20000, 65535).Valid()
  {
  }
}
