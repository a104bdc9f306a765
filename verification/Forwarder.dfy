/** The forwarder's choice in src/tun2sock/tun2sock.go against the routes of TunService.kt:
    nothing that is dialled directly comes back into the tunnel. */
module Forwarder {
  import opened Basics
  import opened BitStrings
  import opened Cidr
  import opened AndroidRoutes
  import opened CnRoute

  // ---------- DirectOK ----------

  function Octet0(u: Address): int { u / 0x1000000 }
  function Octet1(u: Address): int { u / 0x10000 % 256 }

  /** 100.64.0.0/14: the mask takes in a sixteenth of the carrier-grade NAT block 100.64.0.0/10. */
  predicate Cgnat(u: Address) {
    Octet0(u) == 100 && Octet1(u) / 4 * 4 == 64
  }

  predicate Private(u: Address) {
    || Octet0(u) == 10
    || (Octet0(u) == 172 && Octet1(u) / 16 * 16 == 16)
    || (Octet0(u) == 192 && Octet1(u) == 168)
    || Octet0(u) == 127
    || (Octet0(u) == 169 && Octet1(u) == 254)
    || Cgnat(u)
  }

  method DirectOK(table: Option<seq<Range>>, u: Address) returns (ok: bool)
    ensures ok <==> table.Some? && (Private(u) || Lookup(table.value, u))
  {
    if table.None? {
      return false;
    }
    if Private(u) {
      return true;
    }
    ok := IsCN(table, u);
  }

  // ---------- the decision order ----------

  datatype Target = TunnelDomain(domain: string) | Rejected | Direct | TunnelAddress

  /** `fake` is what the fake-IP pool knows about the address. */
  method Choose(fake: Option<string>, table: Option<seq<Range>>, hasDirect: bool, u: Address) returns (t: Target)
    ensures t == Direct <==>
      && fake.None? && !SENTINEL.Has(u)
      && hasDirect && table.Some? && (Private(u) || Lookup(table.value, u))
    ensures fake.Some? ==> t == TunnelDomain(fake.value)
    ensures fake.None? && SENTINEL.Has(u) ==> t == Rejected
    ensures fake.None? && !SENTINEL.Has(u) && t != Direct ==> t == TunnelAddress
  {
    if fake.Some? {
      return TunnelDomain(fake.value);
    }
    if SENTINEL.Has(u) {
      return Rejected;
    }
    var ok := DirectOK(table, u);
    if ok && hasDirect {
      return Direct;
    }
    return TunnelAddress;
  }

  // ---------- which addresses the fixed exclusions hold ----------

  ghost predicate InFixed(u: Address) {
    || Octet0(u) == 0 || Octet0(u) == 10 || Octet0(u) == 127
    || (Octet0(u) == 169 && Octet1(u) == 254)
    || (Octet0(u) == 172 && 16 <= Octet1(u) < 32)
    || (Octet0(u) == 192 && Octet1(u) == 168)
    || Octet0(u) >= 224
  }

  /** The fixed exclusions, written out. */
  const FIXED_RANGES: seq<Interval> := [
    Interval(0x00000000, 0x00FFFFFF),
    Interval(0x0A000000, 0x0AFFFFFF),
    Interval(0x7F000000, 0x7FFFFFFF),
    Interval(0xA9FE0000, 0xA9FEFFFF),
    Interval(0xAC100000, 0xAC1FFFFF),
    Interval(0xC0A80000, 0xC0A8FFFF),
    Interval(0xE0000000, 0xEFFFFFFF),
    Interval(0xF0000000, 0xFFFFFFFF)]

  lemma Pow2Of28()
    ensures Pow2(28) == 0x10000000
  {
    Pow2Of24();
    assert Pow2(28) == 16 * Pow2(24);
  }

  lemma FixedLine(i: nat, q: nat)
    requires i < 8 && q == [0x00, 0x0A, 0x7F, 0xA9FE, 0xAC1, 0xC0A8, 0xE, 0xF][i]
    ensures FIXED[i].ip == FIXED_RANGES[i].first == q * Pow2(32 - FIXED[i].prefix)
    ensures FIXED_RANGES[i].second == FIXED[i].ip + Pow2(32 - FIXED[i].prefix) - 1
  {
    Pow2Of24();
    Pow2Of28();
    hide Pow2;
  }

  lemma FixedBlock(i: nat)
    requires i < 8
    ensures IpRange(FIXED[i].ip, FIXED[i].prefix) == FIXED_RANGES[i]
  {
    hide IpRange;
    var multiples := [0x00, 0x0A, 0x7F, 0xA9FE, 0xAC1, 0xC0A8, 0xE, 0xF];
    FixedLine(i, multiples[i]);
    AlignedBlock(multiples[i], FIXED[i].ip, FIXED[i].prefix);
  }

  lemma CgnatBlock()
    ensures IpRange(0x64400000, 14) == Interval(0x64400000, 0x6443FFFF)
  {
    Pow2Of24();
    assert Pow2(18) == 4 * Pow2(16);
    hide IpRange, Pow2;
    AlignedBlock(0x1910, 0x64400000, 14);
  }

  lemma OctetFacts(u: Address)
    ensures 0 <= Octet1(u) < 256
    ensures 0x1000000 * Octet0(u) + 0x10000 * Octet1(u) <= u < 0x1000000 * Octet0(u) + 0x10000 * Octet1(u) + 0x10000
  {
    var h := u / 0x10000;
    assert Octet0(u) == h / 256;
    assert h == 256 * (h / 256) + h % 256;
  }

  lemma PrivateRanges(u: Address)
    ensures Private(u) <==>
      || 0x0A000000 <= u <= 0x0AFFFFFF || 0xAC100000 <= u <= 0xAC1FFFFF || 0xC0A80000 <= u <= 0xC0A8FFFF
      || 0x7F000000 <= u <= 0x7FFFFFFF || 0xA9FE0000 <= u <= 0xA9FEFFFF || 0x64400000 <= u <= 0x6443FFFF
    ensures Cgnat(u) <==> 0x64400000 <= u <= 0x6443FFFF
  {
    OctetFacts(u);
    hide Octet0, Octet1;
  }

  /** 10.0.0.0/8, 172.16.0.0/12, 192.168.0.0/16, 127.0.0.0/8, 169.254.0.0/16 and 100.64.0.0/14. */
  const PRIVATE: seq<CidrLine> := [
    CidrLine(0x0A000000, 8), CidrLine(0xAC100000, 12), CidrLine(0xC0A80000, 16), CidrLine(0x7F000000, 8),
    CidrLine(0xA9FE0000, 16), CidrLine(0x64400000, 14)]

  const PRIVATE_RANGES: seq<Interval> := [
    Interval(0x0A000000, 0x0AFFFFFF), Interval(0xAC100000, 0xAC1FFFFF), Interval(0xC0A80000, 0xC0A8FFFF),
    Interval(0x7F000000, 0x7FFFFFFF), Interval(0xA9FE0000, 0xA9FEFFFF), Interval(0x64400000, 0x6443FFFF)]

  lemma PrivateBlock(i: nat)
    requires i < 6
    ensures IpRange(PRIVATE[i].ip, PRIVATE[i].prefix) == PRIVATE_RANGES[i]
  {
    hide IpRange;
    if i == 5 {
      CgnatBlock();
    } else {
      FixedBlock([1, 4, 5, 2, 3][i]);
    }
  }

  /** The addresses that are dialled directly without a table lookup are those of these six blocks. */
  lemma PrivateMeans(u: Address)
    ensures Private(u) <==> exists i :: 0 <= i < 6 && IpRange(PRIVATE[i].ip, PRIVATE[i].prefix).Has(u)
    ensures Cgnat(u) <==> IpRange(0x64400000, 14).Has(u)
  {
    PrivateRanges(u);
    hide Private, Cgnat, IpRange;
    CgnatBlock();
    forall i | 0 <= i < 6 ensures IpRange(PRIVATE[i].ip, PRIVATE[i].prefix) == PRIVATE_RANGES[i] {
      PrivateBlock(i);
    }
    if Private(u) {
      assert exists i :: 0 <= i < 6 && PRIVATE_RANGES[i].Has(u) by {
        assert PRIVATE_RANGES[0].Has(u) || PRIVATE_RANGES[1].Has(u) || PRIVATE_RANGES[2].Has(u) || PRIVATE_RANGES[3].Has(u)
          || PRIVATE_RANGES[4].Has(u) || PRIVATE_RANGES[5].Has(u);
      }
    }
  }

  /** Of the whole block 100.64.0.0/10 only this part is taken for carrier-grade NAT. */
  lemma CgnatIsPartial(u: Address)
    requires 0x64400000 <= u <= 0x647FFFFF
    ensures Private(u) <==> u <= 0x6443FFFF
  {
    PrivateRanges(u);
  }

  lemma FixedListed()
    ensures FixedExclusions() == FIXED_RANGES
  {
    hide IpRange;
    forall i: nat | i < 8 ensures FixedExclusions()[i] == FIXED_RANGES[i] {
      FixedBlock(i);
    }
  }

  lemma FixedIsInFixed(u: Address)
    ensures Covers(FixedExclusions(), u) <==> InFixed(u)
  {
    FixedListed();
    hide FixedExclusions, IpRange;
    var f := FIXED_RANGES;
    assert Covers(f, u) <==>
      f[0].Has(u) || f[1].Has(u) || f[2].Has(u) || f[3].Has(u) || f[4].Has(u) || f[5].Has(u) || f[6].Has(u) || f[7].Has(u);
  }

  /** A line's block lies in the /16 blocks that it touches. */
  lemma TableExcluded(lines: seq<CidrLine>, u: Address)
    requires InTable(lines, u)
    ensures exists i :: 0 <= i < |lines| && Touches(lines[i], u / 65536)
  {
    var i :| 0 <= i < |lines| && lines[i].prefix >= 1 && IpRange(lines[i].ip, lines[i].prefix).Has(u);
    assert Touches(lines[i], u / 65536);
  }

  // ---------- no self-loop ----------

  /** One table file read by both sides. Every directly dialled address outside 100.64.0.0/14 lies in
      no installed route; inside that block it does exactly when neither the server's address nor a
      /16 of the table takes it out, so the exception is needed. */
  method DialledDirectly(server: Option<Address>, lines: seq<CidrLine>, fake: Option<string>, hasDirect: bool, u: Address)
    returns (t: Target, builder: Builder)
    ensures t == Direct ==>
      (InSome(builder.routes, u) <==>
        && Cgnat(u)
        && !(server.Some? && server.value == u)
        && !exists i :: 0 <= i < |lines| && Touches(lines[i], u / 65536))
    ensures fake.None? && !SENTINEL.Has(u) && hasDirect && Private(u) && ParsedRanges(lines) != [] ==> t == Direct
  {
    hide Covers, InSome, Touches, Lookup;
    var table := LoadCnFrom(lines);
    t := Choose(fake, table, hasDirect, u);
    var routes;
    builder, routes := BuildRoutes(server, Some(lines));
    FixedIsInFixed(u);
    if t == Direct {
      if !Private(u) {
        IsCnSound(lines, table, u);
        TableExcluded(lines, u);
      }
      assert Excluded(server, Some(lines), u) || Cgnat(u);
    }
  }

  /** The phone fails to read its table, and the engine falls back to the built-in one: then every directly
      dialled address is routed that the fixed exclusions and the server's address do not take out. */
  method DialledWithoutRouteTable(server: Option<Address>, lines: seq<CidrLine>, fake: Option<string>, hasDirect: bool,
                                  u: Address)
    returns (t: Target, builder: Builder)
    ensures t == Direct ==>
      (InSome(builder.routes, u) <==> !InFixed(u) && !(server.Some? && server.value == u))
    ensures t == Direct && InSome(builder.routes, u) ==> Cgnat(u) || InTable(lines, u)
  {
    hide Covers, InSome, Touches, Lookup, InTable, ParsedRanges;
    var table := LoadCnFrom(lines);
    t := Choose(fake, table, hasDirect, u);
    var routes;
    builder, routes := BuildRoutes(server, None);
    FixedIsInFixed(u);
    if t == Direct && !Private(u) {
      IsCnSound(lines, table, u);
    }
  }

  lemma OrdinaryLine(ip: Address, u: Address)
    requires ip == 0x01000100 && u == 0x64400001
    ensures !Touches(CidrLine(ip, 24), u / 65536)
  {
    assert Pow2(8) == 256;
    hide IpRange, Pow2;
    AlignedBlock(0x010001, ip, 24);
  }

  /** 100.64.0.1 with an ordinary table and a server elsewhere: dialled directly, and routed. */
  method CgnatExceptionNeeded() returns (t: Target, builder: Builder)
    ensures t == Direct && InSome(builder.routes, 0x64400001)
  {
    var lines := [CidrLine(0x01000100, 24)];
    OrdinaryLine(0x01000100, 0x64400001);
    assert ParsedRanges(lines) != [] by {
      assert lines[..0] == [];
    }
    hide InSome, Touches, ParsedRanges;
    t, builder := DialledDirectly(Some(0x08080808), lines, None, true, 0x64400001);
  }

  /** What BuildRoutes keeps out of the tunnel: the fixed blocks, the server, and every /16 block that shares an
      address with a line of the table. */
  lemma ExcludedMeans(server: Option<Address>, lines: seq<CidrLine>, u: Address)
    ensures Excluded(server, None, u) <==> InFixed(u) || server == Some(u)
    ensures Excluded(server, Some(lines), u) <==> Excluded(server, None, u) || exists i, v ::
      0 <= i < |lines| && lines[i].prefix >= 1 && IpRange(lines[i].ip, lines[i].prefix).Has(v) && v / 65536 == u / 65536
  {
    FixedIsInFixed(u);
    hide InFixed, Touches, IpRange;
    if i :| 0 <= i < |lines| && Touches(lines[i], u / 65536) {
      TouchesMeans(lines[i], u / 65536);
    }
    forall i, v | 0 <= i < |lines| && lines[i].prefix >= 1 && IpRange(lines[i].ip, lines[i].prefix).Has(v)
                  && v / 65536 == u / 65536
      ensures Touches(lines[i], u / 65536)
    {
      TouchesMeans(lines[i], u / 65536);
    }
  }
}
