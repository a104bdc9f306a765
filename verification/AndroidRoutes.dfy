/** The route table of TunService.startEngine: exclude, merge, carve, complement, emit. */
module AndroidRoutes {
  import opened Basics
  import opened BitStrings
  import opened Cidr

  /** A closed address range; Kotlin's Long does not wrap. */
  datatype Interval = Interval(first: int, second: int) {
    predicate Has(u: int) {
      first <= u <= second
    }
  }

  ghost predicate Covers(ivs: seq<Interval>, u: int) {
    exists i :: 0 <= i < |ivs| && ivs[i].Has(u)
  }

  ghost predicate WellFormed(ivs: seq<Interval>) {
    forall i :: 0 <= i < |ivs| ==> 0 <= ivs[i].first <= ivs[i].second < SPACE
  }

  lemma CoversAppend(a: seq<Interval>, b: seq<Interval>, u: int)
    ensures Covers(a + b, u) <==> Covers(a, u) || Covers(b, u)
  {
    if Covers(a, u) {
      var i :| 0 <= i < |a| && a[i].Has(u);
      assert (a + b)[i].Has(u);
    }
    if Covers(b, u) {
      var i :| 0 <= i < |b| && b[i].Has(u);
      assert (a + b)[|a| + i].Has(u);
    }
  }

  // ---------- ipRange ----------

  datatype CidrLine = CidrLine(ip: Address, prefix: Prefix)

  lemma {:induction false} LowBound(n: nat, k: nat)
    ensures Low(n, k) <= n && Aligned(n - Low(n, k), k)
  {
    if k == 0 {
    } else {
      LowBound(n / 2, k - 1);
      assert (n - Low(n, k)) / 2 == n / 2 - Low(n / 2, k - 1);
    }
  }

  /** ip and mask, and the last address of the block. */
  function IpRange(ip: Address, prefix: Prefix): Interval {
    LowBound(ip, 32 - prefix);
    var base := ip - Low(ip, 32 - prefix);
    Interval(base, base + Pow2(32 - prefix) - 1)
  }

  /** The block holds the address, is aligned and ends inside the address space. */
  lemma IpRangeFacts(ip: Address, prefix: Prefix)
    ensures var r := IpRange(ip, prefix);
      0 <= r.first <= ip <= r.second < SPACE && Aligned(r.first, 32 - prefix)
  {
    var k := 32 - prefix;
    LowBound(ip, k);
    Pow2Of32();
    AlignedZero(32);
    AlignedNext(0, 32);
    AlignedLess(SPACE, k, 32);
    AlignedGap(ip - Low(ip, k), SPACE, k);
  }

  lemma {:induction false} ShrBetween(u: nat, q: nat, k: nat)
    ensures Shl(q, k) <= u < Shl(q, k) + Pow2(k) <==> Shr(u, k) == q
  {
    if k == 0 {
    } else {
      ShrBetween(u / 2, q, k - 1);
      hide Shr;
      assert Shl(q, k) == 2 * Shl(q, k - 1) && Pow2(k) == 2 * Pow2(k - 1);
    }
  }

  /** The block of a line is what agrees with its address in the first `prefix` bits. */
  lemma IpRangeByPrefix(ip: Address, prefix: Prefix, u: Address)
    ensures IpRange(ip, prefix).Has(u) <==> Shr(u, 32 - prefix) == Shr(ip, 32 - prefix)
  {
    LowAndHigh(ip, 32 - prefix);
    ShrBetween(u, Shr(ip, 32 - prefix), 32 - prefix);
    hide Low, Shl, Shr, Pow2;
  }

  /** The sentinel block is 10.111.0.0/30. */
  lemma SentinelBlock(u: Address)
    ensures SENTINEL.Has(u) <==> u / 0x1000000 == 10 && u / 0x10000 % 256 == 111 && u / 0x100 % 256 == 0 && u % 256 < 4
  {
  }

  // ---------- sortWith(compareBy({ it.first }, { it.second })) ----------

  predicate Leq(a: Interval, b: Interval) {
    a.first < b.first || (a.first == b.first && a.second <= b.second)
  }

  ghost predicate IsSorted(ivs: seq<Interval>) {
    forall i, j :: 0 <= i < j < |ivs| ==> Leq(ivs[i], ivs[j])
  }

  function Insert(x: Interval, ivs: seq<Interval>): seq<Interval> {
    if ivs == [] || Leq(x, ivs[0]) then [x] + ivs else [ivs[0]] + Insert(x, ivs[1..])
  }

  function Sort(ivs: seq<Interval>): seq<Interval> {
    if ivs == [] then [] else Insert(ivs[0], Sort(ivs[1..]))
  }

  lemma {:induction false} InsertAdds(x: Interval, ivs: seq<Interval>)
    ensures multiset(Insert(x, ivs)) == multiset(ivs) + multiset{x}
  {
    if ivs != [] && !Leq(x, ivs[0]) {
      InsertAdds(x, ivs[1..]);
      assert ivs == [ivs[0]] + ivs[1..];
    }
  }

  lemma {:induction false} InsertSorted(x: Interval, ivs: seq<Interval>)
    requires IsSorted(ivs)
    ensures IsSorted(Insert(x, ivs))
  {
    if ivs != [] && !Leq(x, ivs[0]) {
      InsertSorted(x, ivs[1..]);
      InsertAdds(x, ivs[1..]);
      hide Insert;
      var r := Insert(x, ivs[1..]);
      forall k | 0 <= k < |r| ensures Leq(ivs[0], r[k]) {
        assert r[k] in multiset(r);
        assert r[k] == x || r[k] in ivs[1..];
      }
    }
  }

  lemma {:induction false} SortSorts(ivs: seq<Interval>)
    ensures IsSorted(Sort(ivs)) && multiset(Sort(ivs)) == multiset(ivs)
  {
    if ivs == [] {
    } else {
      SortSorts(ivs[1..]);
      InsertSorted(ivs[0], Sort(ivs[1..]));
      InsertAdds(ivs[0], Sort(ivs[1..]));
      assert ivs == [ivs[0]] + ivs[1..];
    }
  }

  lemma SameMembers(a: seq<Interval>, b: seq<Interval>)
    requires multiset(a) == multiset(b)
    ensures WellFormed(a) ==> WellFormed(b)
    ensures forall u :: Covers(a, u) <==> Covers(b, u)
  {
    forall i | 0 <= i < |b| ensures exists k :: 0 <= k < |a| && a[k] == b[i] {
      assert b[i] in multiset(a);
    }
    forall i | 0 <= i < |a| ensures exists k :: 0 <= k < |b| && b[k] == a[i] {
      assert a[i] in multiset(b);
    }
  }

  // ---------- merge ----------

  /** Sorted, with at least one free address between neighbours. */
  ghost predicate Separated(ivs: seq<Interval>) {
    forall i, j :: 0 <= i < j < |ivs| ==> ivs[i].second + 1 < ivs[j].first
  }

  /** Sorted and disjoint. */
  ghost predicate Disjoint(ivs: seq<Interval>) {
    forall i, j :: 0 <= i < j < |ivs| ==> ivs[i].second < ivs[j].first
  }

  lemma CoversOne(iv: Interval, u: int)
    ensures Covers([iv], u) <==> iv.Has(u)
  {
    if iv.Has(u) {
      assert [iv][0].Has(u);
    }
  }

  /** Extending the last range by a range that touches it, or appending the range. */
  lemma CoversLast(before: seq<Interval>, iv: Interval, after: seq<Interval>, u: int)
    requires
      if before != [] && before[|before| - 1].first <= iv.first <= before[|before| - 1].second + 1 then
        var last := before[|before| - 1];
        after == if iv.second > last.second then before[..|before| - 1] + [Interval(last.first, iv.second)] else before
      else after == before + [iv]
    ensures Covers(after, u) <==> Covers(before, u) || Covers([iv], u)
  {
    CoversOne(iv, u);
    if before != [] {
      var n := |before| - 1;
      assert before == before[..n] + [before[n]];
      CoversAppend(before[..n], [before[n]], u);
      CoversOne(before[n], u);
      CoversOne(Interval(before[n].first, iv.second), u);
      CoversAppend(before[..n], [Interval(before[n].first, iv.second)], u);
    }
    CoversAppend(before, [iv], u);
  }

  lemma CoversNothing()
    ensures forall u :: !Covers([], u)
  {
  }

  method Merge(excluded: seq<Interval>) returns (merged: seq<Interval>)
    requires WellFormed(excluded) && IsSorted(excluded)
    ensures WellFormed(merged) && Separated(merged)
    ensures forall u :: Covers(merged, u) <==> Covers(excluded, u)
  {
    merged := [];
    CoversNothing();
    hide Covers, Interval.Has;
    for k := 0 to |excluded|
      invariant WellFormed(merged) && Separated(merged)
      invariant merged != [] ==> k > 0 && merged[|merged| - 1].first <= excluded[k - 1].first
      invariant k > 0 ==> merged != []
      invariant forall u :: Covers(merged, u) <==> Covers(excluded[..k], u)
    {
      var iv := excluded[k];
      ghost var before := merged;
      if merged != [] && iv.first <= merged[|merged| - 1].second + 1 {
        var last := merged[|merged| - 1];
        if iv.second > last.second {
          merged := merged[..|merged| - 1] + [Interval(last.first, iv.second)];
        }
      } else {
        merged := merged + [iv];
      }
      assert excluded[..k + 1] == excluded[..k] + [iv];
      forall u ensures Covers(merged, u) <==> Covers(excluded[..k + 1], u) {
        CoversAppend(excluded[..k], [iv], u);
        CoversLast(before, iv, merged, u);
      }
    }
    assert excluded[..|excluded|] == excluded;
  }

  // ---------- carve ----------

  /** 10.111.0.0/30, where the DNS sentinel lives. */
  const SENTINEL := Interval(0x0A6F0000, 0x0A6F0003)

  /** The parts of a range outside the sentinel block. */
  function Outside(iv: Interval): seq<Interval> {
    var wlS, wlE := SENTINEL.first, SENTINEL.second;
    var before := if iv.first < wlS then [Interval(iv.first, wlS - 1)] else [];
    var after := if wlE < iv.second then [Interval(wlE + 1, iv.second)] else [];
    if wlE < iv.first || wlS > iv.second then [iv] else before + after
  }

  lemma OutsideFacts(iv: Interval, u: int)
    requires 0 <= iv.first <= iv.second < SPACE
    ensures WellFormed(Outside(iv)) && Disjoint(Outside(iv))
    ensures forall i :: 0 <= i < |Outside(iv)| ==>
      iv.first <= Outside(iv)[i].first && Outside(iv)[i].second <= iv.second
    ensures Covers(Outside(iv), u) <==> iv.Has(u) && !SENTINEL.Has(u)
  {
    var wlS, wlE := SENTINEL.first, SENTINEL.second;
    CoversOne(iv, u);
    CoversOne(Interval(iv.first, wlS - 1), u);
    CoversOne(Interval(wlE + 1, iv.second), u);
    CoversAppend(if iv.first < wlS then [Interval(iv.first, wlS - 1)] else [],
                 if wlE < iv.second then [Interval(wlE + 1, iv.second)] else [], u);
  }

  ghost predicate AllBelow(ivs: seq<Interval>, x: int) {
    forall i :: 0 <= i < |ivs| ==> ivs[i].second < x
  }

  lemma DisjointAppend(a: seq<Interval>, b: seq<Interval>, s: int, e: int)
    requires WellFormed(a) && Disjoint(a) && AllBelow(a, s)
    requires WellFormed(b) && Disjoint(b) && forall i :: 0 <= i < |b| ==> s <= b[i].first && b[i].second <= e
    requires s <= e
    ensures WellFormed(a + b) && Disjoint(a + b) && AllBelow(a + b, e + 1)
  {
  }

  method CarveOne(carved: seq<Interval>, iv: Interval) returns (more: seq<Interval>)
    ensures more == carved + Outside(iv)
  {
    var s, e := iv.first, iv.second;
    var wlS, wlE := SENTINEL.first, SENTINEL.second;
    more := carved;
    if wlE < s || wlS > e {
      more := more + [Interval(s, e)];
      return;
    }
    if s < wlS {
      more := more + [Interval(s, wlS - 1)];
    }
    if wlE < e {
      more := more + [Interval(wlE + 1, e)];
    }
  }

  ghost predicate CarvedFrom(carved: seq<Interval>, merged: seq<Interval>) {
    forall u :: Covers(carved, u) <==> Covers(merged, u) && !SENTINEL.Has(u)
  }

  lemma CarveStep(carved: seq<Interval>, merged: seq<Interval>, iv: Interval)
    requires CarvedFrom(carved, merged) && 0 <= iv.first <= iv.second < SPACE
    ensures CarvedFrom(carved + Outside(iv), merged + [iv])
  {
    hide Covers, Outside;
    forall u ensures Covers(carved + Outside(iv), u) <==> Covers(merged + [iv], u) && !SENTINEL.Has(u) {
      CoversAppend(merged, [iv], u);
      CoversOne(iv, u);
      CoversAppend(carved, Outside(iv), u);
      OutsideFacts(iv, u);
    }
  }

  method Carve(merged: seq<Interval>) returns (carved: seq<Interval>)
    requires WellFormed(merged) && Disjoint(merged)
    ensures WellFormed(carved) && Disjoint(carved)
    ensures CarvedFrom(carved, merged)
  {
    hide Covers, Interval.Has;
    carved := [];
    CoversNothing();
    assert WellFormed([]) && Disjoint([]);
    for k := 0 to |merged|
      invariant WellFormed(carved) && Disjoint(carved)
      invariant k < |merged| ==> AllBelow(carved, merged[k].first)
      invariant CarvedFrom(carved, merged[..k])
    {
      hide Outside, CarvedFrom;
      ghost var before := carved;
      carved := CarveOne(carved, merged[k]);
      OutsideFacts(merged[k], 0);
      DisjointAppend(before, Outside(merged[k]), merged[k].first, merged[k].second);
      assert merged[..k + 1] == merged[..k] + [merged[k]];
      CarveStep(before, merged[..k], merged[k]);
    }
    assert merged[..|merged|] == merged;
  }

  // ---------- complement ----------

  /** The emitted blocks of all gaps before, between and after the ranges. */
  function GapBlocks(ivs: seq<Interval>, cur: nat): seq<Block>
    requires WellFormed(ivs)
  {
    if ivs == [] then EmitSpec(cur, SPACE - 1)
    else EmitSpec(cur, ivs[0].first - 1) + GapBlocks(ivs[1..], ivs[0].second + 1)
  }

  lemma GapUnfold(ivs: seq<Interval>, i: nat, cur: nat)
    requires WellFormed(ivs) && i <= |ivs|
    ensures i == |ivs| ==> GapBlocks(ivs[i..], cur) == EmitSpec(cur, SPACE - 1)
    ensures i < |ivs| ==>
      GapBlocks(ivs[i..], cur) == EmitSpec(cur, ivs[i].first - 1) + GapBlocks(ivs[i + 1..], ivs[i].second + 1)
  {
    if i < |ivs| {
      assert ivs[i..][1..] == ivs[i + 1..];
    }
  }

  lemma InOrder(ivs: seq<Interval>, i: nat)
    requires WellFormed(ivs) && Disjoint(ivs) && i < |ivs|
    ensures 0 <= ivs[i].first <= ivs[i].second < SPACE
    ensures i + 1 < |ivs| ==> ivs[i].second < ivs[i + 1].first < SPACE
  {
  }

  lemma EmitNothing(a: nat, end: int)
    ensures a > end ==> EmitSpec(a, end) == []
  {
  }

  /** The blocks of one gap, if there is one. */
  method EmitGap(builder: Builder, cur: nat, end: int) returns (count: nat)
    requires end < SPACE
    modifies builder
    ensures builder.routes == old(builder.routes) + EmitSpec(cur, end) && count == |EmitSpec(cur, end)|
  {
    hide EmitSpec;
    count := 0;
    EmitNothing(cur, end);
    if end >= cur {
      count := EmitCidr(builder, cur, end);
    } else {
      assert builder.routes + [] == builder.routes;
    }
  }

  method Complement(builder: Builder, carved: seq<Interval>) returns (routes: nat)
    requires WellFormed(carved) && Disjoint(carved)
    modifies builder
    ensures builder.routes == old(builder.routes) + GapBlocks(carved, 0)
    ensures routes == |GapBlocks(carved, 0)|
  {
    hide EmitSpec, GapBlocks, Disjoint;
    routes := 0;
    var cur: nat := 0;
    var i := 0;
    assert carved[0..] == carved;
    while i < |carved|
      invariant 0 <= i <= |carved|
      invariant i > 0 ==> cur == carved[i - 1].second + 1
      invariant builder.routes + GapBlocks(carved[i..], cur) == old(builder.routes) + GapBlocks(carved, 0)
      invariant routes + |GapBlocks(carved[i..], cur)| == |GapBlocks(carved, 0)|
    {
      InOrder(carved, i);
      var iv := carved[i];
      GapUnfold(carved, i, cur);
      Assoc(builder.routes, EmitSpec(cur, iv.first - 1), GapBlocks(carved[i + 1..], iv.second + 1));
      var n := EmitGap(builder, cur, iv.first - 1);
      routes := routes + n;
      InOrder(carved, i);
      cur := iv.second + 1;
      i := i + 1;
      if cur >= SPACE {
        break;
      }
    }
    GapUnfold(carved, i, cur);
    var n := EmitGap(builder, cur, SPACE - 1);
    routes := routes + n;
  }

  lemma OrderedConcat(a: seq<Block>, b: seq<Block>, lo: nat, mid: nat, mid': nat, hi: int)
    requires Ordered(a) && Ordered(b) && Between(a, lo, mid) && Between(b, mid', hi)
    requires lo <= mid <= mid' <= hi
    ensures Ordered(a + b) && Between(a + b, lo, hi)
  {
    hide Block.Valid, Block.Span;
  }

  lemma {:induction false} GapsOrdered(ivs: seq<Interval>, cur: nat)
    requires WellFormed(ivs) && Disjoint(ivs) && (ivs != [] ==> cur <= ivs[0].first) && cur <= SPACE
    ensures Ordered(GapBlocks(ivs, cur)) && Between(GapBlocks(ivs, cur), cur, SPACE)
  {
    hide EmitSpec, Between, Ordered;
    if ivs == [] {
      EmitOrdered(cur, SPACE - 1);
    } else {
      EmitOrdered(cur, ivs[0].first - 1);
      GapsOrdered(ivs[1..], ivs[0].second + 1);
      OrderedConcat(EmitSpec(cur, ivs[0].first - 1), GapBlocks(ivs[1..], ivs[0].second + 1),
                    cur, ivs[0].first, ivs[0].second + 1, SPACE);
    }
  }

  lemma InSomeConcat(a: seq<Block>, b: seq<Block>, u: int)
    ensures InSome(a + b, u) <==> InSome(a, u) || InSome(b, u)
  {
    hide Block.Has;
    if InSome(a, u) {
      var i :| 0 <= i < |a| && a[i].Has(u);
      assert (a + b)[i].Has(u);
    }
    if InSome(b, u) {
      var i :| 0 <= i < |b| && b[i].Has(u);
      assert (a + b)[|a| + i].Has(u);
    }
  }

  lemma CoversBelow(ivs: seq<Interval>, lo: int, u: int)
    requires forall i :: 0 <= i < |ivs| ==> lo <= ivs[i].first
    requires u < lo
    ensures !Covers(ivs, u)
  {
  }

  /** The gap blocks hold exactly the addresses that no range covers. */
  lemma {:induction false} GapsExact(ivs: seq<Interval>, cur: nat, u: int)
    requires WellFormed(ivs) && Disjoint(ivs) && (ivs != [] ==> cur <= ivs[0].first)
    ensures InSome(GapBlocks(ivs, cur), u) <==> cur <= u < SPACE && !Covers(ivs, u)
  {
    hide EmitSpec, InSome, Covers;
    if ivs == [] {
      EmitExact(cur, SPACE - 1, u);
      CoversNothing();
    } else {
      EmitExact(cur, ivs[0].first - 1, u);
      GapsExact(ivs[1..], ivs[0].second + 1, u);
      InSomeConcat(EmitSpec(cur, ivs[0].first - 1), GapBlocks(ivs[1..], ivs[0].second + 1), u);
      assert ivs == [ivs[0]] + ivs[1..];
      forall i | 0 <= i < |ivs[1..]| ensures ivs[0].second < ivs[1..][i].first {
        assert ivs[1..][i] == ivs[i + 1];
      }
      CoversAppend([ivs[0]], ivs[1..], u);
      CoversOne(ivs[0], u);
      if u <= ivs[0].second {
        CoversBelow(ivs[1..], ivs[0].second + 1, u);
      }
    }
  }

  // ---------- the whole table ----------

  /** The always excluded blocks, in the order of the source. */
  const FIXED: seq<CidrLine> := [
    CidrLine(0x00000000, 8), CidrLine(0x0A000000, 8), CidrLine(0x7F000000, 8), CidrLine(0xA9FE0000, 16),
    CidrLine(0xAC100000, 12), CidrLine(0xC0A80000, 16), CidrLine(0xE0000000, 4), CidrLine(0xF0000000, 4)]

  function FixedExclusions(): seq<Interval> {
    seq(|FIXED|, i requires 0 <= i < |FIXED| => IpRange(FIXED[i].ip, FIXED[i].prefix))
  }

  /** The /16 block with number k shares an address with the line's block. A line with prefix 0 is skipped. */
  predicate Touches(line: CidrLine, k: int) {
    var r := IpRange(line.ip, line.prefix);
    line.prefix >= 1 && r.first / 65536 <= k <= r.second / 65536
  }

  /** An address is kept out of the tunnel by a fixed range, by being the server's, or by lying in a
      /16 block that some line of the table touches. */
  ghost predicate Excluded(server: Option<Address>, table: Option<seq<CidrLine>>, u: int) {
    || Covers(FixedExclusions(), u)
    || (server.Some? && u == server.value)
    || (table.Some? && exists i :: 0 <= i < |table.value| && Touches(table.value[i], u / 65536))
  }

  /** The numbers of the /16 blocks that the lines touch. */
  method SixteenBlocks(lines: seq<CidrLine>) returns (seen: set<int>)
    ensures forall k :: k in seen <==> exists i :: 0 <= i < |lines| && Touches(lines[i], k)
  {
    seen := {};
    for n := 0 to |lines|
      invariant forall k :: k in seen <==> exists i :: 0 <= i < n && Touches(lines[i], k)
    {
      if lines[n].prefix >= 1 {
        var r := IpRange(lines[n].ip, lines[n].prefix);
        var k16 := r.first / 65536;
        var endK := r.second / 65536;
        ghost var before := seen;
        while k16 <= endK
          invariant r.first / 65536 <= k16
          invariant forall k :: k in seen <==> k in before || (r.first / 65536 <= k < k16 && k <= endK)
        {
          seen := seen + {k16};
          k16 := k16 + 1;
        }
      }
    }
  }

  function SixteenRange(k: int): Interval {
    Interval(k * 256 * 256, k * 256 * 256 + 65535)
  }

  /** A /16 block is touched exactly if it holds an address of the line's block. */
  lemma TouchesMeans(line: CidrLine, k: int)
    ensures Touches(line, k) <==> line.prefix >= 1 && exists u :: IpRange(line.ip, line.prefix).Has(u) && u / 65536 == k
  {
    var r := IpRange(line.ip, line.prefix);
    IpRangeFacts(line.ip, line.prefix);
    hide IpRange;
    if Touches(line, k) {
      var u := if r.first / 65536 == k then r.first else 65536 * k;
      assert r.Has(u) && u / 65536 == k;
    }
  }

  lemma TouchesInSpace(line: CidrLine, k: int)
    requires Touches(line, k)
    ensures 0 <= k && 65536 * k + 65535 < SPACE
  {
    IpRangeFacts(line.ip, line.prefix);
  }

  lemma SomeMember(s: set<int>)
    requires |s| > 0
    ensures exists k :: k in s
  {
    assert (forall k :: k !in s) ==> s == {};
  }

  lemma FixedWellFormed()
    ensures WellFormed(FixedExclusions())
  {
    forall i | 0 <= i < |FIXED| ensures 0 <= FixedExclusions()[i].first <= FixedExclusions()[i].second < SPACE {
      IpRangeFacts(FIXED[i].ip, FIXED[i].prefix);
    }
  }

  /** The collected ranges; the order in which the /16 blocks are taken out of the set is arbitrary. */
  method Exclusions(server: Option<Address>, table: Option<seq<CidrLine>>) returns (excluded: seq<Interval>)
    ensures WellFormed(excluded)
    ensures forall u :: Covers(excluded, u) <==> Excluded(server, table, u)
  {
    hide Covers, Touches, FixedExclusions;
    excluded := FixedExclusions();
    FixedWellFormed();
    if server.Some? {
      excluded := excluded + [Interval(server.value, server.value)];
    }
    ghost var listed := excluded;
    forall u ensures Covers(listed, u) <==> Covers(FixedExclusions(), u) || (server.Some? && u == server.value) {
      if server.Some? {
        CoversAppend(FixedExclusions(), [Interval(server.value, server.value)], u);
        CoversOne(Interval(server.value, server.value), u);
      }
    }
    if table.Some? {
      var seen := SixteenBlocks(table.value);
      var todo := seen;
      while |todo| > 0
        invariant todo <= seen && WellFormed(excluded)
        invariant forall u :: Covers(excluded, u) <==> Covers(listed, u) || (u / 65536 in seen - todo)
        decreases |todo|
      {
        SomeMember(todo);
        var k :| k in todo;
        assert k in seen;
        ghost var i: nat :| i < |table.value| && Touches(table.value[i], k);
        TouchesInSpace(table.value[i], k);
        ghost var before := excluded;
        excluded := excluded + [SixteenRange(k)];
        todo := todo - {k};
        forall u ensures Covers(excluded, u) <==> Covers(listed, u) || (u / 65536 in seen - todo) {
          CoversAppend(before, [SixteenRange(k)], u);
          CoversOne(SixteenRange(k), u);
        }
      }
    }
  }

  /** The routes that startEngine installs: disjoint aligned blocks that hold exactly the addresses
      that are not excluded, and the sentinel block. */
  method BuildRoutes(server: Option<Address>, table: Option<seq<CidrLine>>) returns (builder: Builder, routes: nat)
    ensures routes == |builder.routes|
    ensures Ordered(builder.routes)
    ensures forall u :: InSome(builder.routes, u) <==>
      0 <= u < SPACE && (!Excluded(server, table, u) || SENTINEL.Has(u))
  {
    hide Covers, Excluded, InSome, EmitSpec;
    builder := new Builder();
    var excluded := Exclusions(server, table);
    SortSorts(excluded);
    SameMembers(excluded, Sort(excluded));
    var merged := Merge(Sort(excluded));
    var carved := Carve(merged);
    routes := Complement(builder, carved);
    GapsOrdered(carved, 0);
    assert builder.routes == GapBlocks(carved, 0);
    forall u ensures InSome(builder.routes, u) <==> 0 <= u < SPACE && (!Excluded(server, table, u) || SENTINEL.Has(u)) {
      GapsExact(carved, 0, u);
    }
  }
}
