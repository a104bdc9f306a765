/** The CN range table of src/cnroute/cnroute.go: load, merge in place, binary search. */
module CnRoute {
  import opened Basics
  import opened BitStrings
  import opened Cidr
  import opened AndroidRoutes

  const MAX_ADDRESS: int := 0xFFFF_FFFF

  /** cnRange; both ends are uint32. */
  datatype Range = Range(start: Address, end: Address) {
    predicate Has(u: int) {
      start <= u <= end
    }
  }

  ghost predicate InRanges(rs: seq<Range>, u: int) {
    exists i :: 0 <= i < |rs| && rs[i].Has(u)
  }

  /** The table as a linear scan over the parsed blocks; prefix length 0 is skipped. */
  ghost predicate InTable(lines: seq<CidrLine>, u: int) {
    exists i :: 0 <= i < |lines| && lines[i].prefix >= 1 && IpRange(lines[i].ip, lines[i].prefix).Has(u)
  }

  // ---------- parsing and sorting ----------

  function ParseLine(line: CidrLine): Range {
    var r := IpRange(line.ip, line.prefix);
    IpRangeFacts(line.ip, line.prefix);
    Range(r.first, r.second)
  }

  function ParsedRanges(lines: seq<CidrLine>): seq<Range> {
    if lines == [] then []
    else
      var init := ParsedRanges(lines[..|lines| - 1]);
      var line := lines[|lines| - 1];
      if line.prefix == 0 then init else init + [ParseLine(line)]
  }

  ghost predicate SortedByStart(rs: seq<Range>) {
    forall i, j :: 0 <= i < j < |rs| ==> rs[i].start <= rs[j].start
  }

  ghost predicate Proper(rs: seq<Range>) {
    forall i :: 0 <= i < |rs| ==> rs[i].start <= rs[i].end
  }

  function InsertByStart(x: Range, rs: seq<Range>): seq<Range> {
    if rs == [] || x.start <= rs[0].start then [x] + rs else [rs[0]] + InsertByStart(x, rs[1..])
  }

  lemma {:induction false} InsertByStartAdds(x: Range, rs: seq<Range>)
    ensures multiset(InsertByStart(x, rs)) == multiset(rs) + multiset{x}
  {
    if rs != [] && x.start > rs[0].start {
      InsertByStartAdds(x, rs[1..]);
      assert rs == [rs[0]] + rs[1..];
    }
  }

  lemma {:induction false} InsertByStartSorted(x: Range, rs: seq<Range>)
    requires SortedByStart(rs)
    ensures SortedByStart(InsertByStart(x, rs))
  {
    if rs != [] && x.start > rs[0].start {
      InsertByStartSorted(x, rs[1..]);
      InsertByStartAdds(x, rs[1..]);
      var r := InsertByStart(x, rs[1..]);
      assert InsertByStart(x, rs) == [rs[0]] + r;
      hide InsertByStart;
      forall k | 0 <= k < |r| ensures rs[0].start <= r[k].start {
        assert r[k] in multiset(r);
        assert r[k] == x || r[k] in rs[1..];
      }
    }
  }

  lemma InsertByStartFacts(x: Range, rs: seq<Range>)
    requires SortedByStart(rs)
    ensures SortedByStart(InsertByStart(x, rs))
    ensures multiset(InsertByStart(x, rs)) == multiset(rs) + multiset{x}
  {
    InsertByStartAdds(x, rs);
    InsertByStartSorted(x, rs);
  }

  /** sort.Slice by start: of the order among equal starts nothing is promised. */
  method SortSlice(rs: seq<Range>) returns (sorted: seq<Range>)
    ensures SortedByStart(sorted) && multiset(sorted) == multiset(rs)
  {
    sorted := [];
    for i := 0 to |rs|
      invariant SortedByStart(sorted) && multiset(sorted) == multiset(rs[..i])
    {
      InsertByStartFacts(rs[i], sorted);
      assert rs[..i + 1] == rs[..i] + [rs[i]];
      sorted := InsertByStart(rs[i], sorted);
    }
    assert rs[..|rs|] == rs;
  }

  // ---------- the merge ----------

  /** last.end + 1 in uint32. */
  function NextAddress(end: Address): Address {
    (end + 1) % SPACE
  }

  /** What one further range does to the merged ranges. */
  function MergeOne(merged: seq<Range>, r: Range): seq<Range>
    requires merged != []
  {
    var last := merged[|merged| - 1];
    if r.start <= NextAddress(last.end) then
      if r.end > last.end then merged[..|merged| - 1] + [Range(last.start, r.end)] else merged
    else merged + [r]
  }

  function MergeAll(rs: seq<Range>): (merged: seq<Range>)
    requires rs != []
    ensures 0 < |merged| <= |rs|
  {
    if |rs| == 1 then rs else MergeOne(MergeAll(rs[..|rs| - 1]), rs[|rs| - 1])
  }

  /** The body of the merging loop. */
  method MergeNext(a: array<Range>, n: nat, i: nat) returns (n': nat)
    requires 0 < n <= i < a.Length
    modifies a
    ensures 0 < n' <= i + 1 && a[..n'] == MergeOne(old(a[..n]), old(a[i]))
    ensures a[i + 1..] == old(a[i + 1..])
  {
    ghost var merged := a[..n];
    var r := a[i];
    n' := n;
    if r.start <= NextAddress(a[n - 1].end) {
      if r.end > a[n - 1].end {
        a[n - 1] := Range(a[n - 1].start, r.end);
        assert a[..n] == merged[..n - 1] + [a[n - 1]];
      }
    } else {
      a[n] := r;
      n' := n + 1;
      assert a[..n'] == merged + [r];
    }
  }

  lemma MergeAllStep(rs: seq<Range>, i: nat)
    requires 0 < i < |rs|
    ensures MergeAll(rs[..i + 1]) == MergeOne(MergeAll(rs[..i]), rs[i])
  {
    assert rs[..i + 1][..i] == rs[..i];
  }

  /** The merge over the slice's own backing array: the write index never passes the read index. */
  method MergeInPlace(a: array<Range>) returns (n: nat)
    requires a.Length > 0
    modifies a
    ensures 0 < n <= a.Length
    ensures a[..n] == MergeAll(old(a[..]))
  {
    n := 1;
    ghost var rs := a[..];
    assert rs[..1] == [rs[0]];
    for i := 1 to a.Length
      invariant 0 < n <= i
      invariant a[..n] == MergeAll(rs[..i])
      invariant a[i..] == rs[i..]
    {
      hide MergeAll, MergeOne;
      assert a[i] == rs[i..][0];
      MergeAllStep(rs, i);
      n := MergeNext(a, n, i);
      assert a[i + 1..] == rs[i..][1..];
    }
    assert rs[..a.Length] == rs;
  }

  lemma InRangesAppend(a: seq<Range>, b: seq<Range>, u: int)
    ensures InRanges(a + b, u) <==> InRanges(a, u) || InRanges(b, u)
  {
    if InRanges(a, u) {
      var i :| 0 <= i < |a| && a[i].Has(u);
      assert (a + b)[i].Has(u);
    }
    if InRanges(b, u) {
      var i :| 0 <= i < |b| && b[i].Has(u);
      assert (a + b)[|a| + i].Has(u);
    }
  }

  lemma InRangesOne(r: Range, u: int)
    ensures InRanges([r], u) <==> r.Has(u)
  {
    if r.Has(u) {
      assert [r][0].Has(u);
    }
  }

  lemma MergeOneFacts(merged: seq<Range>, r: Range)
    requires merged != [] && Proper(merged) && r.start <= r.end
    requires SortedByStart(merged) && merged[|merged| - 1].start <= r.start
    ensures var m := MergeOne(merged, r);
      && Proper(m) && SortedByStart(m)
      && m[|m| - 1].start <= r.start
      && forall u :: InRanges(m, u) <==> InRanges(merged, u) || r.Has(u)
  {
    var n := |merged| - 1;
    var last := merged[n];
    var m := MergeOne(merged, r);
    assert merged == merged[..n] + [last];
    forall u ensures InRanges(m, u) <==> InRanges(merged, u) || r.Has(u) {
      InRangesAppend(merged[..n], [last], u);
      InRangesAppend(merged[..n], [Range(last.start, r.end)], u);
      InRangesAppend(merged, [r], u);
      InRangesOne(last, u);
      InRangesOne(r, u);
      InRangesOne(Range(last.start, r.end), u);
    }
  }

  lemma InitIsProper(rs: seq<Range>)
    requires |rs| > 1 && Proper(rs) && SortedByStart(rs)
    ensures var init, r := rs[..|rs| - 1], rs[|rs| - 1];
      Proper(init) && SortedByStart(init) && init[|init| - 1].start <= r.start <= r.end && rs == init + [r]
  {
  }

  lemma {:induction false} MergeAllOrder(rs: seq<Range>)
    requires rs != [] && Proper(rs) && SortedByStart(rs)
    ensures var m := MergeAll(rs);
      Proper(m) && SortedByStart(m) && m[|m| - 1].start <= rs[|rs| - 1].start
  {
    hide InRanges, MergeOne, Proper, SortedByStart;
    if |rs| > 1 {
      InitIsProper(rs);
      MergeAllOrder(rs[..|rs| - 1]);
      MergeOneFacts(MergeAll(rs[..|rs| - 1]), rs[|rs| - 1]);
    }
  }

  lemma {:induction false} MergeAllUnion(rs: seq<Range>, u: int)
    requires rs != [] && Proper(rs) && SortedByStart(rs)
    ensures InRanges(MergeAll(rs), u) <==> InRanges(rs, u)
  {
    hide InRanges, MergeOne, Proper, SortedByStart;
    if |rs| > 1 {
      var init, r := rs[..|rs| - 1], rs[|rs| - 1];
      InitIsProper(rs);
      MergeAllOrder(init);
      MergeAllUnion(init, u);
      MergeOneFacts(MergeAll(init), r);
      InRangesAppend(init, [r], u);
      InRangesOne(r, u);
    }
  }

  /** Whatever wraps, merging keeps the starts in order and the covered addresses the same. */
  lemma MergeAllFacts(rs: seq<Range>)
    requires rs != [] && Proper(rs) && SortedByStart(rs)
    ensures var m := MergeAll(rs);
      && Proper(m) && SortedByStart(m)
      && m[|m| - 1].start <= rs[|rs| - 1].start
      && forall u :: InRanges(m, u) <==> InRanges(rs, u)
  {
    hide *;
    MergeAllOrder(rs);
    forall u ensures InRanges(MergeAll(rs), u) <==> InRanges(rs, u) {
      MergeAllUnion(rs, u);
    }
  }

  // ---------- when the merged ranges are strictly separated ----------

  ghost predicate StrictlySeparated(rs: seq<Range>) {
    forall i, j :: 0 <= i < j < |rs| ==> rs[i].end + 1 < rs[j].start
  }

  /** Only the last range of the sorted list may reach the top of the address space. */
  ghost predicate TopOnlyLast(rs: seq<Range>) {
    forall i :: 0 <= i < |rs| - 1 ==> rs[i].end < MAX_ADDRESS
  }

  ghost predicate AllBelowTop(rs: seq<Range>) {
    forall i :: 0 <= i < |rs| ==> rs[i].end < MAX_ADDRESS
  }

  lemma MergeOneSeparated(merged: seq<Range>, r: Range)
    requires merged != [] && Proper(merged) && StrictlySeparated(merged) && AllBelowTop(merged)
    ensures StrictlySeparated(MergeOne(merged, r))
    ensures r.end < MAX_ADDRESS ==> AllBelowTop(MergeOne(merged, r))
  {
    var last := merged[|merged| - 1];
    assert NextAddress(last.end) == last.end + 1;
    hide NextAddress;
    if r.start <= last.end + 1 && r.end > last.end {
      var m := merged[..|merged| - 1] + [Range(last.start, r.end)];
      assert MergeOne(merged, r) == m;
      assert forall i :: 0 <= i < |m| - 1 ==> m[i] == merged[i];
    }
  }

  lemma {:induction false} MergeBelowTop(rs: seq<Range>)
    requires rs != [] && Proper(rs) && SortedByStart(rs) && TopOnlyLast(rs)
    ensures StrictlySeparated(MergeAll(rs))
    ensures AllBelowTop(rs) ==> AllBelowTop(MergeAll(rs))
  {
    if |rs| > 1 {
      var init := rs[..|rs| - 1];
      assert AllBelowTop(init);
      MergeBelowTop(init);
      MergeAllFacts(init);
      MergeOneSeparated(MergeAll(init), rs[|rs| - 1]);
    }
  }

  /** A range that reaches the top, with another one after it in the sorted list, stays in the
      merged list with another one after it. */
  lemma {:induction false} TopBuried(rs: seq<Range>, k: nat) returns (i: nat)
    requires k < |rs| - 1 && rs[k].end == MAX_ADDRESS && rs[k].start > 0
    requires SortedByStart(rs) && Proper(rs)
    ensures i < |MergeAll(rs)| - 1 && MergeAll(rs)[i].end == MAX_ADDRESS
  {
    var init, r := rs[..|rs| - 1], rs[|rs| - 1];
    if k < |init| - 1 {
      i := TopBuried(init, k);
    } else {
      i := |MergeAll(init)| - 1;
      assert r.start >= rs[k].start;
    }
  }

  /** The exact condition: the merged ranges are strictly separated if and only if nothing follows
      a range that ends at the wrap-around of last.end + 1. */
  lemma SeparatedIffTopOnlyLast(rs: seq<Range>)
    requires rs != [] && Proper(rs) && SortedByStart(rs)
    requires forall i :: 0 <= i < |rs| && rs[i].end == MAX_ADDRESS ==> rs[i].start > 0
    ensures StrictlySeparated(MergeAll(rs)) <==> TopOnlyLast(rs)
  {
    if TopOnlyLast(rs) {
      MergeBelowTop(rs);
    } else {
      var k :| 0 <= k < |rs| - 1 && rs[k].end >= MAX_ADDRESS;
      var i := TopBuried(rs, k);
      assert MergeAll(rs)[i].end + 1 >= MergeAll(rs)[i + 1].start;
    }
  }

  // ---------- when the ends of the merged ranges are in order ----------

  ghost predicate EndsInOrder(rs: seq<Range>) {
    forall i, j :: 0 <= i < j < |rs| ==> rs[i].end <= rs[j].end
  }

  /** After a range that reaches the top all others do. */
  ghost predicate TopsLast(rs: seq<Range>) {
    forall i, j :: 0 <= i < j < |rs| && rs[i].end == MAX_ADDRESS ==> rs[j].end == MAX_ADDRESS
  }

  lemma MergeOneEnds(merged: seq<Range>, r: Range)
    requires merged != [] && EndsInOrder(merged) && r.start <= r.end
    requires merged[|merged| - 1].end == MAX_ADDRESS ==> r.end == MAX_ADDRESS && r.start > 0
    ensures var m := MergeOne(merged, r);
      EndsInOrder(m) && m[|m| - 1].end == if r.end > merged[|merged| - 1].end then r.end else merged[|merged| - 1].end
  {
  }

  predicate HasTop(rs: seq<Range>) {
    exists i :: 0 <= i < |rs| && rs[i].end == MAX_ADDRESS
  }

  lemma TopOfPrefix(rs: seq<Range>, n: nat)
    requires n <= |rs| && HasTop(rs[..n])
    ensures HasTop(rs)
  {
    var i :| 0 <= i < n && rs[..n][i].end == MAX_ADDRESS;
    assert rs[i].end == MAX_ADDRESS;
  }

  lemma TopIsLast(rs: seq<Range>)
    requires rs != [] && rs[|rs| - 1].end == MAX_ADDRESS
    ensures HasTop(rs)
  {
  }

  lemma TopsFollow(rs: seq<Range>, n: nat)
    requires n < |rs| && TopsLast(rs) && HasTop(rs[..n])
    ensures rs[n].end == MAX_ADDRESS
  {
    var i :| 0 <= i < n && rs[..n][i].end == MAX_ADDRESS;
    assert rs[i].end == MAX_ADDRESS;
  }

  lemma {:induction false} MergeAllEnds(rs: seq<Range>)
    requires rs != [] && Proper(rs) && TopsLast(rs)
    requires forall i :: 0 <= i < |rs| && rs[i].end == MAX_ADDRESS ==> rs[i].start > 0
    ensures var m := MergeAll(rs); EndsInOrder(m) && (m[|m| - 1].end == MAX_ADDRESS ==> HasTop(rs))
  {
    hide HasTop, MergeOne;
    var n := |rs| - 1;
    if rs[n].end == MAX_ADDRESS {
      TopIsLast(rs);
    }
    if n == 0 {
    } else {
      MergeAllEnds(rs[..n]);
      if HasTop(rs[..n]) {
        TopOfPrefix(rs, n);
        TopsFollow(rs, n);
      }
      MergeOneEnds(MergeAll(rs[..n]), rs[n]);
    }
  }

  // ---------- lookup ----------

  /** sort.Search(n, i => ranges[i].end >= u) on the window i .. j. */
  function SearchEnd(rs: seq<Range>, u: int, i: nat, j: nat): (r: nat)
    requires i <= j <= |rs|
    ensures i <= r <= j
    decreases j - i
  {
    if i == j then i
    else
      var h := (i + j) / 2;
      if rs[h].end < u then SearchEnd(rs, u, h + 1, j) else SearchEnd(rs, u, i, h)
  }

  function Lookup(rs: seq<Range>, u: int): bool {
    var i := SearchEnd(rs, u, 0, |rs|);
    i < |rs| && rs[i].start <= u
  }

  method IsCN(table: Option<seq<Range>>, u: Address) returns (cn: bool)
    ensures cn <==> table.Some? && Lookup(table.value, u)
  {
    if table.None? {
      return false;
    }
    var rs := table.value;
    var i, j := 0, |rs|;
    while i < j
      invariant 0 <= i <= j <= |rs|
      invariant SearchEnd(rs, u, i, j) == SearchEnd(rs, u, 0, |rs|)
    {
      var h := (i + j) / 2;
      if rs[h].end < u {
        i := h + 1;
      } else {
        j := h;
      }
    }
    return i < |rs| && rs[i].start <= u;
  }

  lemma {:induction false} SearchEndFound(rs: seq<Range>, u: int, i: nat, j: nat)
    requires i <= j <= |rs| && (j < |rs| ==> rs[j].end >= u)
    ensures SearchEnd(rs, u, i, j) < |rs| ==> rs[SearchEnd(rs, u, i, j)].end >= u
    decreases j - i
  {
    if i < j {
      var h := (i + j) / 2;
      if rs[h].end < u {
        SearchEndFound(rs, u, h + 1, j);
      } else {
        SearchEndFound(rs, u, i, h);
      }
    }
  }

  /** With ends in order, nothing before the result reaches u. */
  lemma {:induction false} SearchEndFirst(rs: seq<Range>, u: int, i: nat, j: nat, k: nat)
    requires i <= j <= |rs| && (forall a, b :: 0 <= a < b < |rs| ==> rs[a].end <= rs[b].end)
    requires i <= k < |rs| && rs[k].end >= u
    ensures SearchEnd(rs, u, i, j) <= k
    decreases j - i
  {
    if i < j {
      var h := (i + j) / 2;
      if rs[h].end < u {
        SearchEndFirst(rs, u, h + 1, j, k);
      } else {
        SearchEndFirst(rs, u, i, h, k);
      }
    }
  }

  /** A hit is always right, whatever the table. */
  lemma LookupSound(rs: seq<Range>, u: int)
    requires Lookup(rs, u)
    ensures InRanges(rs, u)
  {
    SearchEndFound(rs, u, 0, |rs|);
    assert rs[SearchEnd(rs, u, 0, |rs|)].Has(u);
  }

  /** A range that holds u is never passed by. */
  lemma LookupFinds(rs: seq<Range>, u: int, k: nat)
    requires SortedByStart(rs) && EndsInOrder(rs) && k < |rs| && rs[k].Has(u)
    ensures Lookup(rs, u)
  {
    SearchEndFirst(rs, u, 0, |rs|, k);
    hide SearchEnd, EndsInOrder;
    var i := SearchEnd(rs, u, 0, |rs|);
    assert i <= k;
    assert rs[i].start <= rs[k].start;
  }

  /** With starts and ends in order the binary search is the linear scan. */
  lemma LookupExact(rs: seq<Range>, u: int)
    requires SortedByStart(rs) && EndsInOrder(rs)
    ensures Lookup(rs, u) <==> InRanges(rs, u)
  {
    hide Lookup, SortedByStart, EndsInOrder;
    if Lookup(rs, u) {
      LookupSound(rs, u);
    }
    if InRanges(rs, u) {
      var k: nat :| k < |rs| && rs[k].Has(u);
      LookupFinds(rs, u, k);
    }
  }

  // ---------- when the lookup is exact ----------

  /** Below the top of the address space every merged range keeps its distance from the next one. */
  ghost predicate Gaps(rs: seq<Range>) {
    forall i :: 0 <= i < |rs| - 1 && rs[i].end < MAX_ADDRESS ==> rs[i].end + 1 < rs[i + 1].start
  }

  lemma MergeOneGaps(merged: seq<Range>, r: Range)
    requires merged != [] && Gaps(merged)
    ensures Gaps(MergeOne(merged, r))
  {
    var m, n := MergeOne(merged, r), |merged| - 1;
    forall i | 0 <= i < |m| - 1 && m[i].end < MAX_ADDRESS ensures m[i].end + 1 < m[i + 1].start {
      assert i < n ==> m[i] == merged[i] && m[i + 1].start == merged[i + 1].start;
    }
  }

  lemma {:induction false} MergeAllGaps(rs: seq<Range>)
    requires rs != []
    ensures Gaps(MergeAll(rs))
  {
    if |rs| == 1 {
    } else {
      hide Gaps, MergeOne;
      MergeAllGaps(rs[..|rs| - 1]);
      MergeOneGaps(MergeAll(rs[..|rs| - 1]), rs[|rs| - 1]);
    }
  }

  /** The index of the first range that ends at 255.255.255.255, or the length if none does. */
  function FirstTop(rs: seq<Range>): (t: nat)
    ensures t <= |rs| && forall i :: 0 <= i < t ==> rs[i].end < MAX_ADDRESS
    ensures t < |rs| ==> rs[t].end == MAX_ADDRESS
  {
    if rs == [] then 0 else if rs[0].end == MAX_ADDRESS then 0 else 1 + FirstTop(rs[1..])
  }

  /** Every range from t on that the search for an address behind t's start looks at reaches the top. */
  predicate PathClear(rs: seq<Range>, t: nat, i: nat, j: nat)
    requires i <= t <= j <= |rs|
    decreases j - i
  {
    i == j ||
    var h := (i + j) / 2;
    if h < t then PathClear(rs, t, h + 1, j) else rs[h].end == MAX_ADDRESS && PathClear(rs, t, i, h)
  }

  /** The loaded ranges, as far as the lookup depends on them. */
  ghost predicate Loaded(rs: seq<Range>) {
    Proper(rs) && SortedByStart(rs) && Gaps(rs)
  }

  lemma {:induction false} EndsBelow(rs: seq<Range>, i: nat, j: nat)
    requires Loaded(rs) && i < j < |rs| && j <= FirstTop(rs)
    ensures rs[i].end + 1 < rs[j].start <= rs[j].end
  {
    if i + 1 < j {
      EndsBelow(rs, i, j - 1);
      assert rs[j - 1].end < MAX_ADDRESS;
    }
  }

  /** On a clear path the search for an address behind the first top's start ends there. */
  lemma {:induction false} ClearSearch(rs: seq<Range>, u: Address, i: nat, j: nat)
    requires Loaded(rs) && FirstTop(rs) < |rs| && rs[FirstTop(rs)].start <= u
    requires i <= FirstTop(rs) <= j <= |rs| && PathClear(rs, FirstTop(rs), i, j)
    ensures SearchEnd(rs, u, i, j) == FirstTop(rs)
    decreases j - i
  {
    hide FirstTop, Loaded;
    if i == j {
    } else {
      var h := (i + j) / 2;
      if h < FirstTop(rs) {
        EndsBelow(rs, h, FirstTop(rs));
        ClearSearch(rs, u, h + 1, j);
      } else {
        ClearSearch(rs, u, i, h);
      }
    }
  }

  /** Past a lower range on the path there is only what starts behind the address after it. */
  lemma PastLower(rs: seq<Range>, h: nat, r: nat)
    requires Loaded(rs) && FirstTop(rs) <= h < r <= |rs| && rs[h].end < MAX_ADDRESS
    ensures r < |rs| ==> rs[h].end + 1 < rs[r].start
    ensures rs[FirstTop(rs)].start <= rs[h].end
  {
    hide FirstTop;
    if r < |rs| {
      assert rs[h + 1].start <= rs[r].start;
    }
  }

  /** Otherwise the search for the address behind some lower range on the path goes past it and misses. */
  lemma {:induction false} BlockedSearch(rs: seq<Range>, i: nat, j: nat) returns (u: Address)
    requires Loaded(rs) && i <= FirstTop(rs) <= j <= |rs| && !PathClear(rs, FirstTop(rs), i, j)
    ensures FirstTop(rs) < |rs| && rs[FirstTop(rs)].start <= u
    ensures var r := SearchEnd(rs, u, i, j); r < |rs| ==> u < rs[r].start
    decreases j - i
  {
    hide FirstTop, Loaded;
    var t, h := FirstTop(rs), (i + j) / 2;
    if h < t {
      u := BlockedSearch(rs, h + 1, j);
      EndsBelow(rs, h, t);
    } else if rs[h].end == MAX_ADDRESS {
      u := BlockedSearch(rs, i, h);
    } else {
      u := rs[h].end + 1;
      PastLower(rs, h, SearchEnd(rs, u, h + 1, j));
    }
  }

  lemma Behind(rs: seq<Range>, k: nat, h: nat)
    requires Loaded(rs) && k < FirstTop(rs) && k <= h < |rs|
    ensures rs[k].end <= rs[h].end
  {
    if k < h {
      assert rs[k + 1].start <= rs[h].start;
    }
  }

  /** In front of the first top the search finds every range, whatever follows. */
  lemma {:induction false} LowSearch(rs: seq<Range>, u: int, i: nat, j: nat, k: nat)
    requires Loaded(rs) && i <= k <= j <= |rs| && k < FirstTop(rs) && rs[k].Has(u)
    ensures SearchEnd(rs, u, i, j) == k
    decreases j - i
  {
    hide FirstTop, Loaded;
    if i == j {
    } else {
      var h := (i + j) / 2;
      if h < k {
        EndsBelow(rs, h, k);
        LowSearch(rs, u, h + 1, j, k);
      } else {
        Behind(rs, k, h);
        LowSearch(rs, u, i, h, k);
      }
    }
  }

  /** A loaded table whose lookup can be trusted, by the midpoints of one search. */
  predicate Clear(rs: seq<Range>) {
    PathClear(rs, FirstTop(rs), 0, |rs|)
  }

  lemma StartsBehind(rs: seq<Range>, k: nat)
    requires Loaded(rs) && FirstTop(rs) <= k < |rs|
    ensures rs[FirstTop(rs)].start <= rs[k].start
  {
    hide FirstTop;
  }

  lemma ClearFinds(rs: seq<Range>, u: Address)
    requires Loaded(rs) && Clear(rs) && InRanges(rs, u)
    ensures Lookup(rs, u)
  {
    hide FirstTop, Loaded, PathClear, SearchEnd;
    var k: nat :| k < |rs| && rs[k].Has(u);
    if k < FirstTop(rs) {
      LowSearch(rs, u, 0, |rs|, k);
    } else {
      StartsBehind(rs, k);
      ClearSearch(rs, u, 0, |rs|);
    }
  }

  lemma BlockedMisses(rs: seq<Range>) returns (u: Address)
    requires Loaded(rs) && !Clear(rs)
    ensures InRanges(rs, u) && !Lookup(rs, u)
  {
    hide Loaded, PathClear, SearchEnd;
    u := BlockedSearch(rs, 0, |rs|);
    assert rs[FirstTop(rs)].Has(u);
  }

  lemma {:induction false} BlockedTop(rs: seq<Range>, i: nat, j: nat)
    requires i <= FirstTop(rs) <= j <= |rs| && !PathClear(rs, FirstTop(rs), i, j)
    ensures SearchEnd(rs, MAX_ADDRESS, i, j) > FirstTop(rs)
    decreases j - i
  {
    hide FirstTop;
    var h := (i + j) / 2;
    if h < FirstTop(rs) {
      BlockedTop(rs, h + 1, j);
    } else if rs[h].end == MAX_ADDRESS {
      BlockedTop(rs, i, h);
    }
  }

  lemma {:induction false} NoTopSearch(rs: seq<Range>, i: nat, j: nat)
    requires FirstTop(rs) == |rs| && i <= j <= |rs|
    ensures SearchEnd(rs, MAX_ADDRESS, i, j) == j
    decreases j - i
  {
    hide FirstTop;
    if i == j {
    } else {
      NoTopSearch(rs, (i + j) / 2 + 1, j);
    }
  }

  /** One search decides: a table is clear if and only if the one for 255.255.255.255 ends at the first range
      that reaches it, or behind the last range if none does. */
  lemma ClearIffTopFound(rs: seq<Range>)
    requires Loaded(rs)
    ensures Clear(rs) <==> SearchEnd(rs, MAX_ADDRESS, 0, |rs|) == FirstTop(rs)
  {
    hide FirstTop, Loaded, PathClear, SearchEnd;
    if !Clear(rs) {
      BlockedTop(rs, 0, |rs|);
    } else if FirstTop(rs) < |rs| {
      ClearSearch(rs, MAX_ADDRESS, 0, |rs|);
    } else {
      NoTopSearch(rs, 0, |rs|);
    }
  }

  /** The exact condition, on the loaded table: the lookup is the linear scan for every address if and only
      if the path is clear. */
  lemma LookupExactIff(rs: seq<Range>)
    requires Loaded(rs)
    ensures Clear(rs) <==> forall u: Address :: Lookup(rs, u) <==> InRanges(rs, u)
  {
    hide Loaded, Clear, Lookup, InRanges;
    if Clear(rs) {
      forall u: Address ensures Lookup(rs, u) <==> InRanges(rs, u) {
        if Lookup(rs, u) {
          LookupSound(rs, u);
        }
        if InRanges(rs, u) {
          ClearFinds(rs, u);
        }
      }
    } else {
      var u := BlockedMisses(rs);
    }
  }

  // ---------- load, then look up ----------

  lemma SizeOf(a: seq<Range>, b: seq<Range>)
    requires multiset(a) == multiset(b)
    ensures |a| == |b|
  {
    assert |multiset(a)| == |a| && |multiset(b)| == |b|;
  }

  ghost predicate SortedFrom(lines: seq<CidrLine>, sorted: seq<Range>) {
    sorted != [] && SortedByStart(sorted) && multiset(sorted) == multiset(ParsedRanges(lines))
  }

  /** How a loaded table relates to its lines, for any order that the sort leaves equal starts in. */
  ghost predicate LoadedFrom(lines: seq<CidrLine>, table: Option<seq<Range>>) {
    && (table.None? <==> ParsedRanges(lines) == [])
    && (table.Some? ==> exists sorted: seq<Range> :: SortedFrom(lines, sorted) && table.value == MergeAll(sorted))
  }

  method LoadCnFrom(lines: seq<CidrLine>) returns (table: Option<seq<Range>>)
    ensures LoadedFrom(lines, table)
  {
    var ranges: seq<Range> := [];
    for n := 0 to |lines|
      invariant ranges == ParsedRanges(lines[..n])
    {
      assert lines[..n + 1][..n] == lines[..n];
      if lines[n].prefix != 0 {
        ranges := ranges + [ParseLine(lines[n])];
      }
    }
    assert lines[..|lines|] == lines;
    if |ranges| == 0 {
      return None;
    }
    var sorted := SortSlice(ranges);
    SizeOf(sorted, ranges);
    var a := new Range[|sorted|](i requires 0 <= i < |sorted| => sorted[i]);
    assert a[..] == sorted;
    var n := MergeInPlace(a);
    table := Some(a[..n]);
  }

  /** A block that starts at or after one that ends at 255.255.255.255 ends there, too. */
  ghost predicate TopsTogether(rs: seq<Range>) {
    forall i, j :: 0 <= i < |rs| && 0 <= j < |rs| && rs[i].end == MAX_ADDRESS && rs[j].start >= rs[i].start ==>
      rs[j].end == MAX_ADDRESS
  }

  lemma {:induction false} ParsedFacts(lines: seq<CidrLine>)
    ensures Proper(ParsedRanges(lines))
    ensures forall i :: 0 <= i < |ParsedRanges(lines)| && ParsedRanges(lines)[i].end == MAX_ADDRESS ==>
      ParsedRanges(lines)[i].start > 0
  {
    if lines == [] {
    } else {
      var line := lines[|lines| - 1];
      ParsedFacts(lines[..|lines| - 1]);
      IpRangeFacts(line.ip, line.prefix);
      if line.prefix > 0 {
        Pow2Of32();
        Pow2Monotone(32 - line.prefix, 31);
      }
    }
  }

  lemma {:induction false} ParsedCover(lines: seq<CidrLine>, u: int)
    ensures InRanges(ParsedRanges(lines), u) <==> InTable(lines, u)
  {
    if lines == [] {
    } else {
      var init, line := lines[..|lines| - 1], lines[|lines| - 1];
      ParsedCover(init, u);
      InRangesAppend(ParsedRanges(init), [ParseLine(line)], u);
      InRangesOne(ParseLine(line), u);
      hide InRanges;
      assert lines == init + [line];
      if InTable(init, u) {
        var i :| 0 <= i < |init| && init[i].prefix >= 1 && IpRange(init[i].ip, init[i].prefix).Has(u);
        assert lines[i] == init[i];
      }
      if line.prefix >= 1 && ParseLine(line).Has(u) {
        assert lines[|init|] == line && IpRange(line.ip, line.prefix).Has(u);
      }
    }
  }

  lemma SameRanges(a: seq<Range>, b: seq<Range>)
    requires multiset(a) == multiset(b)
    ensures forall x :: x in a <==> x in b
    ensures forall u :: InRanges(a, u) <==> InRanges(b, u)
  {
    forall x ensures x in a <==> x in b {
      assert x in multiset(a) <==> x in multiset(b);
    }
    forall u ensures InRanges(a, u) <==> InRanges(b, u) {
      if InRanges(a, u) {
        var i :| 0 <= i < |a| && a[i].Has(u);
        assert a[i] in b;
      }
      if InRanges(b, u) {
        var i :| 0 <= i < |b| && b[i].Has(u);
        assert b[i] in a;
      }
    }
  }

  lemma SortedFacts(lines: seq<CidrLine>, sorted: seq<Range>)
    requires SortedFrom(lines, sorted)
    ensures Proper(sorted)
    ensures forall i :: 0 <= i < |sorted| && sorted[i].end == MAX_ADDRESS ==> sorted[i].start > 0
    ensures forall u :: InRanges(sorted, u) <==> InTable(lines, u)
  {
    hide ParsedRanges, InRanges, InTable;
    var p := ParsedRanges(lines);
    ParsedFacts(lines);
    SameRanges(p, sorted);
    forall i | 0 <= i < |sorted|
      ensures sorted[i].start <= sorted[i].end
      ensures sorted[i].end == MAX_ADDRESS ==> sorted[i].start > 0
    {
      assert sorted[i] in p;
    }
    forall u ensures InRanges(sorted, u) <==> InTable(lines, u) {
      ParsedCover(lines, u);
    }
  }

  lemma TopsTogetherSorted(lines: seq<CidrLine>, sorted: seq<Range>)
    requires SortedFrom(lines, sorted) && TopsTogether(ParsedRanges(lines))
    ensures TopsLast(sorted)
  {
    hide ParsedRanges;
    var p := ParsedRanges(lines);
    SameRanges(p, sorted);
    forall i, j | 0 <= i < j < |sorted| && sorted[i].end == MAX_ADDRESS ensures sorted[j].end == MAX_ADDRESS {
      assert sorted[i] in p && sorted[j] in p;
      assert sorted[j].start >= sorted[i].start;
    }
  }

  /** A hit means that some line's block holds the address, for every table. */
  lemma IsCnSound(lines: seq<CidrLine>, table: Option<seq<Range>>, u: int)
    requires LoadedFrom(lines, table) && table.Some? && Lookup(table.value, u)
    ensures InTable(lines, u)
  {
    var sorted :| SortedFrom(lines, sorted) && table.value == MergeAll(sorted);
    SortedFacts(lines, sorted);
    MergeAllFacts(sorted);
    LookupSound(table.value, u);
  }

  /** A condition on the blocks that is enough: no block that ends below 255.255.255.255 starts at or after
      one that ends there. */
  lemma IsCnExact(lines: seq<CidrLine>, table: Option<seq<Range>>, u: int)
    requires LoadedFrom(lines, table) && TopsTogether(ParsedRanges(lines))
    ensures table.Some? && Lookup(table.value, u) <==> InTable(lines, u)
  {
    if table.Some? {
      var sorted :| SortedFrom(lines, sorted) && table.value == MergeAll(sorted);
      SortedFacts(lines, sorted);
      MergeAllFacts(sorted);
      TopsTogetherSorted(lines, sorted);
      MergeAllEnds(sorted);
      LookupExact(table.value, u);
    } else {
      ParsedCover(lines, u);
    }
  }

  lemma LoadedTable(lines: seq<CidrLine>, table: seq<Range>)
    requires LoadedFrom(lines, Some(table))
    ensures Loaded(table) && forall u :: InRanges(table, u) <==> InTable(lines, u)
  {
    var sorted :| SortedFrom(lines, sorted) && table == MergeAll(sorted);
    SortedFacts(lines, sorted);
    hide Gaps, InRanges, InTable, MergeAll;
    MergeAllFacts(sorted);
    MergeAllGaps(sorted);
  }

  /** Load then look up is the linear scan over the lines, for every address, if and only if the search path
      of the loaded table is clear. */
  lemma IsCnExactIff(lines: seq<CidrLine>, table: Option<seq<Range>>)
    requires LoadedFrom(lines, table) && table.Some?
    ensures Clear(table.value) <==> forall u: Address :: Lookup(table.value, u) <==> InTable(lines, u)
  {
    hide Clear, Lookup, InTable, InRanges, Loaded, LoadedFrom;
    LoadedTable(lines, table.value);
    LookupExactIff(table.value);
  }

  lemma Pow2Of24()
    ensures Pow2(24) == 0x1000000 && Pow2(16) == 0x10000 && Pow2(20) == 0x100000
  {
    assert Pow2(4) == 16;
    assert Pow2(8) == 256;
    assert Pow2(12) == 4096;
    assert Pow2(16) == 0x10000;
    assert Pow2(20) == 0x100000;
  }

  lemma NotNegative(x: nat, y: nat)
    ensures x * y >= 0
  {
  }

  lemma LowOfEven(x: nat, k: nat)
    requires k > 0
    ensures Low(2 * x, k) == 2 * Low(x, k - 1)
  {
    assert 2 * x / 2 == x;
  }

  lemma {:induction false} LowOfMultiple(q: nat, k: nat)
    ensures q * Pow2(k) >= 0 && Low(q * Pow2(k), k) == 0
  {
    NotNegative(q, Pow2(k));
    if k == 0 {
    } else {
      LowOfMultiple(q, k - 1);
      var x := q * Pow2(k - 1);
      LowOfEven(x, k);
      Twice(q, Pow2(k - 1));
      assert Pow2(k) == 2 * Pow2(k - 1);
    }
  }

  /** The block of an address whose low bits are zero. */
  lemma AlignedBlock(q: nat, ip: Address, prefix: Prefix)
    requires ip == q * Pow2(32 - prefix)
    ensures IpRange(ip, prefix) == Interval(ip, ip + Pow2(32 - prefix) - 1)
  {
    LowOfMultiple(q, 32 - prefix);
  }

  lemma ExampleBlocks(x: CidrLine, y: CidrLine)
    requires x == CidrLine(0x80000000, 1) && y == CidrLine(0xC0000000, 8)
    ensures ParseLine(x) == Range(0x80000000, MAX_ADDRESS) && ParseLine(y) == Range(0xC0000000, 0xC0FFFFFF)
    ensures IpRange(x.ip, x.prefix).Has(0xD0000000)
  {
    Pow2Of32();
    Pow2Of24();
    AlignedBlock(1, 0x80000000, 1);
    AlignedBlock(0xC0, 0xC0000000, 8);
    hide Pow2, IpRange;
  }

  lemma ParsedTwo(x: CidrLine, y: CidrLine)
    requires x.prefix > 0 && y.prefix > 0
    ensures ParsedRanges([x, y]) == [ParseLine(x), ParseLine(y)]
  {
    assert [x][..0] == [] && [x, y][..1] == [x];
    assert ParsedRanges([x]) == [ParseLine(x)];
  }

  lemma TopSearchMisses()
    ensures var rs := [Range(0x80000000, MAX_ADDRESS), Range(0xC0000000, 0xC0FFFFFF)];
      !Lookup(MergeAll(rs), 0xD0000000)
  {
    var rs := [Range(0x80000000, MAX_ADDRESS), Range(0xC0000000, 0xC0FFFFFF)];
    assert rs[..1] == [rs[0]];
    assert MergeAll(rs) == rs;
    hide MergeAll;
    assert rs[1].end < 0xD0000000;
    assert SearchEnd(rs, 0xD0000000, 2, 2) == 2;
    assert SearchEnd(rs, 0xD0000000, 0, 2) == 2;
  }

  /** The condition is needed: with 128.0.0.0/1 and 192.0.0.0/8 the lookup of 208.0.0.0 misses. */
  lemma IsCnWrapMisses()
    ensures var lines := [CidrLine(0x80000000, 1), CidrLine(0xC0000000, 8)];
      && InTable(lines, 0xD0000000)
      && !Lookup(MergeAll(ParsedRanges(lines)), 0xD0000000)
      && SortedFrom(lines, ParsedRanges(lines))
  {
    var x, y := CidrLine(0x80000000, 1), CidrLine(0xC0000000, 8);
    ExampleBlocks(x, y);
    hide IpRange, ParseLine, Lookup, MergeAll, ParsedRanges;
    ParsedTwo(x, y);
    TopSearchMisses();
    assert [x, y][0] == x;
  }

  /** The condition on the blocks is not needed: with 16.0.0.0/8 in front the same two blocks leave the path
      clear, because the search never looks at the last one. */
  lemma IsCnBuriedHarmless(u: Address)
    ensures var rs := [Range(0x10000000, 0x10FFFFFF), Range(0x80000000, MAX_ADDRESS), Range(0xC0000000, 0xC0FFFFFF)];
      && MergeAll(rs) == rs && !TopsTogether(rs) && Clear(rs)
      && (Lookup(rs, u) <==> InRanges(rs, u))
  {
    var rs := [Range(0x10000000, 0x10FFFFFF), Range(0x80000000, MAX_ADDRESS), Range(0xC0000000, 0xC0FFFFFF)];
    assert rs[..2][..1] == [rs[0]] && rs[..2] == [rs[0], rs[1]];
    assert MergeAll(rs[..1]) == rs[..1] && MergeAll(rs[..2]) == rs[..2];
    assert MergeAll(rs) == rs;
    hide MergeAll;
    assert rs[1].end == MAX_ADDRESS && rs[2].start >= rs[1].start;
    assert rs[1..][0] == rs[1] && FirstTop(rs) == 1;
    assert PathClear(rs, 1, 0, 3) by {
      assert PathClear(rs, 1, 1, 1) && PathClear(rs, 1, 0, 1);
    }
    LookupExactIff(rs);
  }
}
