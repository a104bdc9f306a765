/** The walkers of DNS messages (section 4.1 of RFC 1035) in src/tun2sock/fakeip.go,
    src/protocol/dns.go and src/server/dnsrelay.go, and the answers that are patched together. */
module DnsWire {
  import opened Basics

  function Word(q: Bytes, i: nat): int
    requires i + 2 <= |q|
  {
    var hi: int := q[i];
    256 * hi + q[i + 1]
  }

  function Join(labels: seq<Bytes>): Bytes {
    if labels == [] then []
    else if |labels| == 1 then labels[0]
    else Join(labels[..|labels| - 1]) + ['.' as int] + labels[|labels| - 1]
  }

  // ---------- the four walks, as functions of the message ----------

  datatype Walked = Walked(labels: seq<Bytes>, end: nat)

  /** dnsQName: labels only, no compression pointers. */
  function Labels(q: Bytes, i: nat): (w: Option<Walked>)
    ensures w.Some? ==> i < w.value.end <= |q|
    decreases |q| - i
  {
    if i >= |q| then None
    else
      var l := q[i];
      if l == 0 then Some(Walked([], i + 1))
      else if l >= 64 || i + 1 + l > |q| then None
      else
        match Labels(q, i + 1 + l)
        case None => None
        case Some(w) => Some(Walked([q[i + 1..i + 1 + l]] + w.labels, w.end))
  }

  /** queryType and emptyAnswer: only where the name ends. */
  function SkipName(q: Bytes, i: nat): (end: Option<nat>)
    ensures end.Some? ==> i < end.value
    decreases |q| - i
  {
    if i >= |q| then None
    else if q[i] == 0 then Some(i + 1)
    else SkipName(q, i + 1 + q[i])
  }

  /** DNSQname: labels up to the end of the message or a zero; None for a label that does not fit. */
  function LooseLabels(q: Bytes, i: nat): Option<seq<Bytes>>
    decreases |q| - i
  {
    if i >= |q| || q[i] == 0 then Some([])
    else if i + 1 + q[i] > |q| then None
    else
      match LooseLabels(q, i + 1 + q[i])
      case None => None
      case Some(ls) => Some([q[i + 1..i + 1 + q[i]]] + ls)
  }

  datatype Question = Question(name: Bytes, qtype: int, qend: nat)

  const REJECTED := Question([], 0, 0)

  /** The result of dnsQName. */
  function Parsed(q: Bytes): Question {
    if |q| < 12 then REJECTED
    else
      match Labels(q, 12)
      case None => REJECTED
      case Some(w) =>
        if w.end + 4 > |q| then REJECTED else Question(Join(w.labels), Word(q, w.end), w.end + 4)
  }

  ghost predicate Accepted(q: Bytes) {
    |q| >= 12 && Labels(q, 12).Some? && Labels(q, 12).value.end + 4 <= |q|
  }

  // ---------- the loops ----------

  function Prefixed(seen: seq<Bytes>, w: Option<Walked>): Option<Walked> {
    match w
    case None => None
    case Some(v) => Some(Walked(seen + v.labels, v.end))
  }

  lemma LabelsUnfold(q: Bytes, i: nat, seen: seq<Bytes>)
    requires i < |q| && 0 < q[i] < 64 && i + 1 + q[i] <= |q|
    ensures Prefixed(seen, Labels(q, i)) == Prefixed(seen + [q[i + 1..i + 1 + q[i]]], Labels(q, i + 1 + q[i]))
  {
    var rest := Labels(q, i + 1 + q[i]);
    if rest.Some? {
      assert seen + ([q[i + 1..i + 1 + q[i]]] + rest.value.labels) == seen + [q[i + 1..i + 1 + q[i]]] + rest.value.labels;
    }
  }

  function LoosePrefixed(seen: seq<Bytes>, ls: Option<seq<Bytes>>): Option<seq<Bytes>> {
    match ls
    case None => None
    case Some(v) => Some(seen + v)
  }

  lemma PrefixNothing(w: Option<Walked>, ls: Option<seq<Bytes>>)
    ensures Prefixed([], w) == w && LoosePrefixed([], ls) == ls
  {
    if w.Some? {
      assert [] + w.value.labels == w.value.labels;
    }
    if ls.Some? {
      assert [] + ls.value == ls.value;
    }
  }

  method JoinLabels(labels: seq<Bytes>) returns (name: Bytes)
    ensures name == Join(labels)
  {
    name := [];
    for i := 0 to |labels|
      invariant name == Join(labels[..i])
    {
      assert labels[..i + 1][..i] == labels[..i];
      if i > 0 {
        name := name + ['.' as int];
      }
      name := name + labels[i];
    }
    assert labels[..|labels|] == labels;
  }

  method DnsQName(pkt: Bytes) returns (r: Question)
    ensures r == Parsed(pkt)
  {
    if |pkt| < 12 {
      return REJECTED;
    }
    var i := 12;
    var labels: seq<Bytes> := [];
    PrefixNothing(Labels(pkt, 12), None);
    while true
      invariant 12 <= i
      invariant Prefixed(labels, Labels(pkt, i)) == Labels(pkt, 12)
      decreases |pkt| - i
    {
      if i >= |pkt| {
        return REJECTED;
      }
      var l := pkt[i];
      if l != 0 && l < 64 && i + 1 + l <= |pkt| {
        LabelsUnfold(pkt, i, labels);
      }
      i := i + 1;
      if l == 0 {
        assert labels + [] == labels;
        break;
      }
      if l >= 64 || i + l > |pkt| {
        return REJECTED;
      }
      labels := labels + [pkt[i..i + l]];
      i := i + l;
    }
    if i + 4 > |pkt| {
      return REJECTED;
    }
    var name := JoinLabels(labels);
    r := Question(name, Word(pkt, i), i + 4);
  }

  lemma LooseUnfold(q: Bytes, i: nat, seen: seq<Bytes>)
    requires i < |q|
    ensures var rest := LooseLabels(q, i + 1 + q[i]);
      LoosePrefixed(seen, LooseLabels(q, i)) ==
        if q[i] == 0 then Some(seen)
        else if i + 1 + q[i] > |q| then None
        else LoosePrefixed(seen + [q[i + 1..i + 1 + q[i]]], rest)
  {
    if q[i] == 0 {
      assert seen + [] == seen;
    } else if i + 1 + q[i] <= |q| {
      var rest := LooseLabels(q, i + 1 + q[i]);
      if rest.Some? {
        assert seen + ([q[i + 1..i + 1 + q[i]]] + rest.value) == seen + [q[i + 1..i + 1 + q[i]]] + rest.value;
      }
    }
  }

  lemma LooseAtEnd(q: Bytes, i: nat, seen: seq<Bytes>)
    requires i >= |q|
    ensures LoosePrefixed(seen, LooseLabels(q, i)) == Some(seen)
  {
    assert seen + [] == seen;
  }

  lemma JoinOneMore(seen: seq<Bytes>, piece: Bytes)
    requires piece != []
    ensures Join(seen + [piece]) == (if seen == [] then [] else Join(seen) + ['.' as int]) + piece != []
  {
    assert (seen + [piece])[..|seen|] == seen;
  }

  /** DNSQname of src/protocol/dns.go. */
  method ProtocolQname(query: Bytes) returns (name: Bytes)
    ensures name == if |query| < 12 || LooseLabels(query, 12).None? then [] else Join(LooseLabels(query, 12).value)
  {
    if |query| < 12 {
      return [];
    }
    name := [];
    var i := 12;
    ghost var seen: seq<Bytes> := [];
    PrefixNothing(None, LooseLabels(query, 12));
    while i < |query|
      invariant 12 <= i
      invariant name == Join(seen)
      invariant name == [] <==> seen == []
      invariant LoosePrefixed(seen, LooseLabels(query, i)) == LooseLabels(query, 12)
    {
      hide LooseLabels, LoosePrefixed, Join;
      LooseUnfold(query, i, seen);
      var l := query[i];
      i := i + 1;
      if l == 0 {
        return;
      }
      if i + l > |query| {
        return [];
      }
      JoinOneMore(seen, query[i..i + l]);
      if |name| > 0 {
        name := name + ['.' as int];
      }
      name := name + query[i..i + l];
      seen := seen + [query[i..i + l]];
      i := i + l;
    }
    LooseAtEnd(query, i, seen);
  }

  method QueryType(q: Bytes) returns (t: int)
    ensures t == if |q| < 12 || SkipName(q, 12).None? || SkipName(q, 12).value + 4 > |q| then 0
                 else Word(q, SkipName(q, 12).value)
  {
    if |q| < 12 {
      return 0;
    }
    var i := 12;
    while true
      invariant 12 <= i && SkipName(q, i) == SkipName(q, 12)
      decreases |q| - i
    {
      if i >= |q| {
        return 0;
      }
      var l := q[i];
      i := i + 1;
      if l == 0 {
        break;
      }
      i := i + l;
    }
    if i + 4 > |q| {
      return 0;
    }
    t := Word(q, i);
  }

  // ---------- patched answers ----------

  /** A copy of the first n bytes with the flags 0x8180 and an answer count. */
  function Patched(q: Bytes, n: nat, answers: byte): Bytes
    requires 12 <= n <= |q|
  {
    q[..2] + [0x81, 0x80] + q[4..6] + [0, answers] + q[8..n]
  }

  method Patch(q: Bytes, n: nat, answers: byte) returns (resp: Bytes)
    requires 12 <= n <= |q|
    ensures resp == Patched(q, n, answers)
  {
    var buf := new byte[n](i requires 0 <= i < n => q[i]);
    buf[2], buf[3] := 0x81, 0x80;
    buf[6], buf[7] := 0, answers;
    resp := buf[..];
    assert resp == Patched(q, n, answers);
  }

  /** emptyAnswer of the server. */
  method EmptyAnswer(q: Bytes) returns (resp: Option<Bytes>)
    ensures resp == if SkipName(q, 12).None? || SkipName(q, 12).value + 4 > |q| then None
                    else Some(Patched(q, SkipName(q, 12).value + 4, 0))
  {
    var i := 12;
    while true
      invariant 12 <= i && SkipName(q, i) == SkipName(q, 12)
      decreases |q| - i
    {
      if i >= |q| {
        return None;
      }
      var l := q[i];
      i := i + 1;
      if l == 0 {
        break;
      }
      i := i + l;
    }
    i := i + 4;
    if i > |q| {
      return None;
    }
    var r := Patch(q, i, 0);
    resp := Some(r);
  }

  /** nodataAnswer of the phone. */
  method NodataAnswer(q: Bytes, qend: nat) returns (resp: Bytes)
    requires 12 <= qend <= |q|
    ensures resp == Patched(q, qend, 0)
  {
    resp := Patch(q, qend, 0);
  }

  function IpBytes(ip: nat): Bytes
  {
    [ip / 0x1000000 % 256, ip / 0x10000 % 256, ip / 0x100 % 256, ip % 256]
  }

  /** Pointer to the question, type A, class IN, TTL 60, four bytes of data. */
  function AnswerRecord(ip: nat): Bytes {
    [0xC0, 0x0C, 0, 1, 0, 1, 0, 0, 0, 60, 0, 4] + IpBytes(ip)
  }

  method SyntheticA(q: Bytes, qend: nat, ip: nat) returns (resp: Bytes)
    requires 12 <= qend <= |q|
    ensures resp == Patched(q, qend, 1) + AnswerRecord(ip)
  {
    hide AnswerRecord;
    var hdr := Patch(q, 12, 1);
    resp := hdr + q[12..qend] + AnswerRecord(ip);
    assert hdr + q[12..qend] == Patched(q, qend, 1);
  }

  // ---------- the walkers agree ----------

  lemma {:induction false} WalksAgree(q: Bytes, i: nat)
    requires Labels(q, i).Some?
    ensures SkipName(q, i) == Some(Labels(q, i).value.end)
    ensures LooseLabels(q, i) == Some(Labels(q, i).value.labels)
    decreases |q| - i
  {
    if q[i] == 0 {
    } else {
      WalksAgree(q, i + 1 + q[i]);
    }
  }

  /** Whenever dnsQName accepts a query, the other walkers find the same name, type and end: all four
      results coincide. */
  method AgreeOnQuery(q: Bytes) returns (r: Question, name: Bytes, t: int, empty: Option<Bytes>, nodata: Bytes)
    requires Accepted(q)
    ensures 12 < r.qend <= |q|
    ensures name == r.name && t == r.qtype
    ensures empty == Some(nodata)
  {
    WalksAgree(q, 12);
    r := DnsQName(q);
    name := ProtocolQname(q);
    t := QueryType(q);
    empty := EmptyAnswer(q);
    nodata := NodataAnswer(q, r.qend);
  }

  // ---------- encoding a name ----------

  ghost predicate ValidLabels(labels: seq<Bytes>) {
    forall i :: 0 <= i < |labels| ==> 0 < |labels[i]| < 64
  }

  function EncodeName(labels: seq<Bytes>): Bytes
    requires forall i :: 0 <= i < |labels| ==> |labels[i]| < 256
  {
    if labels == [] then [0] else [|labels[0]|] + labels[0] + EncodeName(labels[1..])
  }

  lemma EncodedEnd(before: Bytes, after: Bytes)
    ensures EncodeName([]) == [0]
    ensures Labels(before + [0] + after, |before|) == Some(Walked([], |before| + 1))
  {
    assert (before + [0] + after)[|before|] == 0;
  }

  lemma MiddlePart(before: Bytes, name: Bytes, after: Bytes)
    requires |name| < 256
    ensures var q := before + ([|name|] + name) + after;
      q[|before|] == |name| && q[|before| + 1..|before| + 1 + |name|] == name
  {
    var head := before + [|name|];
    assert before + ([|name|] + name) + after == head + name + after;
    assert (head + name + after)[|head|..|head| + |name|] == name;
  }

  lemma LabelsStep(q: Bytes, i: nat)
    requires i < |q| && 0 < q[i] < 64 && i + 1 + q[i] <= |q|
    ensures var rest := Labels(q, i + 1 + q[i]);
      Labels(q, i) == if rest.None? then None
                      else Some(Walked([q[i + 1..i + 1 + q[i]]] + rest.value.labels, rest.value.end))
  {
  }

  lemma EncodedStep(before: Bytes, name: Bytes, after: Bytes)
    requires 0 < |name| < 64
    ensures var q := before + ([|name|] + name) + after;
      var rest := Labels(q, |before| + 1 + |name|);
      Labels(q, |before|) == if rest.None? then None else Some(Walked([name] + rest.value.labels, rest.value.end))
  {
    hide Labels;
    MiddlePart(before, name, after);
    LabelsStep(before + ([|name|] + name) + after, |before|);
  }

  lemma EncodeStep(labels: seq<Bytes>)
    requires labels != [] && ValidLabels(labels)
    ensures EncodeName(labels) == ([|labels[0]|] + labels[0]) + EncodeName(labels[1..])
  {
  }

  /** Every list of valid labels, written after any bytes and before any others, is read back. */
  lemma {:induction false} LabelsOfEncoding(before: Bytes, labels: seq<Bytes>, after: Bytes)
    requires ValidLabels(labels)
    ensures Labels(before + EncodeName(labels) + after, |before|)
         == Some(Walked(labels, |before| + |EncodeName(labels)|))
    decreases labels
  {
    hide Labels, EncodeName;
    if labels == [] {
      EncodedEnd(before, after);
    } else {
      var name, tail := labels[0], EncodeName(labels[1..]);
      var head := [|name|] + name;
      EncodeStep(labels);
      LabelsOfEncoding(before + head, labels[1..], after);
      EncodedStep(before, name, tail + after);
      assert before + head + (tail + after) == before + (head + tail) + after == (before + head) + tail + after;
      assert [name] + labels[1..] == labels;
    }
  }

  /** A query for a valid name is accepted, with the joined name and its type. */
  lemma QueryRoundTrip(header: Bytes, labels: seq<Bytes>, qtype: Bytes, qclass: Bytes, rest: Bytes)
    requires |header| == 12 && ValidLabels(labels) && |qtype| == 2 && |qclass| == 2
    ensures var q := header + EncodeName(labels) + (qtype + qclass + rest);
      Accepted(q) && Parsed(q) == Question(Join(labels), Word(qtype, 0), 12 + |EncodeName(labels)| + 4)
  {
    var q := header + EncodeName(labels) + (qtype + qclass + rest);
    LabelsOfEncoding(header, labels, qtype + qclass + rest);
    var e := 12 + |EncodeName(labels)|;
    hide Labels, EncodeName, Join;
    assert q[e] == qtype[0] && q[e + 1] == qtype[1];
  }

  // ---------- what the walkers accept ----------

  /** q holds the encoding of these labels at i. */
  ghost predicate Holds(q: Bytes, i: nat, labels: seq<Bytes>) {
    && i <= |q|
    && (forall k :: 0 <= k < |labels| ==> 0 < |labels[k]| < 256)
    && EncodeName(labels) <= q[i..]
  }

  lemma HoldsEnd(q: Bytes, i: nat)
    requires i < |q|
    ensures Holds(q, i, []) <==> q[i] == 0
  {
    assert q[i..][0] == q[i];
    assert EncodeName([]) == [0];
  }

  lemma HoldsStep(q: Bytes, i: nat, labels: seq<Bytes>)
    requires i < |q| && labels != []
    ensures Holds(q, i, labels) <==>
      && q[i] > 0 && i + 1 + q[i] <= |q|
      && labels[0] == q[i + 1..i + 1 + q[i]] && Holds(q, i + 1 + q[i], labels[1..])
  {
    var l: nat := q[i];
    var rest := labels[1..];
    if Holds(q, i, labels) {
      var enc := EncodeName(labels);
      assert enc == [|labels[0]|] + labels[0] + EncodeName(rest);
      assert enc[0] == q[i..][0];
      assert enc[1..1 + l] == labels[0] && q[i..][1..1 + l] == q[i + 1..i + 1 + l];
      assert q[i..][1 + l..] == q[i + 1 + l..] && enc[1 + l..] == EncodeName(rest);
    }
    if l > 0 && i + 1 + l <= |q| && labels[0] == q[i + 1..i + 1 + l] && Holds(q, i + 1 + l, rest) {
      assert forall k :: 0 < k < |labels| ==> labels[k] == rest[k - 1];
      assert q[i..] == [l] + q[i + 1..i + 1 + l] + q[i + 1 + l..];
    }
  }

  /** They end there. */
  ghost predicate Spans(q: Bytes, i: nat, labels: seq<Bytes>, end: nat) {
    Holds(q, i, labels) && end == i + |EncodeName(labels)|
  }

  lemma SpansEnd(q: Bytes, i: nat, labels: seq<Bytes>, end: nat)
    requires i < |q| && (labels == [] || q[i] == 0)
    ensures Spans(q, i, labels, end) <==> labels == [] && q[i] == 0 && end == i + 1
  {
    HoldsEnd(q, i);
    if labels != [] {
      HoldsStep(q, i, labels);
    }
    assert EncodeName([]) == [0];
  }

  lemma SpansStep(q: Bytes, i: nat, labels: seq<Bytes>, end: nat)
    requires i < |q| && labels != []
    ensures Spans(q, i, labels, end) <==>
      && q[i] > 0 && i + 1 + q[i] <= |q|
      && labels[0] == q[i + 1..i + 1 + q[i]] && Spans(q, i + 1 + q[i], labels[1..], end)
  {
    HoldsStep(q, i, labels);
    if Holds(q, i, labels) {
      assert EncodeName(labels) == [|labels[0]|] + labels[0] + EncodeName(labels[1..]);
    }
  }

  lemma SpansNothing(q: Bytes, labels: seq<Bytes>, end: nat)
    ensures !Spans(q, |q|, labels, end)
  {
  }

  lemma ValidStep(labels: seq<Bytes>)
    requires labels != []
    ensures ValidLabels(labels) <==> 0 < |labels[0]| < 64 && ValidLabels(labels[1..])
  {
    if 0 < |labels[0]| < 64 && ValidLabels(labels[1..]) {
      assert forall k :: 0 < k < |labels| ==> labels[k] == labels[1..][k - 1];
    }
    if ValidLabels(labels) {
      assert forall k :: 0 <= k < |labels| - 1 ==> labels[1..][k] == labels[k + 1];
    }
  }

  /** dnsQName walks over a name if and only if it is there: its labels have at most 63 bytes, and their
      encoding stands in the message and ends where the walk ends. */
  lemma {:induction false} LabelsExact(q: Bytes, i: nat, labels: seq<Bytes>, end: nat)
    requires i <= |q|
    ensures Labels(q, i) == Some(Walked(labels, end)) <==> ValidLabels(labels) && Spans(q, i, labels, end)
    decreases |q| - i
  {
    assert ValidLabels([]);
    hide Spans, ValidLabels;
    if i == |q| {
      SpansNothing(q, labels, end);
    } else if labels == [] || q[i] == 0 {
      SpansEnd(q, i, labels, end);
    } else {
      SpansStep(q, i, labels, end);
      ValidStep(labels);
      if i + 1 + q[i] <= |q| {
        LabelsExact(q, i + 1 + q[i], labels[1..], end);
        assert labels == [labels[0]] + labels[1..];
      }
    }
  }

  /** DNSQname takes labels of any length, and the end of the message for the end of the name. */
  lemma {:induction false} LooseExact(q: Bytes, i: nat, labels: seq<Bytes>)
    requires i <= |q|
    ensures LooseLabels(q, i) == Some(labels) <==> Holds(q + [0], i, labels)
    decreases |q| - i
  {
    var m := q + [0];
    hide Holds;
    if i == |q| || labels == [] || q[i] == 0 {
      HoldsEnd(m, i);
      if labels != [] {
        HoldsStep(m, i, labels);
      }
    } else {
      HoldsStep(m, i, labels);
      if i + 1 + q[i] <= |q| {
        LooseExact(q, i + 1 + q[i], labels[1..]);
        assert labels == [labels[0]] + labels[1..];
        assert m[i + 1..i + 1 + q[i]] == q[i + 1..i + 1 + q[i]];
      }
    }
  }

  lemma SkipStep(q: Bytes, i: nat, labels: seq<Bytes>, end: nat)
    requires i < |q| && q[i] > 0 && Spans(q, i, labels, end)
    ensures labels != [] && i + 1 + q[i] <= |q| && Spans(q, i + 1 + q[i], labels[1..], end)
  {
    hide Spans;
    if labels == [] {
      SpansEnd(q, i, labels, end);
    } else {
      SpansStep(q, i, labels, end);
    }
  }

  /** queryType and emptyAnswer step over labels of any length, up to a zero. */
  lemma {:induction false} SkipExact(q: Bytes, i: nat, end: nat)
    requires i <= |q|
    ensures SkipName(q, i) == Some(end) <==> exists labels :: Spans(q, i, labels, end)
    decreases |q| - i
  {
    hide Spans;
    if i == |q| {
      forall labels ensures !Spans(q, i, labels, end) {
        SpansNothing(q, labels, end);
      }
    } else if q[i] == 0 {
      SpansEnd(q, i, [], end);
      forall labels | Spans(q, i, labels, end) ensures end == i + 1 {
        SpansEnd(q, i, labels, end);
      }
    } else {
      var next := i + 1 + q[i];
      if exists labels :: Spans(q, i, labels, end) {
        var labels :| Spans(q, i, labels, end);
        SkipStep(q, i, labels, end);
        SkipExact(q, next, end);
      }
      if next <= |q| && SkipName(q, i) == Some(end) {
        SkipExact(q, next, end);
        var rest :| Spans(q, next, rest, end);
        var labels := [q[i + 1..next]] + rest;
        assert labels[1..] == rest;
        SpansStep(q, i, labels, end);
      }
    }
  }

  /** A query is accepted if and only if a valid name and four more bytes stand behind its head; then it has
      the joined name, and the type that follows it. */
  lemma ParsedExact(q: Bytes)
    ensures Accepted(q) <==>
      && |q| >= 12
      && exists labels, end: nat :: ValidLabels(labels) && Spans(q, 12, labels, end) && end + 4 <= |q|
    ensures !Accepted(q) ==> Parsed(q) == REJECTED
    ensures forall labels, end: nat :: |q| >= 12 && ValidLabels(labels) && Spans(q, 12, labels, end) && end + 4 <= |q| ==>
      Parsed(q) == Question(Join(labels), Word(q, end), end + 4)
  {
    hide ValidLabels, Spans, Join, Word;
    if |q| >= 12 {
      forall labels, end: nat
        ensures Labels(q, 12) == Some(Walked(labels, end)) <==> ValidLabels(labels) && Spans(q, 12, labels, end)
      {
        LabelsExact(q, 12, labels, end);
      }
      if Labels(q, 12).Some? {
        var w := Labels(q, 12).value;
        assert ValidLabels(w.labels) && Spans(q, 12, w.labels, w.end);
      }
    }
  }
}
