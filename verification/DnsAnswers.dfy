/** A reader of whole DNS messages (section 4.1 of RFC 1035), what it makes of the answers that the phone
    patches together, and the decisions of handleDNS in src/tun2sock/tun2sock.go. */
module DnsAnswers {
  import opened Basics
  import opened DnsWire
  import F = FakeIp

  // ---------- the reader ----------

  datatype Ask = Ask(labels: seq<Bytes>, qtype: int, qclass: int)
  datatype Record = Record(labels: seq<Bytes>, rtype: int, qclass: int, ttl: int, data: Bytes)
  datatype Message = Message(id: Bytes, flags: int, asks: seq<Ask>,
                             answers: seq<Record>, authority: seq<Record>, additional: seq<Record>)
  datatype Read<+T> = Read(value: T, end: nat)

  /** A name at i, part of the run of labels that begins at `start`; a pointer leads to before the run. */
  function ReadName(m: Bytes, i: nat, start: nat): (r: Option<Walked>)
    ensures r.Some? ==> i < r.value.end <= |m|
    decreases start, |m| - i
  {
    if i >= |m| then None
    else
      var l := m[i];
      if l == 0 then Some(Walked([], i + 1))
      else if l >= 192 then
        if i + 2 > |m| then None
        else
          var target := Word(m, i) - 0xC000;
          if target < 0 || target >= start then None
          else
            match ReadName(m, target, target)
            case None => None
            case Some(w) => Some(Walked(w.labels, i + 2))
      else if l >= 64 || i + 1 + l > |m| then None
      else
        match ReadName(m, i + 1 + l, start)
        case None => None
        case Some(w) => Some(Walked([m[i + 1..i + 1 + l]] + w.labels, w.end))
  }

  function ReadAsk(m: Bytes, i: nat): (r: Option<Read<Ask>>)
    ensures r.Some? ==> i + 5 <= r.value.end <= |m|
  {
    match ReadName(m, i, i)
    case None => None
    case Some(w) =>
      if w.end + 4 > |m| then None
      else Some(Read(Ask(w.labels, Word(m, w.end), Word(m, w.end + 2)), w.end + 4))
  }

  function ReadRecord(m: Bytes, i: nat): (r: Option<Read<Record>>)
    ensures r.Some? ==> i + 11 <= r.value.end <= |m|
  {
    match ReadName(m, i, i)
    case None => None
    case Some(w) =>
      var e := w.end;
      if e + 10 > |m| then None
      else
        var n := Word(m, e + 8);
        if e + 10 + n > |m| then None
        else
          var ttl := 0x10000 * Word(m, e + 4) + Word(m, e + 6);
          Some(Read(Record(w.labels, Word(m, e), Word(m, e + 2), ttl, m[e + 10..e + 10 + n]), e + 10 + n))
  }

  function ReadAsks(m: Bytes, i: nat, n: nat): Option<Read<seq<Ask>>>
    decreases n
  {
    if n == 0 then Some(Read([], i))
    else
      match ReadAsk(m, i)
      case None => None
      case Some(a) =>
        match ReadAsks(m, a.end, n - 1)
        case None => None
        case Some(rest) => Some(Read([a.value] + rest.value, rest.end))
  }

  function ReadRecords(m: Bytes, i: nat, n: nat): Option<Read<seq<Record>>>
    decreases n
  {
    if n == 0 then Some(Read([], i))
    else
      match ReadRecord(m, i)
      case None => None
      case Some(a) =>
        match ReadRecords(m, a.end, n - 1)
        case None => None
        case Some(rest) => Some(Read([a.value] + rest.value, rest.end))
  }

  /** The whole message: the four sections, and nothing left over. */
  function ReadMessage(m: Bytes): Option<Message> {
    if |m| < 12 then None
    else
      match ReadAsks(m, 12, Word(m, 4))
      case None => None
      case Some(asks) =>
        match ReadRecords(m, asks.end, Word(m, 6))
        case None => None
        case Some(answers) =>
          match ReadRecords(m, answers.end, Word(m, 8))
          case None => None
          case Some(authority) =>
            match ReadRecords(m, authority.end, Word(m, 10))
            case None => None
            case Some(additional) =>
              if additional.end != |m| then None
              else Some(Message(m[..2], Word(m, 2), asks.value, answers.value, authority.value, additional.value))
  }

  // ---------- reading back the question ----------

  /** Labels that dnsQName walks in q are read the same in a message that holds the same bytes. */
  lemma {:induction false} NameOfLabels(q: Bytes, m: Bytes, i: nat, start: nat, n: nat)
    requires i <= n <= |q| && n <= |m| && Labels(q, i).Some? && Labels(q, i).value.end <= n
    requires forall k :: i <= k < n ==> m[k] == q[k]
    ensures ReadName(m, i, start) == Labels(q, i)
    decreases |q| - i
  {
    WalksAgree(q, i);
    if q[i] == 0 {
    } else {
      var l := q[i];
      assert m[i + 1..i + 1 + l] == q[i + 1..i + 1 + l] by {
        assert Labels(q, i + 1 + l).Some?;
        WalksAgree(q, i + 1 + l);
      }
      NameOfLabels(q, m, i + 1 + l, start, n);
    }
  }

  /** The message m begins with the name, type and class of the question in q. */
  ghost predicate HoldsQuestion(q: Bytes, m: Bytes)
    requires Accepted(q)
  {
    var n := Parsed(q).qend;
    12 <= n <= |q| && n <= |m| && forall k :: 12 <= k < n ==> m[k] == q[k]
  }

  /** The question of an accepted query, as a reader sees it. */
  ghost function QuestionOf(q: Bytes): Ask
    requires Accepted(q)
  {
    var w := Labels(q, 12).value;
    Ask(w.labels, Word(q, w.end), Word(q, w.end + 2))
  }

  lemma QuestionReads(q: Bytes, m: Bytes)
    requires Accepted(q) && HoldsQuestion(q, m)
    ensures var n := Parsed(q).qend;
      && 17 <= n && ReadName(m, 12, 12) == Some(Walked(QuestionOf(q).labels, n - 4))
      && ReadAsk(m, 12) == Some(Read(QuestionOf(q), n))
  {
    hide Labels, Join;
    var n := Parsed(q).qend;
    NameOfLabels(q, m, 12, 12, n);
    WalksAgree(q, 12);
  }

  // ---------- the synthetic answer ----------

  function Synthetic(q: Bytes, n: nat, ip: nat): Bytes
    requires 12 <= n <= |q|
  {
    Patched(q, n, 1) + AnswerRecord(ip)
  }

  lemma PatchedBytes(q: Bytes, n: nat, answers: byte, tail: Bytes)
    requires 12 <= n <= |q|
    ensures var m := Patched(q, n, answers) + tail;
      && |m| == n + |tail| && m[..2] == q[..2] && m[n..] == tail
      && Word(m, 2) == 0x8180 && Word(m, 4) == Word(q, 4) && Word(m, 6) == answers
      && Word(m, 8) == Word(q, 8) && Word(m, 10) == Word(q, 10)
      && forall k :: 12 <= k < n ==> m[k] == q[k]
  {
  }

  /** A message whose last sixteen bytes, from n on, are the answer record. */
  ghost predicate EndsInAnswer(m: Bytes, n: nat, ip: nat) {
    |m| == n + 16 && m[n..] == AnswerRecord(ip)
  }

  lemma AnswerBytes(m: Bytes, n: nat, ip: nat)
    requires EndsInAnswer(m, n, ip)
    ensures m[n] == 0xC0 && m[n + 6] == 0 && m[n + 11] == 4
    ensures Word(m, n) == 0xC00C && Word(m, n + 2) == Word(m, n + 4) == 1
    ensures Word(m, n + 6) == 0 && Word(m, n + 8) == 60 && Word(m, n + 10) == 4
    ensures m[n + 12..n + 16] == IpBytes(ip)
  {
    hide IpBytes;
    var a := m[n..];
    assert forall k :: 0 <= k < 16 ==> m[n + k] == a[k];
    assert a == AnswerRecord(ip) && a[12..] == IpBytes(ip);
    assert m[n + 12..n + 16] == a[12..];
  }

  lemma PointerReads(m: Bytes, n: nat, labels: seq<Bytes>, end: nat)
    requires 12 < n && n + 2 <= |m| && Word(m, n) == 0xC00C && ReadName(m, 12, 12) == Some(Walked(labels, end))
    ensures ReadName(m, n, n) == Some(Walked(labels, n + 2))
  {
    assert m[n] == 0xC0;
  }

  lemma AnswerReads(m: Bytes, n: nat, labels: seq<Bytes>, end: nat, ip: nat)
    requires n > 12 && EndsInAnswer(m, n, ip) && ReadName(m, 12, 12) == Some(Walked(labels, end))
    ensures ReadRecord(m, n) == Some(Read(Record(labels, 1, 1, 60, IpBytes(ip)), n + 16))
  {
    AnswerBytes(m, n, ip);
    PointerReads(m, n, labels, end);
    hide ReadName, EndsInAnswer, IpBytes;
  }

  lemma AsksStep(m: Bytes, i: nat, k: nat)
    requires k > 0
    ensures ReadAsk(m, i).None? ==> ReadAsks(m, i, k).None?
    ensures ReadAsk(m, i).Some? ==>
      var asks, rest := ReadAsks(m, i, k), ReadAsks(m, ReadAsk(m, i).value.end, k - 1);
      && (asks.Some? <==> rest.Some?)
      && (asks.Some? ==> asks.value == Read([ReadAsk(m, i).value.value] + rest.value.value, rest.value.end))
    ensures ReadAsks(m, i, 0) == Some(Read([], i))
    ensures forall j :: ReadAsks(m, j, 0) == Some(Read([], j))
  {
  }

  /** With two questions or more announced, the answer record is taken for questions, and what is left
      is too short for a record. */
  lemma TooManyAsks(m: Bytes, n: nat, labels: seq<Bytes>, end: nat, ip: nat, k: nat)
    requires n > 12 && EndsInAnswer(m, n, ip) && ReadName(m, 12, 12) == Some(Walked(labels, end)) && k > 0
    ensures var asks := ReadAsks(m, n, k); asks.Some? ==> ReadRecord(m, asks.value.end).None?
  {
    AnswerBytes(m, n, ip);
    PointerReads(m, n, labels, end);
    hide EndsInAnswer, IpBytes, ReadRecord;
    assert ReadAsk(m, n).value.end == n + 6;
    assert ReadAsk(m, n + 6).value.end == n + 11;
    assert ReadAsk(m, n + 11).None?;
    hide ReadName, ReadAsk;
    AsksStep(m, n, k);
    if k > 1 {
      AsksStep(m, n + 6, k - 1);
      if k > 2 {
        AsksStep(m, n + 11, k - 2);
      }
    }
  }

  /** With no question announced, the question and the first bytes of the answer are taken for a record,
      and nine bytes stay over. */
  lemma NoAsk(m: Bytes, n: nat, labels: seq<Bytes>, ip: nat)
    requires n >= 17 && EndsInAnswer(m, n, ip) && ReadName(m, 12, 12) == Some(Walked(labels, n - 4))
    ensures ReadRecord(m, 12).Some? && ReadRecord(m, 12).value.end == n + 7
  {
    AnswerBytes(m, n, ip);
    hide ReadName, EndsInAnswer, IpBytes;
  }

  lemma {:induction false} RecordsLength(m: Bytes, i: nat, k: nat)
    ensures var r := ReadRecords(m, i, k);
      && (r.Some? ==> r.value.end >= i + 11 * k)
      && (k == 0 ==> r == Some(Read([], i)))
    decreases k
  {
    if k > 0 && ReadRecord(m, i).Some? {
      hide ReadRecord;
      RecordsLength(m, ReadRecord(m, i).value.end, k - 1);
    }
  }

  lemma OneRecord(m: Bytes, i: nat)
    ensures var r := ReadRecord(m, i);
      ReadRecords(m, i, 1) == if r.None? then None else Some(Read([r.value.value], r.value.end))
  {
    hide ReadRecord;
    var r := ReadRecord(m, i);
    if r.Some? {
      RecordsLength(m, r.value.end, 0);
      assert [r.value.value] + [] == [r.value.value];
    }
  }

  /** The last two sections hold no record when the message ends before them, and end the message
      only if they are announced empty. */
  lemma LastSections(m: Bytes, i: nat, authority: nat, additional: nat)
    ensures var x := ReadRecords(m, i, authority);
      x.Some? ==>
        && x.value.end >= i + 11 * authority && (authority == 0 ==> x.value == Read([], i))
        && var y := ReadRecords(m, x.value.end, additional);
        y.Some? ==> y.value.end >= x.value.end + 11 * additional && (additional == 0 ==> y.value == Read([], x.value.end))
    ensures ReadRecords(m, i, 0) == Some(Read([], i))
  {
    hide ReadRecords;
    RecordsLength(m, i, authority);
    RecordsLength(m, i, 0);
    var x := ReadRecords(m, i, authority);
    if x.Some? {
      RecordsLength(m, x.value.end, additional);
    }
  }

  /** The header counts with which a patched copy of one question stays well-formed. */
  predicate OneQuestionOnly(q: Bytes)
    requires |q| >= 12
  {
    Word(q, 4) == 1 && Word(q, 8) == 0 && Word(q, 10) == 0
  }

  lemma AnswerLength(ip: nat)
    ensures |AnswerRecord(ip)| == 16
  {
  }

  lemma AcceptedEnd(q: Bytes)
    requires Accepted(q)
    ensures 17 <= Parsed(q).qend <= |q|
    ensures HoldsQuestion(q, q[..Parsed(q).qend])
    ensures forall m :: Parsed(q).qend <= |m| && (forall k :: 12 <= k < Parsed(q).qend ==> m[k] == q[k]) ==>
      HoldsQuestion(q, m)
  {
    WalksAgree(q, 12);
  }

  /** syntheticA: for every query that dnsQName accepts, a reader finds a whole message if and only if the
      query announced one question and no authority or additional records; it then holds the question and
      one address record for the queried name. */
  lemma SyntheticReadsBack(q: Bytes, ip: nat)
    requires Accepted(q)
    ensures var read := ReadMessage(Synthetic(q, Parsed(q).qend, ip));
      && (read.Some? <==> OneQuestionOnly(q))
      && (read.Some? ==> read.value == Message(q[..2], 0x8180, [QuestionOf(q)],
                                               [Record(QuestionOf(q).labels, 1, 1, 60, IpBytes(ip))], [], []))
  {
    var n, labels := Parsed(q).qend, QuestionOf(q).labels;
    AcceptedEnd(q);
    hide Accepted, Parsed, QuestionOf, IpBytes;
    var m := Synthetic(q, n, ip);
    PatchedBytes(q, n, 1, AnswerRecord(ip));
    assert |m| == n + 16 && EndsInAnswer(m, n, ip) by {
      AnswerLength(ip);
    }
    QuestionReads(q, m);
    hide EndsInAnswer, Synthetic, ReadName, ReadAsk, ReadRecord, ReadAsks, ReadRecords, HoldsQuestion;
    AnswerReads(m, n, labels, n - 4, ip);
    NoAsk(m, n, labels, ip);
    var asks := Word(q, 4);
    AsksStep(m, 12, 1);
    if asks == 0 {
      OneRecord(m, 12);
      LastSections(m, n + 7, Word(q, 8), Word(q, 10));
    } else if asks == 1 {
      OneRecord(m, n);
      LastSections(m, n + 16, Word(q, 8), Word(q, 10));
      assert [QuestionOf(q)] + [] == [QuestionOf(q)];
    } else {
      AsksStep(m, 12, asks);
      TooManyAsks(m, n, labels, n - 4, ip, asks - 1);
      var all := ReadAsks(m, 12, asks);
      if all.Some? {
        OneRecord(m, all.value.end);
      }
    }
  }

  /** At the end of a message there is no question. */
  lemma NothingAfter(m: Bytes, n: nat)
    requires |m| == n
    ensures ReadAsk(m, n).None?
  {
  }

  /** nodataAnswer and emptyAnswer: the same condition, and no answer record. */
  lemma NodataReadsBack(q: Bytes)
    requires Accepted(q)
    ensures var read := ReadMessage(Patched(q, Parsed(q).qend, 0));
      && (read.Some? <==> OneQuestionOnly(q))
      && (read.Some? ==> read.value == Message(q[..2], 0x8180, [QuestionOf(q)], [], [], []))
  {
    var n := Parsed(q).qend;
    AcceptedEnd(q);
    hide Accepted, Parsed, QuestionOf;
    var m := Patched(q, n, 0);
    PatchedBytes(q, n, 0, []);
    assert m + [] == m;
    QuestionReads(q, m);
    NothingAfter(m, n);
    hide Patched, ReadName, ReadAsk, ReadRecord, ReadAsks, ReadRecords, HoldsQuestion;
    var asks := Word(q, 4);
    AsksStep(m, 12, 1);
    if asks == 0 {
      LastSections(m, 12, 0, 0);
      LastSections(m, 12, Word(q, 8), Word(q, 10));
    } else if asks == 1 {
      LastSections(m, n, 0, 0);
      LastSections(m, n, Word(q, 8), Word(q, 10));
      assert [QuestionOf(q)] + [] == [QuestionOf(q)];
    } else {
      AsksStep(m, 12, asks);
      AsksStep(m, n, asks - 1);
    }
  }

  // ---------- handleDNS ----------

  /** The first usable reply of the resolvers that are asked in turn. */
  function FirstUsable(replies: seq<Option<Bytes>>): Option<Bytes> {
    if replies == [] then None
    else if replies[0].Some? && |replies[0].value| >= 12 then replies[0]
    else FirstUsable(replies[1..])
  }

  /** A reply that arrived and can hold the head of a message. */
  predicate Usable(reply: Option<Bytes>) {
    reply.Some? && |reply.value| >= 12
  }

  /** It is the reply of the first resolver that gives a usable one, and nothing if and only if none does. */
  lemma {:induction false} FirstUsableMeans(replies: seq<Option<Bytes>>)
    ensures FirstUsable(replies) == None <==> forall i :: 0 <= i < |replies| ==> !Usable(replies[i])
    ensures FirstUsable(replies) != None ==>
      exists i :: 0 <= i < |replies| && Usable(replies[i]) && FirstUsable(replies) == replies[i]
                  && forall j :: 0 <= j < i ==> !Usable(replies[j])
  {
    if replies != [] && !Usable(replies[0]) {
      var rest := replies[1..];
      FirstUsableMeans(rest);
      assert forall i :: 1 <= i < |replies| ==> replies[i] == rest[i - 1];
      if FirstUsable(rest) != None {
        var i :| 0 <= i < |rest| && Usable(rest[i]) && FirstUsable(rest) == rest[i]
                 && forall j :: 0 <= j < i ==> !Usable(rest[j]);
        assert Usable(replies[i + 1]) && forall j :: 0 <= j < i + 1 ==> !Usable(replies[j]);
      } else {
        assert forall i :: 1 <= i < |replies| ==> !Usable(replies[i]) by {
          forall i | 1 <= i < |replies| ensures !Usable(replies[i]) {
            assert !Usable(rest[i - 1]);
          }
        }
      }
    }
  }

  method AskResolvers(replies: seq<Option<Bytes>>) returns (reply: Option<Bytes>)
    ensures reply == FirstUsable(replies)
  {
    for i := 0 to |replies|
      invariant FirstUsable(replies[i..]) == FirstUsable(replies)
    {
      if replies[i].Some? && |replies[i].value| >= 12 {
        return replies[i];
      }
      assert replies[i..][1..] == replies[i + 1..];
    }
    reply := None;
  }

  lemma SyntheticIs(q: Bytes, n: nat, ip: nat)
    requires 12 <= n <= |q|
    ensures Synthetic(q, n, ip) == Patched(q, n, 1) + AnswerRecord(ip)
  {
  }

  /** One datagram: no name, no reply; a name that is not listed goes to the resolvers; a listed name
      gets an address of the pool when the query asks for one, and an empty answer otherwise. The replies
      are the outcomes of the resolvers in turn, none of them without a dialer. */
  method HandleDns(pool: F.Pool, pkt: Bytes, listed: Bytes -> bool, replies: seq<Option<Bytes>>)
    returns (reply: Option<Bytes>)
    requires pool.Valid()
    modifies pool
    ensures pool.Valid()
    ensures var p := Parsed(pkt);
      if p.name == [] then reply == None && pool.e == old(pool.e)
      else if !listed(p.name) then
        && pool.e == old(pool.e)
        && reply == (if FirstUsable(replies).Some? then FirstUsable(replies) else Some(Patched(pkt, p.qend, 0)))
      else if p.qtype != 1 then pool.e == old(pool.e) && reply == Some(Patched(pkt, p.qend, 0))
      else
        && pool.e == F.ObtainSpec(pool.c, old(pool.e), p.name)
        && p.name in pool.e.d2i
        && reply == Some(Synthetic(pkt, p.qend, pool.e.d2i[p.name]))
  {
    var p := DnsQName(pkt);
    hide Labels, F.Inv, FirstUsable, Patched, Synthetic, F.ObtainSpec;
    if p.name == [] {
      return None;
    }
    if !listed(p.name) {
      reply := AskResolvers(replies);
      if reply.Some? {
        return;
      }
      var empty := NodataAnswer(pkt, p.qend);
      return Some(empty);
    }
    if p.qtype != 1 {
      var empty := NodataAnswer(pkt, p.qend);
      return Some(empty);
    }
    var ip := pool.Obtain(p.name);
    var m := SyntheticA(pkt, p.qend, ip);
    SyntheticIs(pkt, p.qend, ip);
    reply := Some(m);
  }

  /** The address in the data of a record. */
  function IpOf(data: Bytes): nat
    requires |data| == 4
  {
    var a: nat, b: nat, c: nat, d: nat := data[0], data[1], data[2], data[3];
    0x1000000 * a + 0x10000 * b + 0x100 * c + d
  }

  lemma IpOfBytes(ip: nat)
    requires ip < 0x1_0000_0000
    ensures |IpBytes(ip)| == 4 && IpOf(IpBytes(ip)) == ip
  {
    assert ip / 0x100 == 0x100 * (ip / 0x10000) + ip / 0x100 % 256;
    assert ip / 0x10000 == 0x100 * (ip / 0x1000000) + ip / 0x10000 % 256;
  }

  /** An address stands in the record as it is written with dots, the first number first. */
  lemma AddressBytes(a: byte, b: byte, c: byte, d: byte)
    ensures var hi: nat, up: nat, low: nat := a, b, c;
      IpBytes(0x1000000 * hi + 0x10000 * up + 0x100 * low + d) == [a, b, c, d]
  {
    var hi: nat, up: nat, low: nat := a, b, c;
    var ip := 0x1000000 * hi + 0x10000 * up + 0x100 * low + d;
    assert ip / 0x100 == 0x10000 * hi + 0x100 * up + low;
    assert ip / 0x10000 == 0x100 * hi + up;
    assert ip / 0x1000000 == hi;
  }

  lemma NameOfQuestion(q: Bytes)
    requires Accepted(q)
    ensures Parsed(q).name == Join(QuestionOf(q).labels)
  {
  }

  /** From the wire to the table: the address that a reader takes out of the answer to a listed query is
      looked up to the queried name, whatever is asked later, until the table starts over. */
  lemma AnswerLooksUp(c: F.Config, before: seq<Bytes>, q: Bytes, later: seq<Bytes>)
    requires c.Valid() && Accepted(q) && OneQuestionOnly(q)
    requires F.NoReset(c, F.ObtainSpec(c, F.Run(c, F.EMPTY, before), Parsed(q).name), later)
    ensures var name, qend := Parsed(q).name, Parsed(q).qend;
      var e := F.ObtainSpec(c, F.Run(c, F.EMPTY, before), name);
      && name in e.d2i
      && var read, last := ReadMessage(Synthetic(q, qend, e.d2i[name])), F.Run(c, e, later);
      && read.Some? && |read.value.answers| == 1
      && var a := read.value.answers[0];
      && |a.data| == 4 && IpOf(a.data) in last.i2d
      && last.i2d[IpOf(a.data)] == Join(a.labels) == name
  {
    var name, qend := Parsed(q).name, Parsed(q).qend;
    var e := F.ObtainSpec(c, F.Run(c, F.EMPTY, before), name);
    NameOfQuestion(q);
    F.LookupUntilReset(c, before, name, later);
    hide F.ObtainSpec, F.Run, F.NoReset, Parsed, Join, IpBytes, ReadMessage;
    SyntheticReadsBack(q, e.d2i[name]);
    IpOfBytes(e.d2i[name]);
  }
}
