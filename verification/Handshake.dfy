/** The tunnel handshake: handleServerConn of src/server/server.go against finishTunnel of
    src/tunnel/client.go, over two channels that keep the order of bytes. */
module Handshake {
  import opened Basics
  import opened Target

  /** What the two ends bring along. The two keys need not be the same. */
  datatype Setup = Setup(net: Net, mac: (Bytes, Bytes) -> Bytes, serverKey: Bytes, clientKey: Bytes,
                         nonce: Bytes, host: Bytes, port: int) {
    ghost predicate Valid() {
      net.Valid() && |nonce| == 32 && forall k, n :: |mac(k, n)| == 32
    }

    /** The client's proof, its target message, and what the server reads out of that. */
    function Proof(): Bytes {
      mac(clientKey, nonce)
    }

    function Message(): Bytes {
      Encoded(net, host, port)
    }

    predicate KeysMatch() {
      mac(serverKey, nonce) == mac(clientKey, nonce)
    }
  }

  // ---------- the two sides as programs ----------

  datatype ServerEnd = Broken | BadMac | QuotaUsedUp | BadTarget | DialFailed
  datatype ClientEnd = NoAnswer | OverQuota | Refused

  datatype ServerResult = Relaying(host: Bytes, port: int) | Stopped(why: ServerEnd)
  datatype ClientResult = Opened | Closed(why: ClientEnd)

  /** What finishTunnel writes and returns when `input` arrives and the connection takes `room` bytes. */
  function ClientRun(c: Setup, input: Bytes, room: nat): (Bytes, ClientResult) {
    if |input| < 32 then ([], Closed(NoAnswer))
    else
      var sent := c.mac(c.clientKey, input[..32]) + c.Message();
      (Cut(sent, room), if |sent| > room || |input| < 33 then Closed(NoAnswer)
             else if input[32] == 2 then Closed(OverQuota)
             else if input[32] != 0 then Closed(Refused)
             else Opened)
  }

  /** The proof and the target message, each by its own write. */
  method Introduce(c: Setup, proof: Bytes, tc: Conn) returns (ok: bool)
    requires tc.output == []
    modifies tc`output
    ensures var sent := proof + c.Message(); tc.output == Cut(sent, tc.room) && (ok <==> |sent| <= tc.room)
  {
    hide Encoded;
    CutTwice(proof, c.Message(), tc.room);
    assert [] + proof == proof;
    ok := tc.Write(proof);
    if !ok {
      return false;
    }
    ok := WriteTarget(c.net, tc, c.host, c.port);
  }

  method AwaitStatus(tc: Conn) returns (r: ClientResult)
    modifies tc`input
    ensures r == if old(tc.input) == [] then Closed(NoAnswer)
                 else if old(tc.input)[0] == 2 then Closed(OverQuota)
                 else if old(tc.input)[0] != 0 then Closed(Refused)
                 else Opened
    ensures r == Opened ==> tc.input == old(tc.input)[1..]
  {
    var st := tc.ReadFull(1);
    if st == None {
      return Closed(NoAnswer);
    }
    if st.value[0] == 2 {
      return Closed(OverQuota);
    }
    if st.value[0] != 0 {
      return Closed(Refused);
    }
    r := Opened;
  }

  method FinishTunnel(c: Setup, tc: Conn) returns (r: ClientResult)
    requires tc.output == []
    modifies tc
    ensures var run := ClientRun(c, old(tc.input), tc.room);
      && tc.output == run.0 && r == run.1
      && (r == Opened ==> tc.input == old(tc.input)[33..])
  {
    hide Encoded;
    var nonce := tc.ReadFull(32);
    if nonce == None {
      return Closed(NoAnswer);
    }
    var ok := Introduce(c, c.mac(c.clientKey, nonce.value), tc);
    if !ok {
      return Closed(NoAnswer);
    }
    r := AwaitStatus(tc);
  }

  /** After the proof: the quota, the target, the dial. Only the status of a success must get through. */
  function Admitted(c: Setup, over: bool, dial: bool, input: Bytes, answers: bool): (Bytes, ServerResult) {
    if over then (if answers then [2] else [], Stopped(QuotaUsedUp))
    else
      var target := Decoded(c.net, input);
      if !target.Got? then ([], Stopped(BadTarget))
      else
        var t := target.value;
        if t.port != 53 && !dial then (if answers then [1] else [], Stopped(DialFailed))
        else if !answers then ([], Stopped(Broken))
        else ([0], Relaying(t.host, t.port))
  }

  /** What handleServerConn writes up to the relay, and how it ends, when `input` arrives and the connection
      takes `room` bytes. */
  function ServerRun(c: Setup, over: bool, dial: bool, input: Bytes, room: nat): (Bytes, ServerResult)
    requires |c.nonce| == 32 && |c.mac(c.serverKey, c.nonce)| == 32
  {
    if room < 32 then (Cut(c.nonce, room), Stopped(Broken))
    else if |input| < 32 then (c.nonce, Stopped(Broken))
    else if input[..32] != c.mac(c.serverKey, c.nonce) then (c.nonce, Stopped(BadMac))
    else
      var admitted := Admitted(c, over, dial, input[32..], room > 32);
      (c.nonce + admitted.0, admitted.1)
  }

  /** A whole proof arrives, after a whole nonce. */
  predicate Proves(input: Bytes, room: nat) {
    room >= 32 && |input| >= 32
  }

  predicate Right(c: Setup, input: Bytes)
    requires |input| >= 32
  {
    input[..32] == c.mac(c.serverKey, c.nonce)
  }

  /** A target that is dialled without success. The port of the DNS relay is not dialled. */
  predicate Unreached(o: Outcome, dial: bool) {
    o.Got? && o.value.port != 53 && !dial
  }

  /** What makes the server stop where it does, on what arrives and what gets through: only a whole and wrong
      proof is a failure of authentication; a connection that breaks off is none. */
  lemma WhyServerStops(c: Setup, over: bool, dial: bool, input: Bytes, room: nat)
    requires c.Valid()
    ensures var (_, r), whole := ServerRun(c, over, dial, input, room), Proves(input, room);
      && (r == Stopped(BadMac) <==> whole && !Right(c, input))
      && (r == Stopped(QuotaUsedUp) <==> whole && Right(c, input) && over)
      && (r == Stopped(BadTarget) <==> whole && Right(c, input) && !over && !Decoded(c.net, input[32..]).Got?)
      && (r == Stopped(DialFailed) <==>
          whole && Right(c, input) && !over && Unreached(Decoded(c.net, input[32..]), dial))
      && (r.Relaying? <==>
          && whole && Right(c, input) && !over && room > 32
          && Decoded(c.net, input[32..]).Got? && !Unreached(Decoded(c.net, input[32..]), dial))
      && (r.Relaying? ==>
          var t := Decoded(c.net, input[32..]).value; r.host == t.host && r.port == t.port)
  {
    hide Decoded;
  }

  lemma CutStatus(nonce: Bytes, status: Bytes, room: nat)
    requires |nonce| == 32 && |status| <= 1
    ensures Cut(nonce + status, room) == if room < 32 then Cut(nonce, room)
                                         else nonce + if room > 32 then status else []
  {
    assert (nonce + status)[..32] == nonce;
  }

  /** The bytes the server sends: as much of the nonce as gets through, and after it one status byte where it
      has come to an answer and there is room: 0 for a relay, 1 for a failed dial, 2 for a used up quota. */
  lemma WhatServerSends(c: Setup, over: bool, dial: bool, input: Bytes, room: nat)
    requires c.Valid()
    ensures var (sent, r) := ServerRun(c, over, dial, input, room);
      sent == Cut(c.nonce + (match r
                             case Relaying(_, _) => [0]
                             case Stopped(DialFailed) => [1]
                             case Stopped(QuotaUsedUp) => [2]
                             case _ => []), room)
  {
    hide Decoded, Cut;
    forall status: Bytes | |status| <= 1
      ensures Cut(c.nonce + status, room) == if room < 32 then Cut(c.nonce, room)
                                             else c.nonce + if room > 32 then status else []
    {
      CutStatus(c.nonce, status, room);
    }
    assert c.nonce + [] == c.nonce;
  }

  /** What makes the client close, on what arrives and what gets through. */
  lemma WhyClientCloses(c: Setup, input: Bytes, room: nat)
    requires c.Valid()
    ensures var (sent, r), whole := ClientRun(c, input, room), |input| >= 33 && room >= 32 + |c.Message()|;
      && (r == Closed(NoAnswer) <==> !whole)
      && (r == Opened <==> whole && input[32] == 0)
      && (r == Closed(OverQuota) <==> whole && input[32] == 2)
      && (r == Closed(Refused) <==> whole && input[32] != 0 && input[32] != 2)
      && sent == if |input| < 32 then [] else Cut(c.mac(c.clientKey, input[..32]) + c.Message(), room)
  {
    hide Encoded;
  }

  /** The status byte. */
  method Answer(conn: Conn, status: byte) returns (ok: bool)
    requires |conn.output| <= conn.room
    modifies conn`output
    ensures ok <==> |old(conn.output)| < conn.room
    ensures conn.output == old(conn.output) + if ok then [status] else []
  {
    ok := conn.Write([status]);
    assert old(conn.output) + [] == old(conn.output);
  }

  method Admit(c: Setup, over: bool, dial: bool, conn: Conn) returns (r: ServerResult)
    requires |conn.output| <= conn.room
    modifies conn
    ensures var run := Admitted(c, over, dial, old(conn.input), |old(conn.output)| < conn.room);
      && conn.output == old(conn.output) + run.0 && r == run.1
      && (r.Relaying? ==> conn.input == Decoded(c.net, old(conn.input)).value.rest)
  {
    hide Decoded;
    if over {
      var told := Answer(conn, 2);
      return Stopped(QuotaUsedUp);
    }
    var target := ReadTarget(c.net, conn);
    if target == None {
      assert conn.output + [] == conn.output;
      return Stopped(BadTarget);
    }
    if target.value.port != 53 && !dial {
      var told := Answer(conn, 1);
      return Stopped(DialFailed);
    }
    var ok := Answer(conn, 0);
    if !ok {
      return Stopped(Broken);
    }
    return Relaying(target.value.host, target.value.port);
  }

  /** The nonce goes out and the proof comes in: whether it was right, or None without a whole one. */
  method CheckProof(nonce: Bytes, want: Bytes, conn: Conn) returns (right: Option<bool>)
    requires conn.output == []
    modifies conn
    ensures conn.output == Cut(nonce, conn.room)
    ensures right == if |nonce| > conn.room || |old(conn.input)| < |want| then None
                     else Some(old(conn.input)[..|want|] == want)
    ensures right.Some? ==> conn.input == old(conn.input)[|want|..]
  {
    assert [] + nonce == nonce;
    var ok := conn.Write(nonce);
    if !ok {
      return None;
    }
    var got := conn.ReadFull(|want|);
    right := if got == None then None else Some(want == got.value);
  }

  /** The server's side, with the calls of recordFail and recordOK counted: a connection that ends before
      the proof is complete counts as neither. */
  method HandleServerConn(c: Setup, over: bool, dial: bool, conn: Conn)
    returns (r: ServerResult, fails: nat, oks: nat)
    requires c.Valid() && conn.output == []
    modifies conn
    ensures var run := ServerRun(c, over, dial, old(conn.input), conn.room);
      && conn.output == run.0 && r == run.1
      && (r.Relaying? ==> conn.input == Decoded(c.net, old(conn.input)[32..]).value.rest)
      && fails == (if Proves(old(conn.input), conn.room) && !Right(c, old(conn.input)) then 1 else 0)
      && oks == (if Proves(old(conn.input), conn.room) && Right(c, old(conn.input)) then 1 else 0)
  {
    fails, oks := 0, 0;
    var want := c.mac(c.serverKey, c.nonce);
    assert |want| == |c.nonce| == 32;
    hide Decoded, Admitted, Setup.Valid;
    ghost var input := conn.input;
    var right := CheckProof(c.nonce, want, conn);
    assert right == if Proves(input, conn.room) then Some(Right(c, input)) else None;
    if right == None {
      return Stopped(Broken), fails, oks;
    }
    if !right.value {
      fails := fails + 1;
      return Stopped(BadMac), fails, oks;
    }
    oks := oks + 1;
    r := Admit(c, over, dial, conn);
  }

  // ---------- the two sides together, one read or write at a time ----------

  datatype ServerPc = Start | WaitMac | Judge | WaitTarget | Dial(host: Bytes, port: int) | Confirm(host: Bytes, port: int)
                    | Relay(host: Bytes, port: int) | Ended(why: ServerEnd)
  datatype ClientPc = WaitNonce | SendMac(nonce: Bytes) | SendTarget | WaitStatus | Open | Failed(why: ClientEnd)

  /** Everything written so far in each direction and how much of it was read, the data of the two
      applications, and the outcomes of the quota check and the dial. */
  datatype State = State(
    server: ServerPc, client: ClientPc,
    serverOut: Bytes, clientIn: nat, clientOut: Bytes, serverIn: nat,
    up: Bytes, relayed: Bytes, down: Bytes, delivered: Bytes,
    over: Option<bool>, dial: Option<bool>)

  const INIT := State(Start, WaitNonce, [], 0, [], 0, [], [], [], [], None, None)

  datatype Event =
    | ServerMove(over: bool, dial: bool)
    | ClientMove
    | ServerBreak
    | ClientBreak
    | AppSend(data: Bytes)
    | RemoteSend(data: Bytes)
    | RelayUp(n: nat)
    | Deliver(n: nat)

  predicate ServerDone(s: State) {
    s.server.Relay? || s.server.Ended?
  }

  predicate ClientDone(s: State) {
    s.client.Open? || s.client.Failed?
  }

  /** No side has read more than was written. */
  predicate Bounded(s: State) {
    s.serverIn <= |s.clientOut| && s.clientIn <= |s.serverOut|
  }

  /** The server's next operation; None while it waits. A read fails when the client is gone and not
      enough is left. */
  function ServerStep(c: Setup, s: State, over: bool, dial: bool): (r: Option<State>)
    requires Bounded(s)
    ensures r.Some? ==> Bounded(r.value)
  {
    var pending := s.clientOut[s.serverIn..];
    match s.server
    case Start => Some(s.(server := WaitMac, serverOut := s.serverOut + c.nonce))
    case WaitMac =>
      if |pending| >= 32 then
        Some(s.(server := if pending[..32] == c.mac(c.serverKey, c.nonce) then Judge else Ended(BadMac),
                serverIn := s.serverIn + 32))
      else if s.client.Failed? then Some(s.(server := Ended(Broken)))
      else None
    case Judge =>
      if over then Some(s.(server := Ended(QuotaUsedUp), serverOut := s.serverOut + [2], over := Some(true)))
      else Some(s.(server := WaitTarget, over := Some(false)))
    case WaitTarget =>
      (match Decoded(c.net, pending)
       case Got(t) =>
         Some(s.(server := if t.port == 53 then Confirm(t.host, t.port) else Dial(t.host, t.port),
                 serverIn := |s.clientOut| - |t.rest|))
       case Malformed => Some(s.(server := Ended(BadTarget)))
       case Short => if s.client.Failed? then Some(s.(server := Ended(BadTarget))) else None)
    case Dial(h, p) =>
      if dial then Some(s.(server := Confirm(h, p), dial := Some(true)))
      else Some(s.(server := Ended(DialFailed), serverOut := s.serverOut + [1], dial := Some(false)))
    case Confirm(h, p) => Some(s.(server := Relay(h, p), serverOut := s.serverOut + [0]))
    case Relay(_, _) => None
    case Ended(_) => None
  }

  function ClientStep(c: Setup, s: State): (r: Option<State>)
    requires Bounded(s)
    ensures r.Some? ==> Bounded(r.value)
  {
    var pending := s.serverOut[s.clientIn..];
    match s.client
    case WaitNonce =>
      if |pending| >= 32 then Some(s.(client := SendMac(pending[..32]), clientIn := s.clientIn + 32))
      else if s.server.Ended? then Some(s.(client := Failed(NoAnswer)))
      else None
    case SendMac(n) => Some(s.(client := SendTarget, clientOut := s.clientOut + c.mac(c.clientKey, n)))
    case SendTarget => Some(s.(client := WaitStatus, clientOut := s.clientOut + c.Message()))
    case WaitStatus =>
      if |pending| >= 1 then
        Some(s.(client := if pending[0] == 2 then Failed(OverQuota) else if pending[0] != 0 then Failed(Refused) else Open,
                clientIn := s.clientIn + 1))
      else if s.server.Ended? then Some(s.(client := Failed(NoAnswer)))
      else None
    case Open => None
    case Failed(_) => None
  }

  /** One step; None when it cannot be taken. */
  function Step(c: Setup, s: State, e: Event): (r: Option<State>)
    requires Bounded(s)
    ensures r.Some? ==> Bounded(r.value)
  {
    match e
    case ServerMove(over, dial) => ServerStep(c, s, over, dial)
    case ClientMove => ClientStep(c, s)
    case ServerBreak => if ServerDone(s) then None else Some(s.(server := Ended(Broken)))
    case ClientBreak => if ClientDone(s) then None else Some(s.(client := Failed(NoAnswer)))
    case AppSend(data) =>
      if s.client.Open? then Some(s.(clientOut := s.clientOut + data, up := s.up + data)) else None
    case RemoteSend(data) =>
      if s.server.Relay? then Some(s.(serverOut := s.serverOut + data, down := s.down + data)) else None
    case RelayUp(n) =>
      if s.server.Relay? && s.serverIn + n <= |s.clientOut| then
        Some(s.(serverIn := s.serverIn + n, relayed := s.relayed + s.clientOut[s.serverIn..s.serverIn + n]))
      else None
    case Deliver(n) =>
      if s.client.Open? && s.clientIn + n <= |s.serverOut| then
        Some(s.(clientIn := s.clientIn + n, delivered := s.delivered + s.serverOut[s.clientIn..s.clientIn + n]))
      else None
  }

  function Run(c: Setup, s: State, events: seq<Event>): Option<State>
    requires Bounded(s)
    ensures Run(c, s, events).Some? ==> Bounded(Run(c, s, events).value)
  {
    if events == [] then Some(s)
    else
      match Run(c, s, events[..|events| - 1])
      case None => None
      case Some(t) => Step(c, t, events[|events| - 1])
  }

  // ---------- what every step keeps ----------

  /** What the server reads out of the client's message. */
  function Received(c: Setup): Parsed {
    var o := Decoded(c.net, c.Message());
    if o.Got? then o.value else Parsed([], 0, [])
  }

  /** The server's place in the program and what it has written and learnt. */
  ghost predicate ServerInv(c: Setup, s: State) {
    && s.serverOut == (match s.server
      case Start => []
      case Relay(_, _) => c.nonce + [0] + s.down
      case Ended(why) =>
        (match why
         case Broken => if s.serverOut == [] then [] else c.nonce
         case QuotaUsedUp => c.nonce + [2]
         case DialFailed => c.nonce + [1]
         case _ => c.nonce)
      case _ => c.nonce)
    && (s.down != [] ==> s.server.Relay?)
    && (s.server in {Judge, WaitTarget} || s.server.Dial? || s.server.Confirm? || s.server.Relay? ==> c.KeysMatch())
    && (s.server == Ended(BadMac) ==> !c.KeysMatch())
    && (s.server == WaitTarget || s.server.Dial? || s.server.Confirm? || s.server.Relay? ==> s.over == Some(false))
    && (s.server.Dial? ==> s.server.port == Received(c).port && s.server.host == Received(c).host)
    && (s.server.Confirm? ==> s.server.port == Received(c).port && s.server.host == Received(c).host)
    && (s.server.Relay? ==> s.server.port == Received(c).port && s.server.host == Received(c).host)
    && (s.server.Confirm? ==> s.server.port == 53 || s.dial == Some(true))
    && (s.server.Relay? ==> s.server.port == 53 || s.dial == Some(true))
  }

  /** How much of the client's bytes the server has read. */
  ghost predicate ServerReads(c: Setup, s: State) {
    && (s.server in {Start, WaitMac} ==> s.serverIn == 0)
    && (s.server in {Judge, WaitTarget} ==> s.serverIn == 32)
    && (s.server.Dial? || s.server.Confirm? || s.server.Relay? ==>
        && c.Proof() + c.Message() <= s.clientOut
        && s.serverIn == 32 + |c.Message()| - |Received(c).rest| + |s.relayed|)
    && (s.relayed != [] ==> s.server.Relay?)
    && (s.server.Relay? ==> s.relayed <= Received(c).rest + s.up)
  }

  ghost predicate ClientInv(c: Setup, s: State) {
    && (match s.client
      case WaitNonce => s.clientOut == [] && s.clientIn == 0
      case SendMac(n) => s.clientOut == [] && s.clientIn == 32 && n == c.nonce
      case SendTarget => s.clientOut == c.Proof() && s.clientIn == 32
      case WaitStatus => s.clientOut == c.Proof() + c.Message() && s.clientIn == 32
      case Open =>
        && s.server.Relay? && s.clientOut == c.Proof() + c.Message() + s.up
        && s.clientIn == 33 + |s.delivered|
        && s.delivered <= s.down
      case Failed(why) =>
        && s.clientOut in {[], c.Proof(), c.Proof() + c.Message()}
        && (why == OverQuota ==> s.server == Ended(QuotaUsedUp))
        && (why == Refused ==> s.server == Ended(DialFailed)))
    && (s.up != [] ==> s.client.Open?)
    && (s.delivered != [] ==> s.client.Open?)
  }

  ghost predicate Inv(c: Setup, s: State) {
    Bounded(s) && ServerInv(c, s) && ServerReads(c, s) && ClientInv(c, s)
  }

  lemma InitInv(c: Setup)
    ensures Inv(c, INIT)
  {
  }

  /** The server reads no more than the client's proof until the target is due. */
  lemma ClientProgress(c: Setup, s: State)
    requires c.Valid() && ClientInv(c, s) && !s.server.Relay?
    ensures s.clientOut in {[], c.Proof(), c.Proof() + c.Message()}
  {
  }

  /** The server's part of the invariant does not depend on the client's place and reading. */
  lemma SameServer(c: Setup, s: State, t: State)
    requires ServerInv(c, s) && ServerReads(c, s)
    requires t.(client := s.client, clientIn := s.clientIn, delivered := s.delivered) == s
    ensures ServerInv(c, t) && ServerReads(c, t)
  {
  }

  /** The client's part of the invariant does not depend on where a server that is still at it goes on. */
  lemma SameClient(c: Setup, s: State, t: State)
    requires ClientInv(c, s) && !s.server.Ended?
    requires t.client == s.client && t.clientIn == s.clientIn && t.clientOut == s.clientOut
    requires t.up == s.up && t.delivered == s.delivered
    requires s.server.Relay? ==> t.server.Relay? && s.down <= t.down
    ensures ClientInv(c, t)
  {
  }

  lemma MacRead(c: Setup, s: State, over: bool, dial: bool)
    requires c.Valid() && Inv(c, s) && s.server == WaitMac && ServerStep(c, s, over, dial).Some?
    ensures Inv(c, ServerStep(c, s, over, dial).value)
  {
    hide Decoded, Encoded;
    ClientProgress(c, s);
    if |s.clientOut| >= 32 {
      assert s.clientOut[0..][..32] == c.Proof();
    }
  }

  /** What lies before the server when it reads the target. */
  lemma TargetPending(c: Setup, s: State)
    requires c.Valid() && Inv(c, s) && s.server == WaitTarget
    ensures s.serverIn == 32 && s.clientOut[32..] == if s.clientOut == c.Proof() + c.Message() then c.Message() else []
    ensures Decoded(c.net, c.Message()) == Got(Received(c)) && Decoded(c.net, []) == Short
  {
    ClientProgress(c, s);
    assert Decoded(c.net, []) == Short;
    ReadBack(c.net, c.host, c.port, []);
    hide Decoded, Encoded;
    assert c.Message() + [] == c.Message();
    if s.clientOut == c.Proof() + c.Message() {
      assert s.clientOut[32..] == c.Message();
    } else {
      assert s.clientOut[32..] == [];
    }
  }

  lemma TargetServer(c: Setup, s: State, over: bool, dial: bool)
    requires c.Valid() && Inv(c, s) && s.server == WaitTarget && ServerStep(c, s, over, dial).Some?
    ensures ServerInv(c, ServerStep(c, s, over, dial).value)
  {
    hide Decoded, Encoded, Received, ServerReads, ClientInv;
    TargetPending(c, s);
  }

  lemma TargetReads(c: Setup, s: State, over: bool, dial: bool)
    requires c.Valid() && Inv(c, s) && s.server == WaitTarget && ServerStep(c, s, over, dial).Some?
    ensures ServerReads(c, ServerStep(c, s, over, dial).value)
  {
    hide Decoded, Encoded, Received, ServerInv, ClientInv;
    TargetPending(c, s);
  }

  lemma TargetRead(c: Setup, s: State, over: bool, dial: bool)
    requires c.Valid() && Inv(c, s) && s.server == WaitTarget && ServerStep(c, s, over, dial).Some?
    ensures Inv(c, ServerStep(c, s, over, dial).value)
  {
    hide Decoded, Encoded, Received, ServerInv, ServerReads, ClientInv;
    TargetServer(c, s, over, dial);
    TargetReads(c, s, over, dial);
    SameClient(c, s, ServerStep(c, s, over, dial).value);
  }

  lemma OtherServerStep(c: Setup, s: State, over: bool, dial: bool)
    requires c.Valid() && Inv(c, s) && ServerStep(c, s, over, dial).Some?
    requires s.server == Start || s.server == Judge || s.server.Dial? || s.server.Confirm?
    ensures Inv(c, ServerStep(c, s, over, dial).value)
  {
    hide Decoded, Encoded, Received;
    var t := ServerStep(c, s, over, dial).value;
    SameClient(c, s, t);
    assert ServerInv(c, t) by {
      hide ServerReads, ClientInv;
    }
    assert ServerReads(c, t) by {
      hide ServerInv, ClientInv;
    }
    hide ServerInv, ServerReads, ClientInv, ServerStep;
  }

  lemma NonceRead(c: Setup, s: State)
    requires c.Valid() && Inv(c, s) && s.client == WaitNonce && ClientStep(c, s).Some?
    ensures Inv(c, ClientStep(c, s).value)
  {
    hide Decoded, Encoded;
    if |s.serverOut| >= 32 {
      assert s.serverOut[0..][..32] == c.nonce;
    }
  }

  lemma MessageLength(c: Setup)
    ensures |c.Message()| >= 3
  {
  }

  /** While the client has more to write, the server has no target. */
  lemma NoTargetYet(c: Setup, s: State)
    requires c.Valid() && ServerReads(c, s) && |s.clientOut| <= 32
    ensures !s.server.Dial? && !s.server.Confirm? && !s.server.Relay? && s.relayed == []
  {
    MessageLength(c);
  }

  lemma ClientWrites(c: Setup, s: State)
    requires c.Valid() && Inv(c, s) && (s.client.SendMac? || s.client == SendTarget)
    ensures Inv(c, ClientStep(c, s).value)
  {
    hide Decoded, Encoded;
    NoTargetYet(c, s);
    var t := ClientStep(c, s).value;
    assert s.server == t.server && s.serverOut == t.serverOut;
    assert ServerInv(c, t);
    hide ServerInv;
    assert ServerReads(c, t);
    hide ServerReads;
    assert [] + c.Proof() == c.Proof();
  }

  /** The status byte tells how far the server came. */
  lemma StatusByte(c: Setup, s: State)
    requires c.Valid() && ServerInv(c, s) && |s.serverOut| > 32
    ensures s.serverOut[32] == 0 <==> s.server.Relay?
    ensures s.serverOut[32] == 1 <==> s.server == Ended(DialFailed)
    ensures s.serverOut[32] == 2 <==> s.server == Ended(QuotaUsedUp)
    ensures s.serverOut[32] in {0, 1, 2}
  {
  }

  lemma StatusClient(c: Setup, s: State)
    requires c.Valid() && Inv(c, s) && s.client == WaitStatus && ClientStep(c, s).Some?
    ensures ClientInv(c, ClientStep(c, s).value)
  {
    hide ServerInv, ServerReads;
    if |s.serverOut| > 32 {
      StatusByte(c, s);
      assert s.serverOut[32..][0] == s.serverOut[32];
      assert c.Proof() + c.Message() + [] == c.Proof() + c.Message();
    }
  }

  lemma StatusRead(c: Setup, s: State)
    requires c.Valid() && Inv(c, s) && s.client == WaitStatus && ClientStep(c, s).Some?
    ensures Inv(c, ClientStep(c, s).value)
  {
    StatusClient(c, s);
    hide ServerInv, ServerReads, ClientInv;
    SameServer(c, s, ClientStep(c, s).value);
  }

  lemma ClientStepKeepsInv(c: Setup, s: State)
    requires c.Valid() && Inv(c, s) && ClientStep(c, s).Some?
    ensures Inv(c, ClientStep(c, s).value)
  {
    hide Decoded, Encoded, ServerInv, ServerReads, ClientInv;
    match s.client
    case WaitNonce => NonceRead(c, s);
    case SendMac(_) => ClientWrites(c, s);
    case SendTarget => ClientWrites(c, s);
    case WaitStatus => StatusRead(c, s);
    case Open =>
    case Failed(_) =>
  }

  lemma ServerStepKeepsInv(c: Setup, s: State, over: bool, dial: bool)
    requires c.Valid() && Inv(c, s) && ServerStep(c, s, over, dial).Some?
    ensures Inv(c, ServerStep(c, s, over, dial).value)
  {
    hide Decoded, Encoded, ServerInv, ServerReads, ClientInv;
    match s.server
    case WaitMac => MacRead(c, s, over, dial);
    case WaitTarget => TargetRead(c, s, over, dial);
    case Relay(_, _) =>
    case Ended(_) =>
    case _ => OtherServerStep(c, s, over, dial);
  }

  /** The client can be open only if the server relays; so a broken server has not let it in. */
  lemma BreakKeepsInv(c: Setup, s: State, e: Event)
    requires c.Valid() && Inv(c, s) && (e == ServerBreak || e == ClientBreak) && Step(c, s, e).Some?
    ensures Inv(c, Step(c, s, e).value)
  {
    hide Decoded, Encoded;
  }

  lemma AppSendKeepsInv(c: Setup, s: State, e: Event)
    requires c.Valid() && Inv(c, s) && e.AppSend? && Step(c, s, e).Some?
    ensures Inv(c, Step(c, s, e).value)
  {
    hide Decoded, Encoded, Received, ServerStep, ClientStep;
    var t := Step(c, s, e).value;
    assert s.server.Relay?;
    assert ServerInv(c, t) by {
      hide ServerReads, ClientInv;
    }
    assert ServerReads(c, t) by {
      hide ServerInv;
      assert Received(c).rest + (s.up + e.data) == (Received(c).rest + s.up) + e.data;
    }
    hide ServerInv, ServerReads;
    assert c.Proof() + c.Message() + (s.up + e.data) == c.Proof() + c.Message() + s.up + e.data;
  }

  lemma RemoteSendServer(c: Setup, s: State, e: Event)
    requires c.Valid() && Inv(c, s) && e.RemoteSend? && Step(c, s, e).Some?
    ensures ServerInv(c, Step(c, s, e).value)
  {
    hide Decoded, Encoded, Received, ServerStep, ClientStep, ServerReads, ClientInv;
    assert c.nonce + [0] + (s.down + e.data) == c.nonce + [0] + s.down + e.data;
  }

  lemma RemoteSendReads(c: Setup, s: State, e: Event)
    requires c.Valid() && Inv(c, s) && e.RemoteSend? && Step(c, s, e).Some?
    ensures ServerReads(c, Step(c, s, e).value)
  {
    hide Decoded, Encoded, Received, ServerStep, ClientStep, ServerInv, ClientInv;
  }

  lemma RemoteSendKeepsInv(c: Setup, s: State, e: Event)
    requires c.Valid() && Inv(c, s) && e.RemoteSend? && Step(c, s, e).Some?
    ensures Inv(c, Step(c, s, e).value)
  {
    hide Decoded, Encoded, Received, ServerStep, ClientStep, ServerInv, ServerReads, ClientInv;
    RemoteSendServer(c, s, e);
    RemoteSendReads(c, s, e);
    SameClient(c, s, Step(c, s, e).value);
  }

  /** When the server relays, the client has written its proof, its message and its data. */
  lemma ClientWrote(c: Setup, s: State)
    requires c.Valid() && Inv(c, s) && s.server.Relay?
    ensures s.clientOut == c.Proof() + c.Message() + s.up
  {
    hide Decoded, Encoded;
    var all := c.Proof() + c.Message();
    MessageLength(c);
    assert all + [] == all;
    assert !(all <= []) && !(all <= c.Proof());
  }

  lemma Suffix(proof: Bytes, message: Bytes, rest: Bytes, up: Bytes, k: nat)
    requires |rest| <= |message| && rest == message[|message| - |rest|..] && k <= |rest + up|
    ensures (proof + message + up)[|proof| + |message| - |rest| + k..] == (rest + up)[k..]
  {
  }

  lemma Advance(done: Bytes, all: Bytes, channel: Bytes, at: nat, n: nat)
    requires done <= all && at + n <= |channel| && channel[at..] == all[|done|..]
    ensures done + channel[at..at + n] <= all
  {
    assert channel[at..at + n] == channel[at..][..n];
    assert done + all[|done|..][..n] == all[..|done| + n];
  }

  lemma UnreadUp(c: Setup, s: State)
    requires c.Valid() && Inv(c, s) && s.server.Relay?
    ensures |s.relayed| <= |Received(c).rest + s.up| && s.clientOut[s.serverIn..] == (Received(c).rest + s.up)[|s.relayed|..]
  {
    hide Decoded, Encoded;
    ClientWrote(c, s);
    hide ServerInv, ClientInv;
    Suffix(c.Proof(), c.Message(), Received(c).rest, s.up, |s.relayed|);
  }

  lemma UnreadDown(c: Setup, s: State)
    requires c.Valid() && Inv(c, s) && s.client.Open?
    ensures |s.delivered| <= |s.down| && s.serverOut[s.clientIn..] == s.down[|s.delivered|..]
  {
    hide Decoded, Encoded, Received, ServerReads;
  }

  /** What a side has not yet read follows what its application got. */
  lemma Unread(c: Setup, s: State)
    requires c.Valid() && Inv(c, s)
    ensures s.server.Relay? ==>
      |s.relayed| <= |Received(c).rest + s.up| && s.clientOut[s.serverIn..] == (Received(c).rest + s.up)[|s.relayed|..]
    ensures s.client.Open? ==>
      |s.delivered| <= |s.down| && s.serverOut[s.clientIn..] == s.down[|s.delivered|..]
  {
    hide Decoded, Encoded, Received, ServerInv, ServerReads, ClientInv;
    if s.server.Relay? {
      UnreadUp(c, s);
    }
    if s.client.Open? {
      UnreadDown(c, s);
    }
  }

  lemma RelayUpServer(c: Setup, s: State, e: Event)
    requires c.Valid() && Inv(c, s) && e.RelayUp? && Step(c, s, e).Some?
    ensures ServerInv(c, Step(c, s, e).value) && ClientInv(c, Step(c, s, e).value)
  {
    hide Decoded, Encoded, Received, ServerReads, ServerStep, ClientStep;
    SameClient(c, s, Step(c, s, e).value);
    hide ClientInv;
  }

  lemma RelayUpKeepsInv(c: Setup, s: State, e: Event)
    requires c.Valid() && Inv(c, s) && e.RelayUp? && Step(c, s, e).Some?
    ensures Inv(c, Step(c, s, e).value)
  {
    hide Decoded, Encoded, Received, ServerInv, ClientInv, ServerStep, ClientStep;
    Unread(c, s);
    RelayUpServer(c, s, e);
    Advance(s.relayed, Received(c).rest + s.up, s.clientOut, s.serverIn, e.n);
  }

  lemma DeliverClient(c: Setup, s: State, e: Event)
    requires c.Valid() && Inv(c, s) && e.Deliver? && Step(c, s, e).Some?
    ensures ClientInv(c, Step(c, s, e).value)
  {
    hide Decoded, Encoded, Received, ServerInv, ServerReads, ServerStep, ClientStep;
    Unread(c, s);
    Advance(s.delivered, s.down, s.serverOut, s.clientIn, e.n);
  }

  lemma DeliverKeepsInv(c: Setup, s: State, e: Event)
    requires c.Valid() && Inv(c, s) && e.Deliver? && Step(c, s, e).Some?
    ensures Inv(c, Step(c, s, e).value)
  {
    hide Decoded, Encoded, Received, ServerInv, ServerReads, ClientInv, ServerStep, ClientStep;
    DeliverClient(c, s, e);
    SameServer(c, s, Step(c, s, e).value);
  }

  lemma StepKeepsInv(c: Setup, s: State, e: Event)
    requires c.Valid() && Inv(c, s) && Step(c, s, e).Some?
    ensures Inv(c, Step(c, s, e).value)
  {
    hide ServerStep, ClientStep, ServerInv, ServerReads, ClientInv;
    match e
    case ServerMove(over, dial) => ServerStepKeepsInv(c, s, over, dial);
    case ClientMove => ClientStepKeepsInv(c, s);
    case ServerBreak => BreakKeepsInv(c, s, e);
    case ClientBreak => BreakKeepsInv(c, s, e);
    case AppSend(_) => AppSendKeepsInv(c, s, e);
    case RemoteSend(_) => RemoteSendKeepsInv(c, s, e);
    case RelayUp(_) => RelayUpKeepsInv(c, s, e);
    case Deliver(_) => DeliverKeepsInv(c, s, e);
  }

  lemma {:induction false} RunKeepsInv(c: Setup, events: seq<Event>)
    requires c.Valid() && Run(c, INIT, events).Some?
    ensures Inv(c, Run(c, INIT, events).value)
  {
    InitInv(c);
    if events == [] {
    } else {
      hide Step, Inv;
      RunKeepsInv(c, events[..|events| - 1]);
      StepKeepsInv(c, Run(c, INIT, events[..|events| - 1]).value, events[|events| - 1]);
    }
  }

  // ---------- safety ----------

  lemma TargetReceived(c: Setup)
    requires c.Valid()
    ensures Received(c).rest == Leftover(c.net, c.host, c.port)
    ensures Fits(c.net, c.host, c.port) ==> Received(c) == Parsed(Canonical(c.net, c.host), c.port, [])
    ensures Received(c).rest == [] <==> c.net.parse(c.host).Some? || |c.host| <= 255
  {
    ReadBack(c.net, c.host, c.port, []);
    assert c.Message() + [] == c.Message();
    assert Leftover(c.net, c.host, c.port) + [] == Leftover(c.net, c.host, c.port);
  }

  /** The client succeeds only when the proofs matched, the quota was not used up when it was checked, the
      dial succeeded where one is made, and the server relays to the target it has read: the client's own
      target, up to the canonical form of an address, if that fits the message. */
  lemma ClientSucceeds(c: Setup, events: seq<Event>)
    requires c.Valid() && Run(c, INIT, events).Some? && Run(c, INIT, events).value.client == Open
    ensures var s := Run(c, INIT, events).value;
      && s.server.Relay? && c.KeysMatch() && s.over == Some(false)
      && (s.server.port == 53 || s.dial == Some(true))
      && (Fits(c.net, c.host, c.port) ==> s.server.host == Canonical(c.net, c.host) && s.server.port == c.port)
  {
    RunKeepsInv(c, events);
    TargetReceived(c);
  }

  /** The relay is transparent from its first byte, in both directions: what the server passes on is a
      prefix of what the client's application wrote, what the client passes on is a prefix of what the
      remote side wrote, and nothing is passed on before the handshake is over. */
  lemma RelaysFromFirstByte(c: Setup, events: seq<Event>)
    requires c.Valid() && Run(c, INIT, events).Some?
    requires c.net.parse(c.host).Some? || |c.host| <= 255
    ensures var s := Run(c, INIT, events).value;
      && s.relayed <= s.up && s.delivered <= s.down
      && (s.relayed != [] ==> s.client.Open? && s.server.Relay?)
  {
    RunKeepsInv(c, events);
    TargetReceived(c);
    hide Decoded, Encoded;
    assert [] + Run(c, INIT, events).value.up == Run(c, INIT, events).value.up;
  }

  /** With a longer name, the bytes of the name that did not fit are relayed in front of the data. */
  lemma LongNameIsRelayed(c: Setup, events: seq<Event>)
    requires c.Valid() && Run(c, INIT, events).Some?
    requires c.net.parse(c.host).None? && |c.host| > 255
    ensures var s := Run(c, INIT, events).value;
      && s.relayed <= Leftover(c.net, c.host, c.port) + s.up
      && Leftover(c.net, c.host, c.port) != []
  {
    RunKeepsInv(c, events);
    TargetReceived(c);
  }

  // ---------- progress ----------

  /** The operations that a side still has ahead of it. */
  function Rank(s: State): nat {
    (match s.server
     case Start => 7 case WaitMac => 6 case Judge => 5 case WaitTarget => 4
     case Dial(_, _) => 3 case Confirm(_, _) => 2 case Relay(_, _) => 0 case Ended(_) => 0)
    + (match s.client
       case WaitNonce => 4 case SendMac(_) => 3 case SendTarget => 2 case WaitStatus => 1 case Open => 0 case Failed(_) => 0)
  }

  predicate IsHandshake(e: Event) {
    e.ServerMove? || e == ClientMove || e == ServerBreak || e == ClientBreak
  }

  function HandshakeMoves(events: seq<Event>): nat {
    if events == [] then 0
    else HandshakeMoves(events[..|events| - 1]) + (if IsHandshake(events[|events| - 1]) then 1 else 0)
  }

  /** Every step of the handshake uses up rank, and the relay leaves it alone. */
  lemma StepUsesRank(c: Setup, s: State, e: Event)
    requires Bounded(s) && Step(c, s, e).Some?
    ensures var t := Step(c, s, e).value;
      if IsHandshake(e) then Rank(t) < Rank(s) else Rank(t) == Rank(s)
  {
    hide Decoded;
  }

  /** So every run takes at most eleven steps of the handshake. */
  lemma {:induction false} HandshakeEnds(c: Setup, events: seq<Event>)
    requires Run(c, INIT, events).Some?
    ensures HandshakeMoves(events) + Rank(Run(c, INIT, events).value) <= 11
  {
    if events == [] {
    } else {
      hide Step, Rank, IsHandshake;
      var n := |events| - 1;
      HandshakeEnds(c, events[..n]);
      StepUsesRank(c, Run(c, INIT, events[..n]).value, events[n]);
    }
  }

  lemma SomeoneMoves(c: Setup, s: State, over: bool, dial: bool)
    requires c.Valid() && Inv(c, s) && (!ServerDone(s) || !ClientDone(s))
    ensures ServerStep(c, s, over, dial).Some? || ClientStep(c, s).Some?
  {
    if s.server == WaitTarget {
      TargetPending(c, s);
    }
    hide Decoded, Encoded, Received;
  }

  /** No deadlock: until both sides are done, one of them can take its next step, whatever the quota check
      and the dial may say, and without a broken connection. */
  lemma NoDeadlock(c: Setup, events: seq<Event>, over: bool, dial: bool)
    requires c.Valid() && Run(c, INIT, events).Some?
    requires var s := Run(c, INIT, events).value; !ServerDone(s) || !ClientDone(s)
    ensures var s := Run(c, INIT, events).value;
      Bounded(s) && (Step(c, s, ServerMove(over, dial)).Some? || Step(c, s, ClientMove).Some?)
  {
    RunKeepsInv(c, events);
    SomeoneMoves(c, Run(c, INIT, events).value, over, dial);
  }

  // ---------- outcomes ----------

  ghost predicate Unbroken(events: seq<Event>) {
    ServerBreak !in events && ClientBreak !in events
  }

  /** How a side ends when no connection breaks. */
  ghost predicate Explained(c: Setup, s: State) {
    && s.server != Ended(Broken) && s.server != Ended(BadTarget)
    && (s.client == Failed(NoAnswer) ==> s.server == Ended(BadMac))
    && (s.client.Failed? ==> s.clientOut == c.Proof() + c.Message())
    && (s.server == Ended(QuotaUsedUp) ==> s.over == Some(true) && c.KeysMatch())
    && (s.server == Ended(DialFailed) ==>
        s.over == Some(false) && s.dial == Some(false) && c.KeysMatch() && Received(c).port != 53)
    && (s.server.Dial? ==> Received(c).port != 53)
    && (s.server.Confirm? ==> s.dial != Some(false))
    && (s.server.Relay? ==> s.dial != Some(false))
    && (s.server in {Start, WaitMac, Judge, WaitTarget} || s.server.Dial? ==> s.dial == None)
  }

  lemma MacExplained(c: Setup, s: State, over: bool, dial: bool)
    requires c.Valid() && Inv(c, s) && Explained(c, s) && s.server == WaitMac && ServerStep(c, s, over, dial).Some?
    ensures Explained(c, ServerStep(c, s, over, dial).value)
  {
    assert |s.clientOut[s.serverIn..]| == |s.clientOut|;
    hide Decoded, Encoded, Received, ServerReads, ServerInv, ClientInv;
  }

  lemma TargetExplained(c: Setup, s: State, over: bool, dial: bool)
    requires c.Valid() && Inv(c, s) && Explained(c, s) && s.server == WaitTarget && ServerStep(c, s, over, dial).Some?
    ensures Explained(c, ServerStep(c, s, over, dial).value)
  {
    TargetPending(c, s);
    var pending := s.clientOut[s.serverIn..];
    assert c.KeysMatch() && s.over == Some(false);
    assert s.client.Failed? ==> pending == c.Message();
    hide Encoded, Decoded, Received, ServerInv, ServerReads, ClientInv;
  }

  lemma ServerExplained(c: Setup, s: State, over: bool, dial: bool)
    requires c.Valid() && Inv(c, s) && Explained(c, s) && ServerStep(c, s, over, dial).Some?
    ensures Explained(c, ServerStep(c, s, over, dial).value)
  {
    hide Decoded, Encoded, Received, ServerReads, ClientInv;
    match s.server
    case WaitMac => MacExplained(c, s, over, dial);
    case WaitTarget => TargetExplained(c, s, over, dial);
    case _ =>
  }

  lemma ClientExplained(c: Setup, s: State)
    requires c.Valid() && Inv(c, s) && Explained(c, s) && ClientStep(c, s).Some?
    ensures Explained(c, ClientStep(c, s).value)
  {
    hide Decoded, Encoded, ServerReads, Received;
  }

  lemma OthersExplained(c: Setup, s: State, e: Event)
    requires c.Valid() && Inv(c, s) && Explained(c, s) && Step(c, s, e).Some?
    requires !e.ServerMove? && e != ServerBreak && e != ClientBreak
    ensures Explained(c, Step(c, s, e).value)
  {
    hide Decoded, Encoded, ServerReads, ServerInv, Received, ClientStep;
    match e
    case ClientMove => ClientExplained(c, s);
    case _ =>
  }

  lemma StepExplained(c: Setup, s: State, e: Event)
    requires c.Valid() && Inv(c, s) && Explained(c, s) && Step(c, s, e).Some? && e != ServerBreak && e != ClientBreak
    ensures Explained(c, Step(c, s, e).value)
  {
    hide Explained, Inv, ServerStep, ClientStep;
    if e.ServerMove? {
      ServerExplained(c, s, e.over, e.dial);
    } else {
      OthersExplained(c, s, e);
    }
  }

  lemma {:induction false} UnbrokenInv(c: Setup, events: seq<Event>)
    requires c.Valid() && Run(c, INIT, events).Some? && Unbroken(events)
    ensures Explained(c, Run(c, INIT, events).value)
  {
    if events != [] {
      hide Step, Explained, Inv;
      var n := |events| - 1;
      assert Unbroken(events[..n]) && events[n] != ServerBreak && events[n] != ClientBreak;
      UnbrokenInv(c, events[..n]);
      RunKeepsInv(c, events[..n]);
      StepExplained(c, Run(c, INIT, events[..n]).value, events[n]);
    } else {
      assert Explained(c, INIT);
    }
  }

  /** Without a broken connection both sides end the same way, and the way follows from the keys, the
      quota and the dial. */
  lemma Outcomes(c: Setup, events: seq<Event>)
    requires c.Valid() && Run(c, INIT, events).Some? && Unbroken(events)
    requires var s := Run(c, INIT, events).value; ServerDone(s) && ClientDone(s)
    ensures var s := Run(c, INIT, events).value;
      if !c.KeysMatch() then s.server == Ended(BadMac) && s.client == Failed(NoAnswer)
      else if s.over == Some(true) then s.server == Ended(QuotaUsedUp) && s.client == Failed(OverQuota)
      else if s.dial == Some(false) then s.server == Ended(DialFailed) && s.client == Failed(Refused)
      else s.server == Relay(Received(c).host, Received(c).port) && s.client == Open
  {
    hide Run, Received, ServerReads;
    RunKeepsInv(c, events);
    UnbrokenInv(c, events);
  }

  lemma ClientAgrees(c: Setup, s: State, room: nat)
    requires room >= |c.Proof() + c.Message()|
    requires c.Valid() && Inv(c, s) && Explained(c, s) && ServerDone(s) && ClientDone(s)
    ensures s.clientOut == c.Proof() + c.Message() + s.up
    ensures ClientRun(c, s.serverOut, room) ==
      (c.Proof() + c.Message(), if s.client == Open then Opened else Closed(s.client.why))
  {
    hide Encoded, Decoded, ServerReads, Received;
    var sent := c.Proof() + c.Message();
    assert sent + [] == sent;
    assert s.serverOut[..32] == c.nonce;
    if |s.serverOut| > 32 {
      StatusByte(c, s);
    }
  }

  /** How the server ends, and what it has written then. */
  ghost predicate ServerOutcome(c: Setup, s: State) {
    if !c.KeysMatch() then s.server == Ended(BadMac) && s.serverOut == c.nonce && s.down == []
    else if s.over == Some(true) then s.server == Ended(QuotaUsedUp) && s.serverOut == c.nonce + [2] && s.down == []
    else if s.dial == Some(false) then
      s.server == Ended(DialFailed) && s.serverOut == c.nonce + [1] && s.down == [] && Received(c).port != 53
    else
      && s.server == Relay(Received(c).host, Received(c).port) && s.serverOut == c.nonce + [0] + s.down
      && (Received(c).port == 53 || s.dial == Some(true))
  }

  lemma ServerEnds(c: Setup, s: State)
    requires c.Valid() && Inv(c, s) && Explained(c, s) && ServerDone(s)
    ensures ServerOutcome(c, s)
  {
    hide Encoded, Decoded, ServerReads, ClientInv, Received;
  }

  lemma NothingAdded(a: Bytes)
    ensures a + [] == a
  {
  }

  lemma SplitAfter(a: Bytes, b: Bytes, d: Bytes)
    ensures (a + b + d)[..|a|] == a && (a + b + d)[|a|..] == b + d
  {
  }

  /** The server's program on a proof and a complete target. */
  lemma ServerRunOn(c: Setup, over: bool, dial: bool, input: Bytes, room: nat, host: Bytes, port: int)
    requires c.Valid() && room > 32 && |input| >= 32 && input[..32] == c.Proof()
    requires Decoded(c.net, input[32..]).Got? && Decoded(c.net, input[32..]).value.host == host
    requires Decoded(c.net, input[32..]).value.port == port
    ensures ServerRun(c, over, dial, input, room) ==
      if !c.KeysMatch() then (c.nonce, Stopped(BadMac))
      else if over then (c.nonce + [2], Stopped(QuotaUsedUp))
      else if port != 53 && !dial then (c.nonce + [1], Stopped(DialFailed))
      else (c.nonce + [0], Relaying(host, port))
  {
    hide Decoded;
  }

  lemma TargetArrives(c: Setup, more: Bytes)
    requires c.Valid()
    ensures var o := Decoded(c.net, c.Message() + more);
      o.Got? && o.value.host == Received(c).host && o.value.port == Received(c).port
  {
    ReadBack(c.net, c.host, c.port, []);
    assert c.Message() + [] == c.Message();
    MoreFollows(c.net, c.Message(), more);
  }

  lemma ServerAgrees(c: Setup, s: State, dial: bool, room: nat)
    requires c.Valid() && room > 32 && ServerOutcome(c, s) && s.clientOut == c.Proof() + c.Message() + s.up
    requires s.dial == None || s.dial == Some(dial)
    ensures var run := ServerRun(c, s.over == Some(true), dial, s.clientOut, room);
      && s.serverOut == run.0 + s.down
      && run.1 == (if s.server.Relay? then Relaying(s.server.host, s.server.port) else Stopped(s.server.why))
  {
    var over, t := s.over == Some(true), Received(c);
    TargetArrives(c, s.up);
    SplitAfter(c.Proof(), c.Message(), s.up);
    hide Decoded, Encoded, Received, Setup.Message, Setup.Proof, Setup.KeysMatch;
    ServerRunOn(c, over, dial, s.clientOut, room, t.host, t.port);
    hide ServerRun;
    NothingAdded(s.serverOut);
  }

  /** The step-by-step runs end as the two programs do: each side's result is that of its program on
      the bytes the other side wrote. */
  lemma RunsAgreeWithPrograms(c: Setup, events: seq<Event>, dial: bool, room: nat)
    requires room > 32 && room >= |c.Proof() + c.Message()|
    requires c.Valid() && Run(c, INIT, events).Some? && Unbroken(events)
    requires var s := Run(c, INIT, events).value; ServerDone(s) && ClientDone(s)
    requires var d := Run(c, INIT, events).value.dial; d == None || d == Some(dial)
    ensures var s := Run(c, INIT, events).value;
      && ClientRun(c, s.serverOut, room).1 == (if s.client == Open then Opened else Closed(s.client.why))
      && s.clientOut == ClientRun(c, s.serverOut, room).0 + s.up
      && var server := ServerRun(c, s.over == Some(true), dial, s.clientOut, room);
      && server.1 == (if s.server.Relay? then Relaying(s.server.host, s.server.port) else Stopped(s.server.why))
      && s.serverOut == server.0 + s.down
  {
    var s := Run(c, INIT, events).value;
    RunKeepsInv(c, events);
    UnbrokenInv(c, events);
    ClientAgrees(c, s, room);
    ServerEnds(c, s);
    ServerAgrees(c, s, dial, room);
    hide *;
  }
}
