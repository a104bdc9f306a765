/** The target address of a tunnel in src/protocol/protocol.go: WriteTarget and ReadTarget. */
module Target {
  import opened Basics

  /** What is used of package net: ParseIP, and String of an address of 4 or 16 bytes. */
  datatype Net = Net(parse: Bytes -> Option<Bytes>, show: Bytes -> Bytes) {
    /** ParseIP yields 16 bytes, and String writes an address that ParseIP reads back. */
    ghost predicate Valid() {
      && (forall host :: parse(host).Some? ==> |parse(host).value| == 16)
      && (forall ip :: |ip| == 4 ==> parse(show(ip)) == Some(MAPPED + ip))
      && (forall ip :: |ip| == 16 ==> parse(show(ip)) == Some(ip))
    }
  }

  /** The first twelve bytes of an IPv4 address in its 16-byte form. */
  const MAPPED: Bytes := [0, 0, 0, 0, 0, 0, 0, 0, 0, 0, 0xFF, 0xFF]

  predicate IsMapped(ip: Bytes) {
    |ip| == 16 && ip[..12] == MAPPED
  }

  /** A connection, seen from one side: the bytes that arrive until the other side stops, and the bytes written. */
  class Conn {
    var input: Bytes
    var output: Bytes
    /** The connection takes this many bytes; then its writes fail. */
    const room: nat

    constructor (input: Bytes, room: nat)
      ensures this.input == input && this.room == room && output == []
    {
      this.input, this.room := input, room;
      output := [];
    }

    /** io.ReadFull. */
    method ReadFull(n: nat) returns (b: Option<Bytes>)
      modifies `input
      ensures |old(input)| >= n ==> b == Some(old(input)[..n]) && input == old(input)[n..]
      ensures |old(input)| < n ==> b == None && input == []
    {
      if |input| < n {
        input := [];
        return None;
      }
      b := Some(input[..n]);
      input := input[n..];
    }

    method Write(b: Bytes) returns (ok: bool)
      modifies `output
      ensures output == Cut(old(output) + b, room) && (ok <==> |old(output)| + |b| <= room)
    {
      ok := |output| + |b| <= room;
      output := Cut(output + b, room);
    }
  }

  /** uint16, of any integer. */
  function Port16(port: int): Bytes {
    [port % 0x10000 / 256, port % 256]
  }

  function Address(ip: Option<Bytes>, host: Bytes): Bytes {
    if ip.Some? && IsMapped(ip.value) then [1] + ip.value[12..]
    else if ip.Some? then [4] + ip.value
    else [3, |host| % 256] + host
  }

  /** The bytes that WriteTarget sends. */
  function Encoded(net: Net, host: Bytes, port: int): Bytes {
    Address(net.parse(host), host) + Port16(port)
  }

  method WriteTarget(net: Net, w: Conn, host: Bytes, port: int) returns (ok: bool)
    modifies w`output
    ensures var message := Encoded(net, host, port);
      w.output == Cut(old(w.output) + message, w.room) && (ok <==> |old(w.output)| + |message| <= w.room)
  {
    var buf: Bytes;
    var ip := net.parse(host);
    if ip.Some? && IsMapped(ip.value) {
      buf := [1];
      buf := buf + ip.value[12..];
    } else if ip.Some? {
      buf := [4];
      buf := buf + ip.value;
    } else {
      buf := [3, |host| % 256];
      buf := buf + host;
    }
    var p := new byte[2](_ => 0);
    p[0], p[1] := port % 0x10000 / 256, port % 256;
    assert p[..] == Port16(port);
    ok := w.Write(buf + p[..]);
  }

  // ---------- reading ----------

  datatype Parsed = Parsed(host: Bytes, port: int, rest: Bytes)
  /** A target, a message that is none, or one that is not complete. */
  datatype Outcome = Got(value: Parsed) | Malformed | Short

  /** An address of n bytes and a port. */
  function Field(net: Net, isIp: bool, n: nat, input: Bytes): (o: Outcome)
    ensures o.Got? <==> |input| >= n + 2
    ensures o.Got? ==> o.value.rest == input[n + 2..] && 0 <= o.value.port < 0x10000
    ensures !o.Malformed?
  {
    if |input| < n + 2 then Short
    else
      var hi: int := input[n];
      Got(Parsed(if isIp then net.show(input[..n]) else input[..n], 256 * hi + input[n + 1], input[n + 2..]))
  }

  /** How ReadTarget takes a stream apart. */
  function Decoded(net: Net, input: Bytes): (o: Outcome)
    ensures o.Got? ==> |o.value.rest| <= |input| && o.value.rest == input[|input| - |o.value.rest|..]
  {
    if input == [] then Short
    else if input[0] == 1 then Field(net, true, 4, input[1..])
    else if input[0] == 4 then Field(net, true, 16, input[1..])
    else if input[0] != 3 then Malformed
    else if |input| < 2 then Short
    else Field(net, false, input[1], input[2..])
  }

  method ReadField(net: Net, isIp: bool, n: nat, r: Conn) returns (target: Option<Parsed>)
    modifies r`input
    ensures var o := Field(net, isIp, n, old(r.input));
      && target == (if o.Got? then Some(o.value) else None)
      && (o.Got? ==> r.input == o.value.rest)
  {
    var b := r.ReadFull(n);
    if b == None {
      return None;
    }
    var host := if isIp then net.show(b.value) else b.value;
    var p := r.ReadFull(2);
    if p == None {
      return None;
    }
    var hi: int := p.value[0];
    target := Some(Parsed(host, 256 * hi + p.value[1], r.input));
  }

  method ReadTarget(net: Net, r: Conn) returns (target: Option<Parsed>)
    modifies r`input
    ensures var o := Decoded(net, old(r.input));
      && target == (if o.Got? then Some(o.value) else None)
      && (o.Got? ==> r.input == o.value.rest)
  {
    hide Field;
    var atyp := r.ReadFull(1);
    if atyp == None {
      return None;
    }
    if atyp.value[0] == 1 {
      target := ReadField(net, true, 4, r);
    } else if atyp.value[0] == 3 {
      var l := r.ReadFull(1);
      if l == None {
        return None;
      }
      target := ReadField(net, false, l.value[0], r);
    } else if atyp.value[0] == 4 {
      target := ReadField(net, true, 16, r);
    } else {
      target := None;
    }
  }

  // ---------- round trip ----------

  /** The form in which the server names the host: an address as String writes it. */
  function Canonical(net: Net, host: Bytes): Bytes {
    var ip := net.parse(host);
    if ip.None? then host else if IsMapped(ip.value) then net.show(ip.value[12..]) else net.show(ip.value)
  }

  /** What fits into the message: a name of at most 255 bytes and a port of sixteen bits. */
  predicate Fits(net: Net, host: Bytes, port: int) {
    (net.parse(host).Some? || |host| <= 255) && 0 <= port < 0x10000
  }

  /** The bytes of a long name that the server takes for the port and for data. */
  function Leftover(net: Net, host: Bytes, port: int): Bytes {
    if net.parse(host).Some? then []
    else (host[|host| % 256..] + Port16(port))[2..]
  }

  function DecodedHost(net: Net, host: Bytes): Bytes {
    if net.parse(host).Some? then Canonical(net, host) else host[..|host| % 256]
  }

  lemma PortRoundTrip(port: int)
    ensures var b := Port16(port); var hi: int := b[0]; 256 * hi + b[1] == port % 0x10000
  {
  }

  /** The address and the port come out of a stream as they were put in. */
  lemma Placed(net: Net, isIp: bool, address: Bytes, tail: Bytes)
    requires |tail| >= 2
    ensures var hi: int := tail[0];
      Field(net, isIp, |address|, address + tail)
        == Got(Parsed(if isIp then net.show(address) else address, 256 * hi + tail[1], tail[2..]))
  {
    var input := address + tail;
    assert input[..|address|] == address && input[|address|..] == tail;
    assert input[|address| + 2..] == tail[2..];
  }

  lemma ReadIp(net: Net, host: Bytes, port: int, rest: Bytes)
    requires net.Valid() && net.parse(host).Some?
    ensures Decoded(net, Encoded(net, host, port) + rest) == Got(Parsed(Canonical(net, host), port % 0x10000, rest))
  {
    var ip := net.parse(host).value;
    var head, address := if IsMapped(ip) then [1] else [4], if IsMapped(ip) then ip[12..] else ip;
    var tail := Port16(port) + rest;
    Assoc4(head, address, Port16(port), rest);
    assert Encoded(net, host, port) + rest == head + (address + tail);
    hide Encoded;
    assert (head + (address + tail))[1..] == address + tail;
    PortRoundTrip(port);
    assert tail[..2] == Port16(port) && tail[2..] == rest;
    hide Field, Port16;
    Placed(net, true, address, tail);
  }

  /** A name: its length travels modulo 256, and the bytes beyond it are read as what comes next. */
  lemma ReadName(net: Net, host: Bytes, port: int, rest: Bytes)
    requires net.parse(host).None?
    ensures var n, o := |host| % 256, Decoded(net, Encoded(net, host, port) + rest);
      && o.Got? && o.value.host == host[..n]
      && o.value.rest == (host[n..] + Port16(port))[2..] + rest
      && (n == |host| ==> o.value.port == port % 0x10000)
  {
    var n := |host| % 256;
    var tail := host[n..] + Port16(port);
    PortRoundTrip(port);
    Placed(net, false, host[..n], tail + rest);
    assert Encoded(net, host, port) + rest == [3, n] + (host[..n] + (tail + rest));
    assert (tail + rest)[2..] == tail[2..] + rest;
  }

  /** Reading what was written: the host in canonical form and the port come back, and the message is used
      up, if and only if they fit. Of a longer name the server reads the first |host| % 256 bytes, and
      takes the others for the port and for data. */
  lemma ReadBack(net: Net, host: Bytes, port: int, rest: Bytes)
    requires net.Valid()
    ensures var o := Decoded(net, Encoded(net, host, port) + rest);
      && o.Got? && o.value.host == DecodedHost(net, host)
      && o.value.rest == Leftover(net, host, port) + rest
      && (Fits(net, host, port) <==> o.value == Parsed(Canonical(net, host), port, rest))
      && (Leftover(net, host, port) == [] <==> net.parse(host).Some? || |host| <= 255)
  {
    hide Decoded, Encoded;
    if net.parse(host).Some? {
      ReadIp(net, host, port, rest);
    } else {
      ReadName(net, host, port, rest);
      if |host| <= 255 {
        assert host[..|host|] == host && host[|host|..] + Port16(port) == Port16(port);
      }
    }
  }

  /** The canonical form names the same address, and is its own canonical form. */
  lemma CanonicalSameAddress(net: Net, host: Bytes)
    requires net.Valid()
    ensures net.parse(Canonical(net, host)) == net.parse(host)
    ensures Canonical(net, Canonical(net, host)) == Canonical(net, host)
  {
    var ip := net.parse(host);
    if ip.Some? && IsMapped(ip.value) {
      assert MAPPED + ip.value[12..] == ip.value;
    }
  }

  lemma FieldFollowed(net: Net, isIp: bool, n: nat, input: Bytes, more: Bytes)
    requires |input| >= n + 2
    ensures var t := Field(net, isIp, n, input).value;
      Field(net, isIp, n, input + more) == Got(Parsed(t.host, t.port, t.rest + more))
  {
    assert (input + more)[..n] == input[..n];
    assert (input + more)[n + 2..] == input[n + 2..] + more;
  }

  /** A complete target is read the same whatever follows it. */
  lemma MoreFollows(net: Net, input: Bytes, more: Bytes)
    requires Decoded(net, input).Got?
    ensures var t := Decoded(net, input).value;
      Decoded(net, input + more) == Got(Parsed(t.host, t.port, t.rest + more))
  {
    hide Field;
    var all := input + more;
    var at := if input[0] == 3 then 2 else 1;
    assert all[at..] == input[at..] + more;
    FieldFollowed(net, input[0] != 3, if input[0] == 1 then 4 else if input[0] == 4 then 16 else input[1], input[at..], more);
  }

  // ---------- the format, byte by byte ----------

  /** What goes over the wire: the type 1 and four bytes, 4 and sixteen, or 3, a length and a name; and then the
      port, most significant byte first. */
  lemma WireFormat(net: Net, host: Bytes, port: int)
    requires net.Valid()
    ensures var ip, end := net.parse(host), [port % 0x10000 / 256, port % 256];
      Encoded(net, host, port) ==
        if ip.None? then [3, |host| % 256] + host + end
        else if ip.value[..12] == [0, 0, 0, 0, 0, 0, 0, 0, 0, 0, 0xFF, 0xFF] then [1] + ip.value[12..] + end
        else [4] + ip.value + end
  {
  }

  /** Two bytes of the input, most significant first. */
  function PortAt(input: Bytes, i: nat): int
    requires i + 2 <= |input|
  {
    var hi: int := input[i];
    256 * hi + input[i + 1]
  }

  /** What the server reads, on the input alone. */
  lemma DecodedByType(net: Net, input: Bytes)
    ensures Decoded(net, input) == Malformed <==> input != [] && input[0] !in {1, 3, 4}
    ensures input != [] && input[0] == 1 ==>
      Decoded(net, input) == if |input| < 7 then Short
                             else Got(Parsed(net.show(input[1..5]), PortAt(input, 5), input[7..]))
    ensures input != [] && input[0] == 4 ==>
      Decoded(net, input) == if |input| < 19 then Short
                             else Got(Parsed(net.show(input[1..17]), PortAt(input, 17), input[19..]))
    ensures |input| >= 2 && input[0] == 3 ==>
      var n: nat := input[1];
      Decoded(net, input) == if |input| < n + 4 then Short
                             else Got(Parsed(input[2..n + 2], PortAt(input, n + 2), input[n + 4..]))
    ensures |input| < 2 && (input == [] || input[0] == 3) ==> Decoded(net, input) == Short
  {
    if input != [] && input[0] == 1 && |input| >= 7 {
      assert input[1..][..4] == input[1..5] && input[1..][6..] == input[7..];
    }
    if input != [] && input[0] == 4 && |input| >= 19 {
      assert input[1..][..16] == input[1..17] && input[1..][18..] == input[19..];
    }
    if |input| >= 2 && input[0] == 3 {
      var n: nat := input[1];
      if |input| >= n + 4 {
        assert input[2..][..n] == input[2..n + 2] && input[2..][n + 2..] == input[n + 4..];
      }
    }
  }
}
