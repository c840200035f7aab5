/** The address resolution of `arp.c`: its table in place, and its packets as bytes. */
module Arp {
  import opened Machine
  import opened ArpHistory

  // ---------- Packets ----------

  const PACKET_SIZE := 28
  const HEADER_SIZE := 14
  const REQUEST := 1
  const REPLY := 2

  datatype Packet = Packet(hardwareType: nat, protocolType: nat, hardwareSize: nat, protocolSize: nat,
                           opcode: nat, senderMac: Mac, senderIp: nat, targetMac: Mac, targetIp: nat)
  {
    predicate Fits() {
      && hardwareType < 0x1_0000 && protocolType < 0x1_0000 && opcode < 0x1_0000
      && hardwareSize < 0x100 && protocolSize < 0x100
      && senderIp < 0x1_0000_0000 && targetIp < 0x1_0000_0000
    }
  }

  /** The two bytes of a number in network order. */
  function Bytes16(v: nat): (r: seq<Byte>)
    requires v < 0x1_0000
    ensures |r| == 2
  {
    [v / 256, v % 256]
  }

  function Word16(data: seq<Byte>): nat
    requires |data| == 2
  {
    var high: int, low: int := data[0], data[1];
    high * 0x100 + low
  }

  /** The four bytes of an address as they lie in memory, the lowest first. */
  function Bytes32(v: nat): (r: seq<Byte>)
    requires v < 0x1_0000_0000
    ensures |r| == 4
  {
    [v % 256, v / 0x100 % 256, v / 0x1_0000 % 256, v / 0x100_0000]
  }

  function Word32(data: seq<Byte>): (r: nat)
    requires |data| == 4
  {
    var b0: int, b1: int, b2: int, b3: int := data[0], data[1], data[2], data[3];
    b0 + b1 * 0x100 + b2 * 0x1_0000 + b3 * 0x100_0000
  }

  function Encode(p: Packet): (r: seq<Byte>)
    requires p.Fits()
    ensures |r| == PACKET_SIZE
  {
    Bytes16(p.hardwareType) + Bytes16(p.protocolType) + [p.hardwareSize, p.protocolSize] + Bytes16(p.opcode)
    + p.senderMac + Bytes32(p.senderIp) + p.targetMac + Bytes32(p.targetIp)
  }

  function Decode(data: seq<Byte>): (p: Packet)
    requires |data| >= PACKET_SIZE
  {
    Packet(Word16(data[0..2]), Word16(data[2..4]), data[4], data[5], Word16(data[6..8]),
           data[8..14], Word32(data[14..18]), data[18..24], Word32(data[24..28]))
  }

  lemma Words(v: nat, w: nat)
    requires v < 0x1_0000 && w < 0x1_0000_0000
    ensures Word16(Bytes16(v)) == v && Word32(Bytes32(w)) == w
  {
    assert w / 0x100 % 256 == w / 0x100 - 256 * (w / 0x1_0000);
    assert w / 0x1_0000 % 256 == w / 0x1_0000 - 256 * (w / 0x100_0000);
  }

  /** What is encoded is decoded again, with anything behind it. */
  lemma DecodeEncode(p: Packet, rest: seq<Byte>)
    requires p.Fits()
    ensures Decode(Encode(p) + rest) == p
  {
    var data := Encode(p) + rest;
    assert data[0..2] == Bytes16(p.hardwareType) && data[2..4] == Bytes16(p.protocolType);
    assert data[6..8] == Bytes16(p.opcode) && data[8..14] == p.senderMac && data[18..24] == p.targetMac;
    assert data[14..18] == Bytes32(p.senderIp) && data[24..28] == Bytes32(p.targetIp);
    Words(p.hardwareType, p.senderIp);
    Words(p.protocolType, p.targetIp);
    Words(p.opcode, 0);
  }

  datatype Device = Device(mac: Mac, ip: nat)

  predicate Understood(data: seq<Byte>) {
    |data| >= PACKET_SIZE && Decode(data).hardwareType == 1 && Decode(data).protocolType == 0x0800
  }

  predicate AsksFor(dev: Device, data: seq<Byte>) {
    Understood(data) && Decode(data).opcode == REQUEST && Decode(data).targetIp == dev.ip
  }

  /** An Ethernet frame around an address packet. */
  function Frame(dest: Mac, src: Mac, p: Packet): (r: seq<Byte>)
    requires p.Fits()
    ensures |r| == HEADER_SIZE + PACKET_SIZE && r[..6] == dest && r[6..12] == src
    ensures r[12..HEADER_SIZE] == Bytes16(0x0806) && r[HEADER_SIZE..] == Encode(p)
  {
    dest + src + Bytes16(0x0806) + Encode(p)
  }

  // ---------- Against RFC 826 ----------

  function SenderOf(data: seq<Byte>, now: nat): Heard
    requires |data| >= PACKET_SIZE
  {
    Heard(Decode(data).senderIp, Decode(data).senderMac, now)
  }

  /** Section "Packet Reception" of RFC 826: a known sender is updated; an unknown one is added only if the packet
      is for this host, whatever its opcode. Where an entry goes is left to the table. */
  function Received(t: Table, dev: Device, data: seq<Byte>, now: nat): Table
    requires Understood(data)
  {
    var e := SenderOf(data, now);
    if Find(t, e.ip) < |t| || Decode(data).targetIp == dev.ip then Updated(t, e) else t
  }

  /** The code keeps to it exactly when the sender is known or the packet is for this host. */
  lemma KeepsToRfc(t: Table, dev: Device, data: seq<Byte>, now: nat)
    requires Understood(data)
    ensures Updated(t, SenderOf(data, now)) == Received(t, dev, data, now) <==>
            Find(t, Decode(data).senderIp) < |t| || Decode(data).targetIp == dev.ip
  {
    var e := SenderOf(data, now);
    LookupJustHeard(t, e);
    assert Find(t, e.ip) == |t| ==> Lookup(t, e.ip) == None;
  }

  /** A request of host 1 for host 2. */
  function Overheard(mac: Mac): Packet {
    Packet(1, 0x0800, 6, 4, REQUEST, mac, 1, [0, 0, 0, 0, 0, 0], 2)
  }

  /** Host 3 takes up what it overhears, and should not. */
  lemma TakesUpOverheard(dev: Device, mac: Mac, now: nat)
    requires dev.ip == 3
    ensures var data := Encode(Overheard(mac));
            && Understood(data)
            && Lookup(Updated(EmptyTable(), SenderOf(data, now)), 1) == Some(mac)
            && Lookup(Received(EmptyTable(), dev, data, now), 1) == None
  {
    var data := Encode(Overheard(mac));
    DecodeEncode(Overheard(mac), []);
    assert data + [] == data;
    LookupJustHeard(EmptyTable(), SenderOf(data, now));
    assert Find(EmptyTable(), 1) == ARP_MAX_ENTRIES;
  }

  // ---------- The table ----------

  class Cache {
    const table: array<Slot>
    ghost var heard: seq<Heard>

    /** The table is what all that was heard has made of it. */
    ghost predicate Valid()
      reads this, table
    {
      table.Length == ARP_MAX_ENTRIES && table[..] == Run(heard)
    }

    constructor ()
      ensures Valid() && fresh(table) && heard == []
    {
      heard := [];
      table := new Slot[ARP_MAX_ENTRIES](_ => Slot(0, [0, 0, 0, 0, 0, 0], 0, false));
      new;
      assert table[..] == EmptyTable();
    }

    /** Overwrites slot `i`. */
    method Fill(i: nat, ip: nat, mac: Mac, now: nat)
      requires i < table.Length
      modifies table
      ensures table[..] == old(table[..])[i := Slot(ip, mac, now, true)]
    {
      table[i] := table[i].(ip := ip);
      table[i] := table[i].(mac := mac);
      table[i] := table[i].(timestamp := now);
      table[i] := table[i].(valid := true);
    }

    method Refresh(ip: nat, mac: Mac, now: nat) returns (done: bool)
      requires table.Length == ARP_MAX_ENTRIES
      modifies table
      ensures done <==> Find(old(table[..]), ip) < table.Length
      ensures table[..] == if done then Updated(old(table[..]), Heard(ip, mac, now)) else old(table[..])
    {
      ghost var t: Table := table[..];
      var i := 0;
      while i < table.Length
        invariant i <= table.Length && table[..] == t
        invariant forall j :: 0 <= j < i ==> !Matches(t[j], ip)
      {
        if table[i].valid && table[i].ip == ip {
          assert Matches(t[i], ip);
          table[i] := table[i].(mac := mac);
          table[i] := table[i].(timestamp := now);
          return true;
        }
        i := i + 1;
      }
      return false;
    }

    method Add(ip: nat, mac: Mac, now: nat)
      requires table.Length == ARP_MAX_ENTRIES && Find(table[..], ip) == ARP_MAX_ENTRIES
      modifies table
      ensures table[..] == Updated(old(table[..]), Heard(ip, mac, now))
    {
      ghost var t: Table := table[..];
      var oldest, i := 0, 0;
      while i < table.Length
        invariant i <= table.Length && oldest < table.Length && (oldest < i || oldest == i == 0)
        invariant forall j {:trigger t[j]} :: 0 <= j < i ==> t[j].valid
        invariant forall j {:trigger t[j]} :: 0 <= j < i ==> t[oldest].timestamp <= t[j].timestamp
        invariant forall j {:trigger t[j]} :: 0 <= j < oldest ==> t[oldest].timestamp < t[j].timestamp
      {
        assert table[i] == t[i];
        if !table[i].valid {
          Fill(i, ip, mac, now);
          return;
        }
        if table[i].timestamp < table[oldest].timestamp {
          oldest := i;
        }
        i := i + 1;
      }
      Fill(oldest, ip, mac, now);
    }

    method Update(ip: nat, mac: Mac, now: nat)
      requires Valid()
      modifies `heard, table
      ensures Valid() && heard == old(heard) + [Heard(ip, mac, now)]
    {
      var done := Refresh(ip, mac, now);
      if !done { Add(ip, mac, now); }
      heard := heard + [Heard(ip, mac, now)];
      assert heard[..|heard| - 1] == old(heard);
    }

    method LookUp(ip: nat) returns (mac: Option<Mac>)
      requires Valid()
      ensures mac == Lookup(Run(heard), ip)
    {
      var i := 0;
      while i < table.Length
        invariant i <= table.Length
        invariant forall j :: 0 <= j < i ==> !Matches(table[..][j], ip)
      {
        if table[i].valid && table[i].ip == ip {
          assert Matches(table[..][i], ip);
          return Some(table[i].mac);
        }
        i := i + 1;
      }
      return None;
    }

    /** Takes note of the sender of any packet it understands, and answers who asks for it. */
    method HandlePacket(dev: Device, data: seq<Byte>, now: nat) returns (reply: Option<seq<Byte>>)
      requires Valid() && dev.ip < 0x1_0000_0000
      modifies `heard, table
      ensures Valid()
      ensures heard == old(heard) + if Understood(data) then [SenderOf(data, now)] else []
      ensures reply.Some? <==> AsksFor(dev, data)
      ensures reply.Some? ==>
                var q := Decode(data);
                && |reply.value| == HEADER_SIZE + PACKET_SIZE
                && reply.value[..6] == q.senderMac && reply.value[6..12] == dev.mac
                && Word16(reply.value[12..HEADER_SIZE]) == 0x0806
                && Decode(reply.value[HEADER_SIZE..]) ==
                     Packet(1, 0x0800, 6, 4, REPLY, dev.mac, dev.ip, q.senderMac, q.senderIp)
    {
      if |data| < PACKET_SIZE { return None; }
      var arp := Decode(data);
      if arp.hardwareType != 1 || arp.protocolType != 0x0800 { return None; }
      Update(arp.senderIp, arp.senderMac, now);
      if arp.opcode == REQUEST {
        if arp.targetIp == dev.ip {
          var answer := Packet(1, 0x0800, 6, 4, REPLY, dev.mac, dev.ip, arp.senderMac, arp.senderIp);
          reply := Some(Frame(arp.senderMac, dev.mac, answer));
          DecodeEncode(answer, []);
          assert Encode(answer) + [] == Encode(answer);
          return;
        }
      }
      return None;
    }
  }

  /** The broadcast that asks for `ip`. */
  function Request(dev: Device, ip: nat): seq<Byte>
    requires dev.ip < 0x1_0000_0000 && ip < 0x1_0000_0000
  {
    Frame([255, 255, 255, 255, 255, 255], dev.mac,
          Packet(1, 0x0800, 6, 4, REQUEST, dev.mac, dev.ip, [0, 0, 0, 0, 0, 0], ip))
  }

  /** A request reaches the device it asks for, the answer reaches who asked, and then
      both know the address of the other, whatever they knew before. */
  method Resolve(a: Device, b: Device, mine: Cache, theirs: Cache, now: nat) returns (mac: Option<Mac>)
    requires a.ip < 0x1_0000_0000 && b.ip < 0x1_0000_0000
    requires mine.Valid() && theirs.Valid() && mine != theirs && mine.table != theirs.table
    modifies mine`heard, theirs`heard, mine.table, theirs.table
    ensures mine.Valid() && theirs.Valid() && mac == Some(b.mac)
    ensures Lookup(Run(theirs.heard), a.ip) == Some(a.mac)
  {
    var ask := Packet(1, 0x0800, 6, 4, REQUEST, a.mac, a.ip, [0, 0, 0, 0, 0, 0], b.ip);
    DecodeEncode(ask, []);
    assert Encode(ask) + [] == Encode(ask);
    var data := Request(a, b.ip)[HEADER_SIZE..];
    assert data == Encode(ask);
    ghost var h := theirs.heard;
    var reply := theirs.HandlePacket(b, data, now);
    assert theirs.heard[..|h|] == h;
    LookupJustHeard(Run(h), Heard(a.ip, a.mac, now));
    ghost var g := mine.heard;
    var nothing := mine.HandlePacket(a, reply.value[HEADER_SIZE..], now);
    assert mine.heard[..|g|] == g;
    LookupJustHeard(Run(g), Heard(b.ip, b.mac, now));
    mac := mine.LookUp(b.ip);
  }
}
