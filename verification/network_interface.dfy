/**
 * The network interface between IP and Ethernet: it sends datagrams in Ethernet frames to the
 * hardware address of their next hop, learns those addresses with ARP (RFC 826), queues
 * datagrams while an address is unknown, answers ARP requests for its own IP address, and
 * forgets pending requests after 5 seconds and learnt addresses after 30 seconds.
 */
module NetworkInterfaces {
  import opened Common

  /** A 48-bit Ethernet (hardware) address. */
  type Mac = x: int | 0 <= x < 0x1_0000_0000_0000

  const EthernetBroadcast: Mac := 0xFFFF_FFFF_FFFF
  /** EthernetHeader::TYPE_IPv4 and TYPE_ARP. */
  const TypeIPv4: u16 := 0x0800
  const TypeArp: u16 := 0x0806
  /** ARPMessage::OPCODE_REQUEST and OPCODE_REPLY. */
  const OpcodeRequest: u16 := 1
  const OpcodeReply: u16 := 2

  /** The IPv4 header fields the link and IP layers use; the rest of the header is not modelled. */
  datatype IPv4Header = IPv4Header(ttl: u8, src: u32, dst: u32)
  datatype Datagram = Datagram(header: IPv4Header, payload: seq<u8>)

  datatype ArpMessage = ArpMessage(opcode: u16, senderIp: u32, senderMac: Mac, targetIp: u32, targetMac: Mac)

  /**
   * A frame's payload, abstractly: the serialisation of a datagram or of an ARP message, or
   * bytes that parse as neither.
   */
  datatype Payload = DatagramBytes(dgram: Datagram) | ArpBytes(arp: ArpMessage) | OtherBytes(bytes: seq<u8>)

  datatype EthernetHeader = EthernetHeader(dst: Mac, src: Mac, kind: u16)
  datatype EthernetFrame = EthernetFrame(header: EthernetHeader, payload: Payload)

  /** A learnt hardware address and the time it was learnt. */
  datatype Mapping = Mapping(mac: Mac, time: nat)

  /** A datagram waiting for the hardware address of its next hop. */
  datatype Waiting = Waiting(dgram: Datagram, nextHop: u32)

  /** parse of a datagram: succeeds exactly on the serialisation of one. */
  function ParseDatagram(p: Payload): (r: Option<Datagram>)
    ensures r.Some? <==> p.DatagramBytes?
  {
    if p.DatagramBytes? then Some(p.dgram) else None
  }

  /** parse of an ARP message: succeeds exactly on the serialisation of one. */
  function ParseArp(p: Payload): (r: Option<ArpMessage>)
    ensures r.Some? <==> p.ArpBytes?
  {
    if p.ArpBytes? then Some(p.arp) else None
  }

  /** The IPv4 frame carrying `dgram` from `src` to `dst`. */
  function DatagramFrame(dst: Mac, src: Mac, dgram: Datagram): EthernetFrame {
    EthernetFrame(EthernetHeader(dst, src, TypeIPv4), DatagramBytes(dgram))
  }

  /** The broadcast ARP request asking for the hardware address of `target`. */
  function ArpRequestFrame(mac: Mac, ip: u32, target: u32): EthernetFrame {
    EthernetFrame(EthernetHeader(EthernetBroadcast, mac, TypeArp),
                  ArpBytes(ArpMessage(OpcodeRequest, ip, mac, target, 0)))
  }

  /** The unicast ARP reply to `request`: sender and target swapped, this interface as the sender. */
  function ArpReplyFrame(mac: Mac, ip: u32, request: ArpMessage): EthernetFrame {
    EthernetFrame(EthernetHeader(request.senderMac, mac, TypeArp),
                  ArpBytes(ArpMessage(OpcodeReply, ip, mac, request.senderIp, request.senderMac)))
  }

  // ---------------------------------------------------------------------------------------
  // releasing the waiting datagrams once addresses are known

  /** The frames that send the waiting datagrams whose next hop has a mapping, in queue order. */
  function Resolved(waiting: seq<Waiting>, mappings: map<u32, Mapping>, mac: Mac): seq<EthernetFrame>
    decreases |waiting|
  {
    if |waiting| == 0 then []
    else
      var w := waiting[|waiting| - 1];
      Resolved(waiting[..|waiting| - 1], mappings, mac)
        + (if w.nextHop in mappings then [DatagramFrame(mappings[w.nextHop].mac, mac, w.dgram)] else [])
  }

  /** The waiting datagrams whose next hop has no mapping, in queue order. */
  function Unresolved(waiting: seq<Waiting>, mappings: map<u32, Mapping>): seq<Waiting>
    decreases |waiting|
  {
    if |waiting| == 0 then []
    else
      var w := waiting[|waiting| - 1];
      Unresolved(waiting[..|waiting| - 1], mappings) + (if w.nextHop in mappings then [] else [w])
  }

  /**
   * Releasing the queue loses and duplicates nothing: every waiting datagram either goes out
   * in one IPv4 frame to its next hop's mapped address or stays queued, and only those whose
   * next hop is unmapped stay.
   */
  lemma {:induction false} ReleasePartitions(waiting: seq<Waiting>, mappings: map<u32, Mapping>, mac: Mac)
    ensures |Resolved(waiting, mappings, mac)| + |Unresolved(waiting, mappings)| == |waiting|
    ensures forall w | w in Unresolved(waiting, mappings) :: w in waiting && w.nextHop !in mappings
    ensures forall f | f in Resolved(waiting, mappings, mac) ::
              exists w | w in waiting :: w.nextHop in mappings && f == DatagramFrame(mappings[w.nextHop].mac, mac, w.dgram)
    decreases |waiting|
  {
    if |waiting| > 0 {
      var front := waiting[..|waiting| - 1];
      ReleasePartitions(front, mappings, mac);
      assert forall w | w in front :: w in waiting;
    }
  }

  /** Releasing a queue one datagram longer sends or keeps that datagram after the rest. */
  lemma ReleaseStep(done: seq<Waiting>, w: Waiting, mappings: map<u32, Mapping>, mac: Mac)
    ensures w.nextHop in mappings ==>
              && Resolved(done + [w], mappings, mac) == Resolved(done, mappings, mac) + [DatagramFrame(mappings[w.nextHop].mac, mac, w.dgram)]
              && Unresolved(done + [w], mappings) == Unresolved(done, mappings)
    ensures w.nextHop !in mappings ==>
              && Resolved(done + [w], mappings, mac) == Resolved(done, mappings, mac)
              && Unresolved(done + [w], mappings) == Unresolved(done, mappings) + [w]
  {
    assert (done + [w])[..|done|] == done;
  }

  /**
   * Learning one address releases exactly the datagrams waiting for it: when no waiting
   * datagram's next hop was mapped, after mapping `ip` the ones for `ip` go out, all to its
   * new hardware address, and every other one stays queued.
   */
  lemma {:induction false} LearningReleasesWaiters(waiting: seq<Waiting>, mappings: map<u32, Mapping>, ip: u32,
                                                   learnt: Mapping, mac: Mac)
    requires forall w | w in waiting :: w.nextHop !in mappings
    ensures forall w :: w in Unresolved(waiting, mappings[ip := learnt]) <==> w in waiting && w.nextHop != ip
    ensures forall f | f in Resolved(waiting, mappings[ip := learnt], mac) ::
              f.header == EthernetHeader(learnt.mac, mac, TypeIPv4)
    decreases |waiting|
  {
    if |waiting| > 0 {
      var front := waiting[..|waiting| - 1];
      assert forall w | w in front :: w in waiting;
      assert waiting == front + [waiting[|waiting| - 1]];
      LearningReleasesWaiters(front, mappings, ip, learnt, mac);
    }
  }

  /** With no mapping for `ip`, the datagrams waiting for `ip` stay queued. */
  lemma {:induction false} UnmappedStaysQueued(waiting: seq<Waiting>, mappings: map<u32, Mapping>, w: Waiting)
    requires w in waiting && w.nextHop !in mappings
    ensures w in Unresolved(waiting, mappings)
    decreases |waiting|
  {
    var last := waiting[|waiting| - 1];
    if last != w {
      var front := waiting[..|waiting| - 1];
      assert waiting == front + [last];
      UnmappedStaysQueued(front, mappings, w);
    }
  }

  /**
   * The flush loop of recv_frame as written, one iteration: the front datagram is sent and
   * dropped when its next hop is mapped, and otherwise nothing changes at all.
   */
  function FlushStepAsWritten(ready: seq<EthernetFrame>, waiting: seq<Waiting>, mappings: map<u32, Mapping>, mac: Mac)
    : (r: (seq<EthernetFrame>, seq<Waiting>))
    requires |waiting| > 0
    ensures waiting[0].nextHop in mappings ==> |r.1| + 1 == |waiting|
    ensures waiting[0].nextHop !in mappings ==> r == (ready, waiting)
  {
    var w := waiting[0];
    if w.nextHop in mappings then (ready + [DatagramFrame(mappings[w.nextHop].mac, mac, w.dgram)], waiting[1..])
    else (ready, waiting)
  }

  /** The flush loop as written after `n` iterations, or once its queue is empty. */
  function RunAsWritten(n: nat, ready: seq<EthernetFrame>, waiting: seq<Waiting>, mappings: map<u32, Mapping>, mac: Mac)
    : (seq<EthernetFrame>, seq<Waiting>)
  {
    if n == 0 || |waiting| == 0 then (ready, waiting)
    else
      var (ready', waiting') := FlushStepAsWritten(ready, waiting, mappings, mac);
      RunAsWritten(n - 1, ready', waiting', mappings, mac)
  }

  /**
   * As written, the flush loop never ends once any queued datagram's next hop is unmapped:
   * after any number of iterations that datagram is still queued, so the loop condition (a
   * non-empty queue) still holds.
   */
  lemma {:induction false} FlushAsWrittenNeverDrains(n: nat, ready: seq<EthernetFrame>, waiting: seq<Waiting>,
                                                     mappings: map<u32, Mapping>, mac: Mac, stuck: Waiting)
    requires stuck in waiting && stuck.nextHop !in mappings
    ensures stuck in RunAsWritten(n, ready, waiting, mappings, mac).1
    decreases n
  {
    if n > 0 {
      var (ready', waiting') := FlushStepAsWritten(ready, waiting, mappings, mac);
      if waiting[0].nextHop in mappings {
        assert waiting == [waiting[0]] + waiting[1..];
        assert stuck in waiting[1..];
      }
      FlushAsWrittenNeverDrains(n - 1, ready', waiting', mappings, mac, stuck);
    }
  }

  /**
   * A concrete case: an ARP message from host 1 arrives while a datagram for host 2, whose
   * address is unknown, is queued. The loop as written spins on it forever, while the
   * corrected release sends nothing and keeps it queued.
   */
  lemma ArpFromOtherHostHangs(dgram: Datagram, mac: Mac, other: Mac)
    ensures forall n: nat :: Waiting(dgram, 2) in RunAsWritten(n, [], [Waiting(dgram, 2)], map[1 := Mapping(other, 0)], mac).1
    ensures Resolved([Waiting(dgram, 2)], map[1 := Mapping(other, 0)], mac) == []
    ensures Unresolved([Waiting(dgram, 2)], map[1 := Mapping(other, 0)]) == [Waiting(dgram, 2)]
  {
    forall n: nat
      ensures Waiting(dgram, 2) in RunAsWritten(n, [], [Waiting(dgram, 2)], map[1 := Mapping(other, 0)], mac).1
    {
      FlushAsWrittenNeverDrains(n, [], [Waiting(dgram, 2)], map[1 := Mapping(other, 0)], mac, Waiting(dgram, 2));
    }
    assert [Waiting(dgram, 2)][..0] == [];
  }

  /** When every queued next hop is mapped, the loop as written ends and agrees with the corrected release. */
  lemma {:induction false} FlushAsWrittenWhenAllMapped(ready: seq<EthernetFrame>, waiting: seq<Waiting>,
                                                       mappings: map<u32, Mapping>, mac: Mac)
    requires forall w | w in waiting :: w.nextHop in mappings
    ensures RunAsWritten(|waiting|, ready, waiting, mappings, mac) == (ready + Resolved(waiting, mappings, mac), [])
    decreases |waiting|
  {
    if |waiting| == 0 {
      assert ready + [] == ready;
    } else {
      var w := waiting[0];
      var frame := DatagramFrame(mappings[w.nextHop].mac, mac, w.dgram);
      FlushAsWrittenWhenAllMapped(ready + [frame], waiting[1..], mappings, mac);
      ResolvedCons(w, waiting[1..], mappings, mac);
      assert [w] + waiting[1..] == waiting;
      AppendAssoc(ready, [frame], Resolved(waiting[1..], mappings, mac));
    }
  }

  lemma {:induction false} ResolvedCons(w: Waiting, rest: seq<Waiting>, mappings: map<u32, Mapping>, mac: Mac)
    requires w.nextHop in mappings
    ensures Resolved([w] + rest, mappings, mac) == [DatagramFrame(mappings[w.nextHop].mac, mac, w.dgram)] + Resolved(rest, mappings, mac)
    decreases |rest|
  {
    var frame := DatagramFrame(mappings[w.nextHop].mac, mac, w.dgram);
    if |rest| == 0 {
      assert ([w] + rest)[..0] == [];
    } else {
      var last := rest[|rest| - 1];
      var tail := if last.nextHop in mappings then [DatagramFrame(mappings[last.nextHop].mac, mac, last.dgram)] else [];
      assert ([w] + rest)[..|rest|] == [w] + rest[..|rest| - 1];
      ResolvedCons(w, rest[..|rest| - 1], mappings, mac);
      AppendAssoc([frame], Resolved(rest[..|rest| - 1], mappings, mac), tail);
    }
  }

  // ---------------------------------------------------------------------------------------
  // expiry

  /** The entries of an ARP-time table younger than `limit` milliseconds at time `now`. */
  function YoungTimes(times: map<u32, nat>, now: nat, limit: nat): (r: map<u32, nat>)
    ensures forall ip :: ip in r <==> ip in times && now - times[ip] < limit
    ensures forall ip | ip in r :: r[ip] == times[ip]
  {
    map ip | ip in times && now - times[ip] < limit :: times[ip]
  }

  /** The mappings younger than `limit` milliseconds at time `now`. */
  function YoungMappings(mappings: map<u32, Mapping>, now: nat, limit: nat): (r: map<u32, Mapping>)
    ensures forall ip :: ip in r <==> ip in mappings && now - mappings[ip].time < limit
    ensures forall ip | ip in r :: r[ip] == mappings[ip]
  {
    map ip | ip in mappings && now - mappings[ip].time < limit :: mappings[ip]
  }

  /** ARP_REQUEST_TIMEOUT and MAPPING_TIMEOUT of tick, in milliseconds. */
  const ArpRequestTimeout: nat := 5000
  const MappingTimeout: nat := 30000

  class NetworkInterface {
    const mac: Mac
    const ip: u32
    var mappings: map<u32, Mapping>
    var arpTimes: map<u32, nat>
    var readyFrames: seq<EthernetFrame>
    var unreadyFrames: seq<Waiting>
    var timestamp: nat

    /** Every recorded time lies in the past. */
    ghost predicate TimesBounded()
      reads this
    {
      && (forall a | a in arpTimes :: arpTimes[a] <= timestamp)
      && (forall a | a in mappings :: mappings[a].time <= timestamp)
    }

    /**
     * Recorded times lie in the past, and a datagram waits only while the hardware address of
     * its next hop is unknown.
     */
    ghost predicate Valid()
      reads this
    {
      && TimesBounded()
      && (forall w | w in unreadyFrames :: w.nextHop !in mappings)
    }

    constructor (mac: Mac, ip: u32)
      ensures Valid() && this.mac == mac && this.ip == ip
      ensures mappings == map[] && arpTimes == map[] && readyFrames == [] && unreadyFrames == [] && timestamp == 0
    {
      this.mac := mac;
      this.ip := ip;
      mappings := map[];
      arpTimes := map[];
      readyFrames := [];
      unreadyFrames := [];
      timestamp := 0;
    }

    /**
     * NetworkInterface::send_datagram: with a known address, one IPv4 frame to it; otherwise
     * the datagram waits, and a broadcast ARP request goes out (its time recorded) unless one
     * for that next hop is already pending.
     */
    method SendDatagram(dgram: Datagram, nextHop: u32)
      requires Valid()
      modifies this
      ensures Valid()
      ensures nextHop in mappings ==>
                && readyFrames == old(readyFrames) + [DatagramFrame(mappings[nextHop].mac, mac, dgram)]
                && unreadyFrames == old(unreadyFrames) && arpTimes == old(arpTimes)
      ensures nextHop !in mappings ==> unreadyFrames == old(unreadyFrames) + [Waiting(dgram, nextHop)]
      ensures nextHop !in mappings && nextHop in old(arpTimes) ==>
                readyFrames == old(readyFrames) && arpTimes == old(arpTimes)
      ensures nextHop !in mappings && nextHop !in old(arpTimes) ==>
                && readyFrames == old(readyFrames) + [ArpRequestFrame(mac, ip, nextHop)]
                && arpTimes == old(arpTimes)[nextHop := timestamp]
      ensures mappings == old(mappings) && timestamp == old(timestamp)
    {
      if nextHop in mappings {
        var entry := mappings[nextHop];
        readyFrames := readyFrames + [DatagramFrame(entry.mac, mac, dgram)];
      } else {
        unreadyFrames := unreadyFrames + [Waiting(dgram, nextHop)];
        if nextHop !in arpTimes {
          arpTimes := arpTimes[nextHop := timestamp];
          readyFrames := readyFrames + [ArpRequestFrame(mac, ip, nextHop)];
        }
      }
    }

    /**
     * The release of waiting datagrams in recv_frame, corrected to terminate: each waiting
     * datagram whose next hop is now mapped is sent, in queue order, and the others stay
     * queued in order.
     */
    method Release()
      requires TimesBounded()
      modifies this
      ensures Valid()
      ensures readyFrames == old(readyFrames) + Resolved(old(unreadyFrames), mappings, mac)
      ensures unreadyFrames == Unresolved(old(unreadyFrames), mappings)
      ensures mappings == old(mappings) && arpTimes == old(arpTimes) && timestamp == old(timestamp)
    {
      var pending := unreadyFrames;
      unreadyFrames := [];
      for i := 0 to |pending|
        invariant TimesBounded() && (forall w | w in unreadyFrames :: w.nextHop !in mappings)
        invariant readyFrames == old(readyFrames) + Resolved(pending[..i], mappings, mac)
        invariant unreadyFrames == Unresolved(pending[..i], mappings)
        invariant mappings == old(mappings) && arpTimes == old(arpTimes) && timestamp == old(timestamp)
      {
        var w := pending[i];
        assert pending[..i + 1] == pending[..i] + [w];
        ReleaseStep(pending[..i], w, mappings, mac);
        if w.nextHop in mappings {
          SendDatagram(w.dgram, w.nextHop);
          AppendAssoc(old(readyFrames), Resolved(pending[..i], mappings, mac), [DatagramFrame(mappings[w.nextHop].mac, mac, w.dgram)]);
        } else {
          unreadyFrames := unreadyFrames + [w];
        }
      }
      assert pending[..|pending|] == pending;
    }

    /**
     * NetworkInterface::recv_frame: an IPv4 frame for this interface's address yields its
     * datagram. A parsed ARP message (to any address) teaches the sender's mapping, stamped
     * now, clears the pending request for it, releases the datagrams that can now go, and,
     * when it is a request for this interface's IP address, queues the reply. Anything else
     * changes nothing.
     */
    method RecvFrame(frame: EthernetFrame) returns (r: Option<Datagram>)
      requires Valid()
      modifies this
      ensures Valid()
      ensures r.Some? <==> frame.header.kind == TypeIPv4 && frame.payload.DatagramBytes? && frame.header.dst == mac
      ensures r.Some? ==> r == ParseDatagram(frame.payload)
      ensures frame.header.kind == TypeArp && frame.payload.ArpBytes? ==>
                var msg := frame.payload.arp;
                && mappings == old(mappings)[msg.senderIp := Mapping(msg.senderMac, timestamp)]
                && arpTimes == old(arpTimes) - {msg.senderIp}
                && unreadyFrames == Unresolved(old(unreadyFrames), mappings)
                && readyFrames == old(readyFrames) + Resolved(old(unreadyFrames), mappings, mac)
                                  + (if msg.opcode == OpcodeRequest && msg.targetIp == ip then [ArpReplyFrame(mac, ip, msg)] else [])
      ensures !(frame.header.kind == TypeArp && frame.payload.ArpBytes?) ==>
                && mappings == old(mappings) && arpTimes == old(arpTimes)
                && readyFrames == old(readyFrames) && unreadyFrames == old(unreadyFrames)
      ensures timestamp == old(timestamp)
    {
      if frame.header.kind == TypeIPv4 {
        var dgram := ParseDatagram(frame.payload);
        if dgram.Some? && frame.header.dst == mac {
          return dgram;
        }
      } else if frame.header.kind == TypeArp {
        var parsed := ParseArp(frame.payload);
        if parsed.Some? {
          var msg := parsed.value;
          mappings := mappings[msg.senderIp := Mapping(msg.senderMac, timestamp)];
          if msg.senderIp in arpTimes {
            arpTimes := arpTimes - {msg.senderIp};
          }
          Release();
          if msg.opcode == OpcodeRequest && msg.targetIp == ip {
            readyFrames := readyFrames + [ArpReplyFrame(mac, ip, msg)];
          }
        }
      }
      return None;
    }

    /**
     * NetworkInterface::tick: time advances, then pending requests at least 5000 ms old and
     * mappings at least 30000 ms old are erased, and every younger entry is kept.
     */
    method Tick(msSinceLastTick: nat)
      requires Valid()
      modifies this
      ensures Valid()
      ensures timestamp == old(timestamp) + msSinceLastTick
      ensures arpTimes == YoungTimes(old(arpTimes), timestamp, ArpRequestTimeout)
      ensures mappings == YoungMappings(old(mappings), timestamp, MappingTimeout)
      ensures readyFrames == old(readyFrames) && unreadyFrames == old(unreadyFrames)
    {
      timestamp := timestamp + msSinceLastTick;
      ExpireRequests();
      ExpireMappings();
    }

    /** The first loop of tick: erases the pending ARP requests at least 5000 ms old. */
    method ExpireRequests()
      modifies this
      ensures arpTimes == YoungTimes(old(arpTimes), timestamp, ArpRequestTimeout)
      ensures mappings == old(mappings) && timestamp == old(timestamp)
      ensures readyFrames == old(readyFrames) && unreadyFrames == old(unreadyFrames)
    {
      var keys := arpTimes.Keys;
      while keys != {}
        invariant keys <= old(arpTimes).Keys
        invariant arpTimes == map a | a in old(arpTimes) && (a in keys || timestamp - old(arpTimes)[a] < ArpRequestTimeout) :: old(arpTimes)[a]
        invariant mappings == old(mappings) && timestamp == old(timestamp)
        invariant readyFrames == old(readyFrames) && unreadyFrames == old(unreadyFrames)
        decreases keys
      {
        var a :| a in keys;
        if timestamp - arpTimes[a] >= ArpRequestTimeout {
          arpTimes := arpTimes - {a};
        }
        keys := keys - {a};
      }
    }

    /** The second loop of tick: erases the mappings at least 30000 ms old. */
    method ExpireMappings()
      modifies this
      ensures mappings == YoungMappings(old(mappings), timestamp, MappingTimeout)
      ensures arpTimes == old(arpTimes) && timestamp == old(timestamp)
      ensures readyFrames == old(readyFrames) && unreadyFrames == old(unreadyFrames)
    {
      var keys := mappings.Keys;
      while keys != {}
        invariant keys <= old(mappings).Keys
        invariant mappings == map a | a in old(mappings) && (a in keys || timestamp - old(mappings)[a].time < MappingTimeout) :: old(mappings)[a]
        invariant arpTimes == old(arpTimes) && timestamp == old(timestamp)
        invariant readyFrames == old(readyFrames) && unreadyFrames == old(unreadyFrames)
        decreases keys
      {
        var a :| a in keys;
        if timestamp - mappings[a].time >= MappingTimeout {
          mappings := mappings - {a};
        }
        keys := keys - {a};
      }
    }

    /** NetworkInterface::maybe_send: the oldest ready frame, removed, or nothing when none is ready. */
    method MaybeSend() returns (r: Option<EthernetFrame>)
      modifies this
      ensures r.None? <==> old(readyFrames) == []
      ensures r.Some? ==> r.value == old(readyFrames)[0] && readyFrames == old(readyFrames)[1..]
      ensures r.None? ==> readyFrames == old(readyFrames)
      ensures mappings == old(mappings) && arpTimes == old(arpTimes) && unreadyFrames == old(unreadyFrames)
      ensures timestamp == old(timestamp)
    {
      if readyFrames == [] {
        return None;
      }
      var frame := readyFrames[0];
      readyFrames := readyFrames[1..];
      return Some(frame);
    }
  }
}
