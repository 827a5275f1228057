/** What the encoder writes, the parser and the consumer read back: peer, addresses, and sizes on the wire. */
module MdnsRoundTrip {
  import opened Bytes
  import opened Utf8
  import opened Addresses
  import opened DnsWire
  import opened DnsEncoder
  import opened MdnsPeer
  import PrintedForm

  /** The size of an interface's receive buffer. */
  const RECV_BUFFER: nat := 4096

  // ---------------------------------------------------------------- a packet parses

  lemma HeaderBack(id: u16, flags: u16, qd: u16, an: u16, ns: u16, ar: u16, rest: seq<byte>)
    ensures GetMessage(Header(id, flags, qd, an, ns, ar) + rest) == GetSections(id, flags, qd, an, ns, ar, rest)
  {
    hide BigEndian, GetU16, GetSections;
    var s5 := BigEndian(ar, 2) + rest;
    var s4 := BigEndian(ns, 2) + s5;
    var s3 := BigEndian(an, 2) + s4;
    var s2 := BigEndian(qd, 2) + s3;
    var s1 := BigEndian(flags, 2) + s2;
    U16Back(id, s1);
    U16Back(flags, s2);
    U16Back(qd, s3);
    U16Back(an, s4);
    U16Back(ns, s5);
    U16Back(ar, rest);
    assert Header(id, flags, qd, an, ns, ar) + rest == BigEndian(id, 2) + s1;
  }

  predicate Short(values: seq<seq<byte>>) {
    forall v :: v in values ==> |v| <= MAX_TXT_VALUE_LENGTH
  }

  /** The values a packet's records carry, and those records. */
  function TxtRecords(peerName: seq<byte>, ttl: u32, values: seq<seq<byte>>): (rs: seq<seq<byte>>)
    requires Short(values)
    ensures |rs| == |values|
  {
    seq(|values|, i requires 0 <= i < |values| => assert values[i] in values; TxtRecord(peerName, ttl, values[i]))
  }

  /** The parsed records of a packet's values. */
  function Parsed(name: Name, ttl: u32, values: seq<seq<byte>>): seq<Record> {
    seq(|values|, i requires 0 <= i < |values| => Record(name, TXT, 0x8001, ttl, Txt([values[i]])))
  }

  predicate Plain(values: seq<seq<byte>>) {
    forall v :: v in values ==> |v| <= MAX_TXT_VALUE_LENGTH && SPACE !in v
  }

  lemma {:induction false} FlattenCons(r: seq<byte>, rs: seq<seq<byte>>)
    ensures Flatten([r] + rs) == r + Flatten(rs)
  {
    if rs == [] {
      assert ([r] + rs)[..0] == [];
    } else {
      var n := |rs| - 1;
      assert ([r] + rs)[..n + 1] == [r] + rs[..n];
      FlattenCons(r, rs[..n]);
      Assoc(r, Flatten(rs[..n]), rs[n]);
    }
  }

  lemma GetRecordsStep(s: seq<byte>, n: nat, r: Record, s1: seq<byte>, rs: seq<Record>, rest: seq<byte>)
    requires n > 0 && GetRecord(s) == Got(r, s1) && GetRecords(s1, n - 1) == Got(rs, rest)
    ensures GetRecords(s, n) == Got([r] + rs, rest)
  {
    hide GetRecord;
  }

  lemma RecordsUncons(name: Name, peerName: seq<byte>, ttl: u32, values: seq<seq<byte>>)
    requires Short(values) && values != []
    ensures Short(values[1..]) && |values[0]| <= MAX_TXT_VALUE_LENGTH
    ensures Plain(values) <==> SPACE !in values[0] && Plain(values[1..])
    ensures Unreadable(values) <==> Strings(TxtData(values[0])).None? || Unreadable(values[1..])
    ensures TxtRecords(peerName, ttl, values) == [TxtRecord(peerName, ttl, values[0])] + TxtRecords(peerName, ttl, values[1..])
    ensures Parsed(name, ttl, values) == [Record(name, TXT, 0x8001, ttl, Txt([values[0]]))] + Parsed(name, ttl, values[1..])
  {
    hide TxtRecord, Strings, TxtData;
    assert values[0] in values && forall x :: x in values <==> x == values[0] || x in values[1..];
  }

  /** Some value's data is not a series of character strings. */
  predicate Unreadable(values: seq<seq<byte>>) {
    exists v :: v in values && |v| <= MAX_TXT_VALUE_LENGTH && Strings(TxtData(v)).None?
  }

  lemma GetRecordsCons(s: seq<byte>, n: nat)
    requires n > 0
    ensures GetRecord(s).Bad? ==> GetRecords(s, n).Bad?
    ensures GetRecord(s).Got? ==>
              var r := GetRecords(GetRecord(s).rest, n - 1);
              GetRecords(s, n) == if r.Bad? then Bad else Got([GetRecord(s).value] + r.value, r.rest)
  {
    hide GetRecord;
  }

  /**
   The records of some values parse as what was meant if and only if no value has a space, and do not
   parse at all if and only if some value's data is broken; either way nothing else is consumed.
   */
  lemma {:induction false} RecordsBack(name: Name, ttl: u32, values: seq<seq<byte>>, rest: seq<byte>)
    requires Labels(name) && Short(values)
    ensures var r := GetRecords(Flatten(TxtRecords(NameBytes(name), ttl, values)) + rest, |values|);
            && (r == Got(Parsed(name, ttl, values), rest) <==> Plain(values))
            && (r.Bad? <==> Unreadable(values))
            && (r.Got? ==> r.rest == rest)
  {
    hide NameBytes, TxtRecord, GetRecord, Labels, Strings, TxtData, Plain, Unreadable, Flatten;
    var rs := TxtRecords(NameBytes(name), ttl, values);
    if values == [] {
      assert rs == [] && Parsed(name, ttl, values) == [];
      NoRecords(rest);
      assert [] + rest == rest;
    } else {
      var v, others := values[0], values[1..];
      RecordsUncons(name, NameBytes(name), ttl, values);
      var tail := Flatten(TxtRecords(NameBytes(name), ttl, others));
      FlattenCons(TxtRecord(NameBytes(name), ttl, v), TxtRecords(NameBytes(name), ttl, others));
      Assoc(TxtRecord(NameBytes(name), ttl, v), tail, rest);
      TxtRecordRead(name, ttl, v, tail + rest);
      TxtDataIffNoSpace(v);
      RecordsBack(name, ttl, others, rest);
      GetRecordsCons(Flatten(rs) + rest, |values|);
      var first, meant := GetRecord(Flatten(rs) + rest), Record(name, TXT, 0x8001, ttl, Txt([v]));
      var more := GetRecords(tail + rest, |others|);
      if first.Got? && more.Got? {
        SameCons(first.value, more.value, meant, Parsed(name, ttl, others));
      }
    }
  }

  lemma SameCons<T>(x: T, a: seq<T>, y: T, b: seq<T>)
    ensures [x] + a == [y] + b <==> x == y && a == b
  {
    assert ([x] + a)[0] == x && ([x] + a)[1..] == a && ([y] + b)[0] == y && ([y] + b)[1..] == b;
  }

  lemma NoRecords(rest: seq<byte>)
    ensures Plain([]) && !Unreadable([]) && Flatten<byte>([]) == [] && GetRecords(rest, 0) == Got([], rest)
  {
  }

  /** What a response packet says: one PTR answer naming the peer, one TXT additional per value. */
  function Meaning(id: u16, service: Name, peer: Name, ttl: u32, values: seq<seq<byte>>): DnsMessage {
    DnsMessage(id, 0x8400, [], [Record(service, PTR, 1, ttl, Ptr(peer))], [], Parsed(peer, ttl, values))
  }

  /** A response packet parses as its header, its answer, and whatever its records are. */
  lemma PacketRead(id: u16, service: seq<byte>, peer: Name, ttl: u32, values: seq<seq<byte>>)
    requires Encodable(service) && Labels(peer) && |NameBytes(peer)| < 0x1_0000 && Short(values) && |values| < 0x1_0000
    ensures var records := TxtRecords(NameBytes(peer), ttl, values);
            var r := GetRecords(Flatten(records), |values|);
            GetMessage(ResponsePacket(id, NameBytes(peer), records, ttl, service))
            == if r.Bad? then Bad else Got(Meaning(id, SplitDots(service), peer, ttl, []).(additionals := r.value), r.rest)
  {
    hide NameBytes, Header, PtrRecord, TxtRecords, Flatten, GetRecord, GetRecords, GetMessage, GetSections, SplitDots, ResponsePacket;
    var tail := Flatten(TxtRecords(NameBytes(peer), ttl, values));
    var ptr, meant := PtrRecord(Qname(service), 1, ttl, NameBytes(peer)), Record(SplitDots(service), PTR, 1, ttl, Ptr(peer));
    PacketShape(id, NameBytes(peer), TxtRecords(NameBytes(peer), ttl, values), ttl, service);
    HeaderBack(id, 0x8400, 0, 1, 0, |values|, ptr + tail);
    PtrRecordBack(SplitDots(service), 1, ttl, peer, tail);
    NoRecords(tail);
    GetRecordsStep(ptr + tail, 1, meant, tail, [], tail);
    assert [meant] + [] == [meant];
    SectionsOfOne(id, 0x8400, ptr + tail, [meant], tail, |values|);
  }

  lemma PacketShape(id: u16, peerName: seq<byte>, records: seq<seq<byte>>, ttl: u32, service: seq<byte>)
    requires Encodable(service) && |records| < 0x1_0000
    ensures ResponsePacket(id, peerName, records, ttl, service)
         == Header(id, 0x8400, 0, 1, 0, |records|) + (PtrRecord(Qname(service), 1, ttl, peerName) + Flatten(records))
  {
    hide Header, PtrRecord, Flatten, Qname, Encodable;
    var count := |records|;
    assert count % 0x1_0000 == count;
  }

  lemma SectionsOfOne(id: u16, flags: u16, s: seq<byte>, answers: seq<Record>, tail: seq<byte>, n: u16)
    requires GetRecords(s, 1) == Got(answers, tail)
    ensures var r := GetRecords(tail, n);
            GetSections(id, flags, 0, 1, 0, n, s)
            == if r.Bad? then Bad else Got(DnsMessage(id, flags, [], answers, [], r.value), r.rest)
  {
    hide GetRecord;
    assert GetRecords(tail, 0) == Got([], tail);
  }

  /**
   Every byte of a response packet is part of that meaning, if and only if no value has a space; and
   the whole packet is lost if and only if some value's data is broken.
   */
  lemma PacketBack(id: u16, service: seq<byte>, peer: Name, ttl: u32, values: seq<seq<byte>>)
    requires Encodable(service) && Labels(peer) && |NameBytes(peer)| < 0x1_0000 && Short(values) && |values| < 0x1_0000
    ensures var read := GetMessage(ResponsePacket(id, NameBytes(peer), TxtRecords(NameBytes(peer), ttl, values), ttl, service));
            && (read == Got(Meaning(id, SplitDots(service), peer, ttl, values), []) <==> Plain(values))
            && (read.Bad? <==> Unreadable(values))
            && (read.Got? ==> read.rest == [])
  {
    hide NameBytes, ResponsePacket, TxtRecords, Flatten, GetRecords, GetMessage, Parsed, SplitDots, Plain, Unreadable;
    PacketRead(id, service, peer, ttl, values);
    RecordsBack(peer, ttl, values, []);
    var tail := Flatten(TxtRecords(NameBytes(peer), ttl, values));
    assert tail + [] == tail;
  }

  /** A built query says just that it asks for the service's PTR records, in every byte. */
  lemma QueryBack(id: u16, service: seq<byte>)
    requires Encodable(service)
    ensures GetMessage(QueryPacket(id, service)) == Got(DnsMessage(id, 0, [Question(SplitDots(service), PTR, 1)], [], [], []), [])
  {
    hide NameBytes, Header, BigEndian, GetU16, GetName, SplitDots, GetMessage;
    var q := Question(SplitDots(service), PTR, 1);
    var end := BigEndian(PTR, 2) + BigEndian(1, 2);
    HeaderBack(id, 0, 1, 0, 0, 0, Qname(service) + end);
    NameBack(SplitDots(service), end);
    U16Back(PTR, BigEndian(1, 2));
    U16Back(1, []);
    assert BigEndian(1, 2) + [] == BigEndian(1, 2);
    assert GetQuestions([], 0) == Got([], []);
    assert [q] + [] == [q];
  }

  /** A node takes a query for its own service for a query, one for the meta service for a service discovery, and any other for unrelated. */
  lemma QueryIsRecognised(text: TextForm, id: u16, asked: seq<byte>, service: seq<byte>)
    requires Encodable(asked)
    ensures Received(text, QueryPacket(id, asked), service + [DOT])
         == if asked == service then Query(id)
            else if asked == META_QUERY_SERVICE then ServiceDiscovery(id)
            else Unrelated
  {
    hide GetMessage, QueryPacket, Encodable, SplitDots, Ascii, NameText;
    QueryBack(id, asked);
    SplitText(asked);
    SameEnd(asked, service);
    SameEnd(asked, META_QUERY_SERVICE);
    var q := Question(SplitDots(asked), PTR, 1);
    assert q in [q] && NameText(q.name) == asked + [DOT];
  }

  lemma SameEnd(a: seq<byte>, b: seq<byte>)
    ensures a + [DOT] == b + [DOT] <==> a == b
  {
    if a + [DOT] == b + [DOT] {
      assert (a + [DOT])[..|a|] == a && (b + [DOT])[..|b|] == b;
    }
  }

  // ---------------------------------------------------------------- the values announced

  /** The addresses whose records the encoder keeps. */
  function Kept(text: TextForm, peerId: PeerId, addrs: seq<Multiaddr>): seq<Multiaddr> {
    if addrs == [] then []
    else
      var a := addrs[|addrs| - 1];
      Kept(text, peerId, addrs[..|addrs| - 1])
      + (if TxtOutcome(TxtValue(text.display(a), text.base58(peerId))) == Written then [a] else [])
  }

  function Displays(text: TextForm, addrs: seq<Multiaddr>): seq<seq<byte>> {
    seq(|addrs|, i requires 0 <= i < |addrs| => text.display(addrs[i]))
  }

  function ValueOf(text: TextForm, peerId: PeerId, a: Multiaddr): seq<byte> {
    TxtValue(text.display(a), text.base58(peerId))
  }

  function ValuesOf(text: TextForm, peerId: PeerId, addrs: seq<Multiaddr>): seq<seq<byte>> {
    seq(|addrs|, i requires 0 <= i < |addrs| => ValueOf(text, peerId, addrs[i]))
  }

  /** The addresses' values can be written, and the second: without quoting. */
  predicate Writable(text: TextForm, peerId: PeerId, addrs: seq<Multiaddr>) {
    forall a :: a in addrs ==> TxtOutcome(ValueOf(text, peerId, a)) == Written
  }

  predicate Sendable(text: TextForm, peerId: PeerId, addrs: seq<Multiaddr>) {
    forall a :: a in addrs ==> TxtOutcome(ValueOf(text, peerId, a)) == Written && SPACE !in ValueOf(text, peerId, a)
  }

  lemma WritableIsShort(text: TextForm, peerId: PeerId, addrs: seq<Multiaddr>)
    requires Writable(text, peerId, addrs)
    ensures Short(ValuesOf(text, peerId, addrs))
  {
    hide ValueOf, IsAscii;
    var values := ValuesOf(text, peerId, addrs);
    forall v | v in values ensures |v| <= MAX_TXT_VALUE_LENGTH {
      var i :| 0 <= i < |values| && v == values[i];
      assert addrs[i] in addrs;
    }
  }

  lemma SendableIsPlain(text: TextForm, peerId: PeerId, addrs: seq<Multiaddr>)
    requires Sendable(text, peerId, addrs)
    ensures Plain(ValuesOf(text, peerId, addrs))
  {
    hide ValueOf, IsAscii;
    var values := ValuesOf(text, peerId, addrs);
    forall v | v in values ensures |v| <= MAX_TXT_VALUE_LENGTH && SPACE !in v {
      var i :| 0 <= i < |values| && v == values[i];
      assert addrs[i] in addrs;
    }
  }

  /** The encoder's records are those of the kept addresses' values, in order. */
  lemma {:induction false} RecordsAreKept(text: TextForm, peerName: seq<byte>, ttl: u32, peerId: PeerId, addrs: seq<Multiaddr>)
    ensures var kept := Kept(text, peerId, addrs);
            && Writable(text, peerId, kept) && Short(ValuesOf(text, peerId, kept))
            && Records(peerName, ttl, text.base58(peerId), Displays(text, addrs))
               == TxtRecords(peerName, ttl, ValuesOf(text, peerId, kept))
  {
    hide TxtRecord, TxtValue, IsAscii, Records, Writable, Short;
    if addrs == [] {
      assert Displays(text, addrs) == [];
      RecordsOfNone(peerName, ttl, text.base58(peerId));
      NothingIsWritable(text, peerId);
    } else {
      var n := |addrs| - 1;
      var a := addrs[n];
      RecordsAreKept(text, peerName, ttl, peerId, addrs[..n]);
      assert Displays(text, addrs) == Displays(text, addrs[..n]) + [text.display(a)];
      RecordsSnoc(peerName, ttl, text.base58(peerId), Displays(text, addrs[..n]), text.display(a));
      if TxtOutcome(ValueOf(text, peerId, a)) == Written {
        KeptSnoc(text, peerName, ttl, peerId, Kept(text, peerId, addrs[..n]), a);
      } else {
        assert Kept(text, peerId, addrs) == Kept(text, peerId, addrs[..n]);
      }
    }
  }

  lemma NothingIsWritable(text: TextForm, peerId: PeerId)
    ensures Writable(text, peerId, []) && Short(ValuesOf(text, peerId, []))
  {
  }

  lemma KeptSnoc(text: TextForm, peerName: seq<byte>, ttl: u32, peerId: PeerId, kept: seq<Multiaddr>, a: Multiaddr)
    requires Writable(text, peerId, kept) && TxtOutcome(ValueOf(text, peerId, a)) == Written
    ensures Writable(text, peerId, kept + [a])
    ensures Short(ValuesOf(text, peerId, kept)) && Short(ValuesOf(text, peerId, kept + [a]))
    ensures TxtRecords(peerName, ttl, ValuesOf(text, peerId, kept + [a]))
            == TxtRecords(peerName, ttl, ValuesOf(text, peerId, kept)) + [TxtRecord(peerName, ttl, ValueOf(text, peerId, a))]
  {
    hide TxtRecord, ValueOf, IsAscii;
    WritableIsShort(text, peerId, kept);
    WritableIsShort(text, peerId, kept + [a]);
    assert ValuesOf(text, peerId, kept + [a]) == ValuesOf(text, peerId, kept) + [ValueOf(text, peerId, a)];
  }

  lemma {:induction false} KeptAreTaken(text: TextForm, peerId: PeerId, addrs: seq<Multiaddr>)
    ensures forall a :: a in Kept(text, peerId, addrs) ==> a in addrs
  {
    hide ValueOf;
    if addrs != [] {
      KeptAreTaken(text, peerId, addrs[..|addrs| - 1]);
    }
  }

  // ---------------------------------------------------------------- the consumer gets the peer back

  /** An announced address is read back with the peer's id. */
  lemma ValueAnnounces(text: TextForm, peerId: PeerId, a: Multiaddr)
    requires text.Faithful() && TxtOutcome(ValueOf(text, peerId, a)) == Written
    ensures Announced(text, ValueOf(text, peerId, a)) == Some(a + [P2p(peerId)])
  {
    var v := ValueOf(text, peerId, a);
    var body := text.display(a) + (Ascii("/p2p/") + text.base58(peerId));
    assert v == DNSADDR + body;
    assert v[0] == DNSADDR[0] == 0x64;
    assert v[|DNSADDR|..] == body;
    assert forall i :: 0 <= i < |body| ==> body[i] == v[|DNSADDR| + i];
    AsciiIsValid(body);
  }

  lemma {:induction false} TakesAll(text: TextForm, peerId: PeerId, addrs: seq<Multiaddr>, name: Name, ttl: u32)
    requires text.Faithful() && Sendable(text, peerId, addrs)
    ensures TakeRecords(text, Parsed(name, ttl, ValuesOf(text, peerId, addrs)), name)
            == Found(if addrs == [] then None else Some(peerId), addrs)
  {
    hide TextForm.Faithful, Announced, ValueOf, TxtOutcome;
    if addrs != [] {
      var n := |addrs| - 1;
      var a := addrs[n];
      assert a in addrs;
      TakesAll(text, peerId, addrs[..n], name, ttl);
      ValueAnnounces(text, peerId, a);
      var rs := Parsed(name, ttl, ValuesOf(text, peerId, addrs));
      assert rs[..n] == Parsed(name, ttl, ValuesOf(text, peerId, addrs[..n]));
      assert rs[n] == Record(name, TXT, 0x8001, ttl, Txt([ValueOf(text, peerId, a)]));
      var f := Found(if n == 0 then None else Some(peerId), addrs[..n]);
      OneString(text, f, ValueOf(text, peerId, a));
      assert addrs == addrs[..n] + [a];
      assert (a + [P2p(peerId)])[..|a|] == a;
    }
  }

  lemma OneString(text: TextForm, f: Found, s: seq<byte>)
    ensures TakeStrings(text, f, [s]) == TakeString(text, f, s)
  {
    hide TakeString;
    assert [s][..0] == [];
  }

  lemma {:induction false} SplitText(s: seq<byte>)
    ensures NameText(SplitDots(s)) == s + [DOT]
  {
    if s != [] {
      SplitText(s[1..]);
      var rest := SplitDots(s[1..]);
      var labels := SplitDots(s);
      if s[0] == DOT {
        assert labels[0] == [] && labels[1..] == rest;
        assert NameText(labels) == [] + [DOT] + NameText(rest);
      } else {
        assert labels[0] == [s[0]] + rest[0] && labels[1..] == rest[1..];
        assert NameText(labels) == [s[0]] + rest[0] + [DOT] + NameText(rest[1..]);
        assert NameText(labels) == [s[0]] + NameText(rest);
      }
      assert s == [s[0]] + s[1..];
    }
  }

  /** A single packet of a response gives the consumer the local peer and the packet's addresses. */
  lemma PacketGivesPeer(text: TextForm, id: u16, service: seq<byte>, peer: Name, ttl: u32, peerId: PeerId, addrs: seq<Multiaddr>)
    requires text.Faithful() && Sendable(text, peerId, addrs) && |addrs| < 0x1_0000
    requires Encodable(service) && Labels(peer) && |NameBytes(peer)| < 0x1_0000 && Plain(ValuesOf(text, peerId, addrs))
    ensures var packet := ResponsePacket(id, NameBytes(peer), TxtRecords(NameBytes(peer), ttl, ValuesOf(text, peerId, addrs)), ttl, service);
            && GetMessage(packet).Got? && GetMessage(packet).rest == []
            && Received(text, packet, service + [DOT]) == Response(if addrs == [] then [] else [Peer(addrs, peerId, ttl)])
  {
    hide GetMessage, ResponsePacket, NameBytes, TxtRecords, TextForm.Faithful, Sendable, Plain, Encodable, SplitDots, ValuesOf,
      TakeRecords;
    var values := ValuesOf(text, peerId, addrs);
    ValuesCount(text, peerId, addrs);
    PlainIsShort(values);
    PacketBack(id, service, peer, ttl, values);
    TakesAll(text, peerId, addrs, peer, ttl);
    SplitText(service);
    var m := Meaning(id, SplitDots(service), peer, ttl, values);
    OneAnswer(text, m, service + [DOT]);
  }

  lemma PlainIsShort(values: seq<seq<byte>>)
    requires Plain(values)
    ensures Short(values)
  {
  }

  lemma ValuesCount(text: TextForm, peerId: PeerId, addrs: seq<Multiaddr>)
    ensures |ValuesOf(text, peerId, addrs)| == |addrs|
  {
  }

  lemma OneAnswer(text: TextForm, m: DnsMessage, fqdn: seq<byte>)
    requires |m.answers| == 1 && NameText(m.answers[0].name) == fqdn && m.answers[0].data.Ptr?
    ensures var r := m.answers[0];
            var peer := PeerFrom(text, m.additionals, r.data.target, r.ttl);
            Peers(text, m, m.answers, fqdn) == if peer.Some? then [peer.value] else []
  {
    hide PeerFrom;
    assert m.answers[1..] == [];
  }

  // ---------------------------------------------------------------- batching

  /** The first `n` batches. */
  function Batches<T>(rs: seq<T>, n: nat): (bs: seq<seq<T>>)
    requires n <= BatchCount(|rs|)
    ensures |bs| == n && forall i :: 0 <= i < n ==> bs[i] == Batch(rs, i)
  {
    seq(n, i requires 0 <= i < n => Batch(rs, i))
  }

  lemma {:induction false} BatchesConcatenate<T>(rs: seq<T>, n: nat) returns (joined: seq<T>)
    requires n <= BatchCount(|rs|)
    ensures joined == Flatten(Batches(rs, n))
    ensures joined == rs[..Min(MAX_RECORDS_PER_PACKET * n, |rs|)]
  {
    if n == 0 {
      joined := [];
    } else {
      var before := BatchesConcatenate(rs, n - 1);
      assert Batches(rs, n)[..n - 1] == Batches(rs, n - 1);
      joined := before + Batch(rs, n - 1);
    }
  }

  /**
   Batching loses nothing: the batches in order are the records, all but the last hold exactly
   29, and there are max(1, ceil(k / 29)) of them.
   */
  lemma BatchingConserves<T>(rs: seq<T>)
    ensures var n := BatchCount(|rs|);
            && (|rs| > 0 ==> MAX_RECORDS_PER_PACKET * (n - 1) < |rs| <= MAX_RECORDS_PER_PACKET * n)
            && (|rs| == 0 ==> n == 1)
            && (forall i :: 0 <= i < n - 1 ==> |Batch(rs, i)| == MAX_RECORDS_PER_PACKET)
            && |Batch(rs, n - 1)| <= MAX_RECORDS_PER_PACKET
            && Flatten(Batches(rs, n)) == rs
  {
    var joined := BatchesConcatenate(rs, BatchCount(|rs|));
  }

  lemma BatchSizeIsDerived()
    ensures MAX_RECORDS_PER_PACKET == (MAX_PACKET_SIZE - 100) / MAX_TXT_RECORD_SIZE
  {
  }

  // ---------------------------------------------------------------- the wire round trip

  /** The peer name as the encoder draws it: one label of 32 to 63 bytes. */
  predicate PeerLabel(drawn: seq<byte>) {
    32 <= |drawn| < 64 && DOT !in drawn
  }

  lemma {:induction false} NoDotsOneLabel(s: seq<byte>)
    requires DOT !in s
    ensures SplitDots(s) == [s]
  {
    if s != [] {
      assert forall b :: b in s[1..] ==> b in s;
      NoDotsOneLabel(s[1..]);
      assert s == [s[0]] + s[1..];
    }
  }

  /** The packets sent for a peer's addresses. */
  function Announcement(text: TextForm, id: u16, peerLabel: seq<byte>, peerId: PeerId, addrs: seq<Multiaddr>, ttl: u32,
                        service: seq<byte>): seq<seq<byte>>
    requires Encodable(service) && Encodable(peerLabel)
  {
    var shown := Displays(text, addrs);
    var taken := shown[..Min(|shown|, 65535)];
    QueryResponse(id, Qname(peerLabel), Records(Qname(peerLabel), ttl, text.base58(peerId), taken), ttl, service)
  }

  lemma TxtRecordsBatch(peerName: seq<byte>, ttl: u32, values: seq<seq<byte>>, i: nat)
    requires Short(values) && i < BatchCount(|values|)
    ensures Short(Batch(values, i)) && (Plain(values) ==> Plain(Batch(values, i)))
    ensures TxtRecords(peerName, ttl, Batch(values, i)) == Batch(TxtRecords(peerName, ttl, values), i)
  {
    hide TxtRecord;
    assert forall v :: v in Batch(values, i) ==> v in values;
  }

  /** Packet i of an announcement is the response packet of the i-th batch of kept values. */
  lemma AnnouncementPacket(text: TextForm, id: u16, peerLabel: seq<byte>, peerId: PeerId, addrs: seq<Multiaddr>, ttl: u32,
                           service: seq<byte>, i: nat)
    requires Encodable(service) && Encodable(peerLabel)
    requires i < BatchCount(|Kept(text, peerId, addrs[..Min(|addrs|, 65535)])|)
    ensures var ps := Announcement(text, id, peerLabel, peerId, addrs, ttl, service);
            var values := ValuesOf(text, peerId, Kept(text, peerId, addrs[..Min(|addrs|, 65535)]));
            && |ps| == BatchCount(|values|) && i < |ps| && Short(values) && Short(Batch(values, i))
            && ps[i] == ResponsePacket(id, Qname(peerLabel), TxtRecords(Qname(peerLabel), ttl, Batch(values, i)), ttl, service)
  {
    hide ResponsePacket, TxtRecords, Writable, Short, ValuesOf, Kept, Records, Displays, ValueOf, Encodable, Qname;
    var taken := addrs[..Min(|addrs|, 65535)];
    DisplaysPrefix(text, addrs, Min(|addrs|, 65535));
    var kept, peerName := Kept(text, peerId, taken), Qname(peerLabel);
    RecordsAreKept(text, peerName, ttl, peerId, taken);
    ValuesCount(text, peerId, kept);
    TxtRecordsBatch(peerName, ttl, ValuesOf(text, peerId, kept), i);
  }

  lemma AnnouncementCount(text: TextForm, id: u16, peerLabel: seq<byte>, peerId: PeerId, addrs: seq<Multiaddr>, ttl: u32,
                          service: seq<byte>)
    requires Encodable(service) && Encodable(peerLabel)
    ensures |Announcement(text, id, peerLabel, peerId, addrs, ttl, service)|
            == BatchCount(|Kept(text, peerId, addrs[..Min(|addrs|, 65535)])|)
  {
    hide Announcement, Encodable, Kept, ValuesOf, Short, ResponsePacket;
    ValuesCount(text, peerId, Kept(text, peerId, addrs[..Min(|addrs|, 65535)]));
    AnnouncementPacket(text, id, peerLabel, peerId, addrs, ttl, service, 0);
  }

  /** What the socket hands over of a datagram: as much of it as the receive buffer holds. */
  function InBuffer(datagram: seq<byte>): seq<byte> {
    datagram[..Min(|datagram|, RECV_BUFFER)]
  }

  /**
   The wire round trip: every packet announced for a peer parses under RFC 1035 with no byte left
   over, and the consumer gets from packet i the local peer id with the i-th batch of the
   encodable addresses (no peer at all when there are none). Through the receive buffer it gets
   the same if and only if the packet fits in it, and otherwise takes it for malformed.
   */
  lemma AnnouncementGivesPeer(text: TextForm, id: u16, peerLabel: seq<byte>, peerId: PeerId, addrs: seq<Multiaddr>, ttl: u32,
                              service: seq<byte>, i: nat)
    requires text.Faithful() && Encodable(service) && Encodable(peerLabel) && PeerLabel(peerLabel)
    requires i < BatchCount(|Kept(text, peerId, addrs[..Min(|addrs|, 65535)])|)
    requires Spaceless(text, peerId, Batch(Kept(text, peerId, addrs[..Min(|addrs|, 65535)]), i))
    ensures i < |Announcement(text, id, peerLabel, peerId, addrs, ttl, service)|
    ensures var packet := Announcement(text, id, peerLabel, peerId, addrs, ttl, service)[i];
            var kept := Kept(text, peerId, addrs[..Min(|addrs|, 65535)]);
            && GetMessage(packet).Got? && GetMessage(packet).rest == []
            && Received(text, packet, service + [DOT])
               == Response(if Batch(kept, i) == [] then [] else [Peer(Batch(kept, i), peerId, ttl)])
            && Received(text, InBuffer(packet), service + [DOT])
               == (if |packet| <= RECV_BUFFER then Received(text, packet, service + [DOT]) else Malformed)
  {
    hide GetMessage, ResponsePacket, TxtRecords, TextForm.Faithful, Sendable, Plain, Short, Received, ValuesOf, Kept, Announcement,
      ValueOf, NameBytes, Batch;
    var taken := addrs[..Min(|addrs|, 65535)];
    var kept, peerName := Kept(text, peerId, taken), Qname(peerLabel);
    AnnouncementCount(text, id, peerLabel, peerId, addrs, ttl, service);
    AnnouncementPacket(text, id, peerLabel, peerId, addrs, ttl, service, i);
    BatchIsSendable(text, peerId, taken, i);
    ValuesCount(text, peerId, kept);
    BatchIsFew(kept, i);
    NoDotsOneLabel(peerLabel);
    PeerNameSize(peerLabel);
    PacketGivesPeer(text, id, service, SplitDots(peerLabel), ttl, peerId, Batch(kept, i));
    Buffered(text, Announcement(text, id, peerLabel, peerId, addrs, ttl, service)[i], service + [DOT]);
  }

  /** The values of these addresses have no space. */
  predicate Spaceless(text: TextForm, peerId: PeerId, addrs: seq<Multiaddr>) {
    forall a :: a in addrs ==> SPACE !in ValueOf(text, peerId, a)
  }

  lemma BatchIsSendable(text: TextForm, peerId: PeerId, addrs: seq<Multiaddr>, i: nat)
    requires i < BatchCount(|Kept(text, peerId, addrs)|)
    ensures var kept := Kept(text, peerId, addrs);
            && i < BatchCount(|ValuesOf(text, peerId, kept)|)
            && ValuesOf(text, peerId, Batch(kept, i)) == Batch(ValuesOf(text, peerId, kept), i)
            && Writable(text, peerId, Batch(kept, i)) && Short(ValuesOf(text, peerId, Batch(kept, i)))
            && (Spaceless(text, peerId, Batch(kept, i)) ==>
                  Sendable(text, peerId, Batch(kept, i)) && Plain(ValuesOf(text, peerId, Batch(kept, i))))
  {
    hide ValueOf, TxtOutcome, TxtRecords, Records, Kept;
    var kept := Kept(text, peerId, addrs);
    RecordsAreKept(text, [], 0, peerId, addrs);
    ValuesCount(text, peerId, kept);
    var batch := Batch(kept, i);
    assert ValuesOf(text, peerId, batch) == Batch(ValuesOf(text, peerId, kept), i);
    assert forall a :: a in batch ==> a in kept;
    WritableIsShort(text, peerId, batch);
    if Spaceless(text, peerId, batch) {
      SendableIsPlain(text, peerId, batch);
    }
  }

  /** A packet is taken for malformed, with all its addresses, if and only if some value in it has broken data. */
  lemma AnnouncementLosesBatchIff(text: TextForm, id: u16, peerLabel: seq<byte>, peerId: PeerId, addrs: seq<Multiaddr>, ttl: u32,
                                  service: seq<byte>, i: nat)
    requires Encodable(service) && Encodable(peerLabel) && PeerLabel(peerLabel)
    requires i < BatchCount(|Kept(text, peerId, addrs[..Min(|addrs|, 65535)])|)
    ensures var ps := Announcement(text, id, peerLabel, peerId, addrs, ttl, service);
            var batch := Batch(Kept(text, peerId, addrs[..Min(|addrs|, 65535)]), i);
            && i < |ps| && (Received(text, ps[i], service + [DOT]) == Malformed <==> Unreadable(ValuesOf(text, peerId, batch)))
  {
    hide GetMessage, ResponsePacket, TxtRecords, Plain, Short, ValuesOf, Kept, Announcement, ValueOf, NameBytes, Batch, Unreadable,
      Peers;
    var taken := addrs[..Min(|addrs|, 65535)];
    var kept := Kept(text, peerId, taken);
    AnnouncementCount(text, id, peerLabel, peerId, addrs, ttl, service);
    AnnouncementPacket(text, id, peerLabel, peerId, addrs, ttl, service, i);
    BatchIsSendable(text, peerId, taken, i);
    ValuesCount(text, peerId, Batch(kept, i));
    BatchIsFew(kept, i);
    NoDotsOneLabel(peerLabel);
    PeerNameSize(peerLabel);
    PacketBack(id, service, SplitDots(peerLabel), ttl, ValuesOf(text, peerId, Batch(kept, i)));
  }

  /** A value whose data is broken as soon as it has a space. */
  predicate Regular(v: seq<byte>) {
    QUOTE !in v && BACKSLASH !in v && (v != [] ==> v[|v| - 1] != 1)
  }

  /** So among values with nothing to escape, one space costs the packet all its addresses. */
  lemma OneSpaceLosesBatch(text: TextForm, id: u16, peerLabel: seq<byte>, peerId: PeerId, addrs: seq<Multiaddr>, ttl: u32,
                           service: seq<byte>, i: nat)
    requires Encodable(service) && Encodable(peerLabel) && PeerLabel(peerLabel)
    requires i < BatchCount(|Kept(text, peerId, addrs[..Min(|addrs|, 65535)])|)
    requires var batch := Batch(Kept(text, peerId, addrs[..Min(|addrs|, 65535)]), i);
             !Spaceless(text, peerId, batch) && forall a :: a in batch ==> Regular(ValueOf(text, peerId, a))
    ensures var ps := Announcement(text, id, peerLabel, peerId, addrs, ttl, service);
            i < |ps| && Received(text, ps[i], service + [DOT]) == Malformed
  {
    hide Kept, Announcement, ValueOf, Batch, TxtData, Strings, Received, Short, Writable;
    var batch := Batch(Kept(text, peerId, addrs[..Min(|addrs|, 65535)]), i);
    AnnouncementLosesBatchIff(text, id, peerLabel, peerId, addrs, ttl, service, i);
    BatchIsSendable(text, peerId, addrs[..Min(|addrs|, 65535)], i);
    var a :| a in batch && SPACE in ValueOf(text, peerId, a);
    ValueIsThere(text, peerId, batch, a);
    SpacedDataIsBroken(ValueOf(text, peerId, a));
  }

  /** A text form in which an address is one path, and every peer is Q. */
  function PathForm(): TextForm {
    TextForm((a: Multiaddr) => if |a| == 1 && a[0].Transport? then a[0].spec else [], s => None, p => [0x51])
  }

  predicate PathText(path: seq<byte>) {
    |path| <= 200 && IsAscii(path) && QUOTE !in path && BACKSLASH !in path
  }

  /** The fixed parts of a value. */
  lemma Marks()
    ensures |Ascii("dnsaddr=")| == 8 && |Ascii("/p2p/")| == 5
    ensures forall b :: b in Ascii("dnsaddr=") || b in Ascii("/p2p/") ==> b < 0x80 && b != SPACE && b != QUOTE && b != BACKSLASH
  {
  }

  lemma AsciiBytes(s: seq<byte>)
    ensures IsAscii(s) <==> forall b :: b in s ==> b < 0x80
  {
    assert forall i :: 0 <= i < |s| ==> s[i] in s;
  }

  lemma PathValue(path: seq<byte>)
    requires PathText(path)
    ensures var v := ValueOf(PathForm(), [], [Transport(path)]);
            TxtOutcome(v) == Written && Regular(v) && (SPACE in v <==> SPACE in path)
  {
    hide Ascii, IsAscii;
    Marks();
    AsciiBytes(path);
    var v := ValueOf(PathForm(), [], [Transport(path)]);
    AsciiBytes(v);
    assert v == Ascii("dnsaddr=") + (path + (Ascii("/p2p/") + [0x51]));
    forall b: byte ensures b in v <==> b in Ascii("dnsaddr=") || b in path || b in Ascii("/p2p/") || b == 0x51 {}
    assert v[|v| - 1] == 0x51;
  }

  /** It takes one path with a space: a peer with two addresses, one of them such a path, is heard of at neither. */
  lemma OneSpacedPathLosesBoth(id: u16, peerLabel: seq<byte>, ttl: u32, service: seq<byte>, plain: seq<byte>, spaced: seq<byte>)
    requires Encodable(service) && Encodable(peerLabel) && PeerLabel(peerLabel)
    requires PathText(plain) && PathText(spaced) && SPACE in spaced
    ensures var ps := Announcement(PathForm(), id, peerLabel, [], [[Transport(plain)], [Transport(spaced)]], ttl, service);
            |ps| == 1 && Received(PathForm(), ps[0], service + [DOT]) == Malformed
  {
    hide Announcement, Encodable, PeerLabel, Received, Kept, Batch, ValueOf, TxtOutcome, Regular, PathText, PathForm;
    var addrs: seq<Multiaddr> := [[Transport(plain)], [Transport(spaced)]];
    PathValue(plain);
    PathValue(spaced);
    assert addrs[..Min(|addrs|, 65535)] == addrs;
    AllKept(PathForm(), [], addrs);
    FirstBatch(addrs);
    AnnouncementCount(PathForm(), id, peerLabel, [], addrs, ttl, service);
    assert addrs[1] in addrs;
    OneSpaceLosesBatch(PathForm(), id, peerLabel, [], addrs, ttl, service, 0);
  }

  lemma ValueIsThere(text: TextForm, peerId: PeerId, addrs: seq<Multiaddr>, a: Multiaddr)
    requires a in addrs && Short(ValuesOf(text, peerId, addrs))
    ensures ValueOf(text, peerId, a) in ValuesOf(text, peerId, addrs) && |ValueOf(text, peerId, a)| <= MAX_TXT_VALUE_LENGTH
  {
    hide ValueOf;
    var i :| 0 <= i < |addrs| && addrs[i] == a;
    assert ValuesOf(text, peerId, addrs)[i] == ValueOf(text, peerId, a);
  }

  lemma BatchIsFew<T>(rs: seq<T>, i: nat)
    requires i < BatchCount(|rs|)
    ensures |Batch(rs, i)| <= MAX_RECORDS_PER_PACKET && (rs != [] ==> Batch(rs, i) != [])
  {
  }

  /** A buffer that cuts a whole message leaves nothing to parse. */
  lemma Buffered(text: TextForm, packet: seq<byte>, fqdn: seq<byte>)
    requires GetMessage(packet).Got? && GetMessage(packet).rest == []
    ensures Received(text, InBuffer(packet), fqdn) == if |packet| <= RECV_BUFFER then Received(text, packet, fqdn) else Malformed
  {
    hide GetMessage, Peers;
    if |packet| <= RECV_BUFFER {
      assert InBuffer(packet) == packet;
    } else {
      NoPrefixParses(packet, RECV_BUFFER);
    }
  }

  lemma DisplaysPrefix(text: TextForm, addrs: seq<Multiaddr>, n: nat)
    requires n <= |addrs|
    ensures |Displays(text, addrs)| == |addrs| && Displays(text, addrs)[..n] == Displays(text, addrs[..n])
  {
  }

  /** The addresses a received packet yields. */
  function AddressesIn(p: Packet): seq<Multiaddr> {
    if p.Response? && |p.peers| == 1 then p.peers[0].addrs else []
  }

  function Yield(text: TextForm, ps: seq<seq<byte>>, fqdn: seq<byte>): (got: seq<seq<Multiaddr>>)
    ensures |got| == |ps| && forall i :: 0 <= i < |ps| ==> got[i] == AddressesIn(Received(text, ps[i], fqdn))
  {
    seq(|ps|, i requires 0 <= i < |ps| => AddressesIn(Received(text, ps[i], fqdn)))
  }

  /** Over all packets of an announcement the consumer gets exactly the encodable addresses, in order. */
  lemma AnnouncementGivesAllAddresses(text: TextForm, id: u16, peerLabel: seq<byte>, peerId: PeerId, addrs: seq<Multiaddr>,
                                      ttl: u32, service: seq<byte>)
    requires text.Faithful() && Encodable(service) && Encodable(peerLabel) && PeerLabel(peerLabel)
    requires Spaceless(text, peerId, Kept(text, peerId, addrs[..Min(|addrs|, 65535)]))
    ensures var ps := Announcement(text, id, peerLabel, peerId, addrs, ttl, service);
            Flatten(Yield(text, ps, service + [DOT])) == Kept(text, peerId, addrs[..Min(|addrs|, 65535)])
  {
    hide TextForm.Faithful, Received, Kept, Encodable, PeerLabel, ValueOf, Announcement, GetMessage, Flatten, Batch;
    var ps := Announcement(text, id, peerLabel, peerId, addrs, ttl, service);
    var kept := Kept(text, peerId, addrs[..Min(|addrs|, 65535)]);
    AnnouncementCount(text, id, peerLabel, peerId, addrs, ttl, service);
    var got := Yield(text, ps, service + [DOT]);
    forall i | 0 <= i < |ps| ensures got[i] == Batch(kept, i) {
      BatchIsPart(kept, i);
      AnnouncementGivesPeer(text, id, peerLabel, peerId, addrs, ttl, service, i);
    }
    assert got == Batches(kept, BatchCount(|kept|));
    BatchingConserves(kept);
  }

  function InBuffers(ps: seq<seq<byte>>): (got: seq<seq<byte>>)
    ensures |got| == |ps| && forall i :: 0 <= i < |ps| ==> got[i] == InBuffer(ps[i])
  {
    seq(|ps|, i requires 0 <= i < |ps| => InBuffer(ps[i]))
  }

  lemma BatchIsPart<T>(rs: seq<T>, i: nat)
    requires i < BatchCount(|rs|)
    ensures forall r :: r in Batch(rs, i) ==> r in rs
  {
  }

  lemma InSomeBatch<T>(rs: seq<T>, r: T) returns (i: nat)
    requires r in rs
    ensures i < BatchCount(|rs|) && r in Batch(rs, i)
  {
    var k :| 0 <= k < |rs| && rs[k] == r;
    i := k / MAX_RECORDS_PER_PACKET;
    assert Batch(rs, i)[k - MAX_RECORDS_PER_PACKET * i] == r;
  }

  /**
   Through the receive buffer, and with nothing to escape in the values, the consumer gets all of
   them if and only if there are none, or no value has a space and every packet fits in the buffer.
   */
  lemma AllAddressesThroughBufferIff(text: TextForm, id: u16, peerLabel: seq<byte>, peerId: PeerId, addrs: seq<Multiaddr>,
                                     ttl: u32, service: seq<byte>)
    requires text.Faithful() && Encodable(service) && Encodable(peerLabel) && PeerLabel(peerLabel)
    requires forall a :: a in Kept(text, peerId, addrs[..Min(|addrs|, 65535)]) ==> Regular(ValueOf(text, peerId, a))
    ensures var ps := Announcement(text, id, peerLabel, peerId, addrs, ttl, service);
            var kept := Kept(text, peerId, addrs[..Min(|addrs|, 65535)]);
            Flatten(Yield(text, InBuffers(ps), service + [DOT])) == kept
            <==> kept == [] || (Spaceless(text, peerId, kept) && forall p :: p in ps ==> |p| <= RECV_BUFFER)
  {
    hide TextForm.Faithful, Received, Kept, Encodable, PeerLabel, ValueOf, Announcement, Flatten, Batch, InBuffer, Regular,
      Spaceless;
    var ps := Announcement(text, id, peerLabel, peerId, addrs, ttl, service);
    var kept := Kept(text, peerId, addrs[..Min(|addrs|, 65535)]);
    AnnouncementCount(text, id, peerLabel, peerId, addrs, ttl, service);
    var got, whole := Yield(text, InBuffers(ps), service + [DOT]), Batches(kept, BatchCount(|kept|));
    forall i | 0 <= i < |ps| ensures got[i] == if Arrives(text, peerId, kept, ps, i) then whole[i] else [] {
      PacketThroughBuffer(text, id, peerLabel, peerId, addrs, ttl, service, i);
    }
    BatchingConserves(kept);
    SpacelessIffBatches(text, peerId, kept);
    if forall i :: 0 <= i < |ps| ==> Arrives(text, peerId, kept, ps, i) {
      assert got == whole;
      forall p | p in ps ensures |p| <= RECV_BUFFER {
        var i :| 0 <= i < |ps| && ps[i] == p;
        assert Arrives(text, peerId, kept, ps, i);
      }
    } else {
      var i :| 0 <= i < |ps| && !Arrives(text, peerId, kept, ps, i);
      assert ps[i] in ps;
      BatchIsFew(kept, i);
      FlattenShorter(got, whole, i);
    }
  }

  /** Packet i can be read, and fits in the buffer. */
  predicate Arrives(text: TextForm, peerId: PeerId, kept: seq<Multiaddr>, ps: seq<seq<byte>>, i: nat)
    requires i < BatchCount(|kept|) && i < |ps|
  {
    Spaceless(text, peerId, Batch(kept, i)) && |ps[i]| <= RECV_BUFFER
  }

  lemma SpacelessIffBatches(text: TextForm, peerId: PeerId, kept: seq<Multiaddr>)
    ensures Spaceless(text, peerId, kept)
            <==> forall i :: 0 <= i < BatchCount(|kept|) ==> Spaceless(text, peerId, Batch(kept, i))
  {
    hide ValueOf, Batch;
    forall i | 0 <= i < BatchCount(|kept|) ensures forall a :: a in Batch(kept, i) ==> a in kept {
      BatchIsPart(kept, i);
    }
    if a :| a in kept && SPACE in ValueOf(text, peerId, a) {
      var i := InSomeBatch(kept, a);
      assert !Spaceless(text, peerId, Batch(kept, i));
    }
  }

  lemma PacketThroughBuffer(text: TextForm, id: u16, peerLabel: seq<byte>, peerId: PeerId, addrs: seq<Multiaddr>, ttl: u32,
                            service: seq<byte>, i: nat)
    requires text.Faithful() && Encodable(service) && Encodable(peerLabel) && PeerLabel(peerLabel)
    requires forall a :: a in Kept(text, peerId, addrs[..Min(|addrs|, 65535)]) ==> Regular(ValueOf(text, peerId, a))
    requires i < BatchCount(|Kept(text, peerId, addrs[..Min(|addrs|, 65535)])|)
    ensures var ps := Announcement(text, id, peerLabel, peerId, addrs, ttl, service);
            var kept := Kept(text, peerId, addrs[..Min(|addrs|, 65535)]);
            && i < |ps|
            && AddressesIn(Received(text, InBuffer(ps[i]), service + [DOT]))
               == if Arrives(text, peerId, kept, ps, i) then Batch(kept, i) else []
  {
    hide TextForm.Faithful, Received, Kept, Encodable, PeerLabel, ValueOf, Announcement, Batch, Regular, Spaceless, InBuffer,
      GetMessage;
    var kept := Kept(text, peerId, addrs[..Min(|addrs|, 65535)]);
    BatchIsPart(kept, i);
    if Spaceless(text, peerId, Batch(kept, i)) {
      AnnouncementGivesPeer(text, id, peerLabel, peerId, addrs, ttl, service, i);
    } else {
      OneSpaceLosesBatch(text, id, peerLabel, peerId, addrs, ttl, service, i);
      var ps := Announcement(text, id, peerLabel, peerId, addrs, ttl, service);
      StillMalformed(text, ps[i], service + [DOT]);
    }
  }

  /** Cutting a malformed packet does not mend it. */
  lemma StillMalformed(text: TextForm, packet: seq<byte>, fqdn: seq<byte>)
    requires Received(text, packet, fqdn) == Malformed
    ensures Received(text, InBuffer(packet), fqdn) == Malformed
  {
    hide GetMessage, Peers;
    var start := InBuffer(packet);
    assert start + packet[|start|..] == packet;
    if GetMessage(start).Got? {
      MessageExtends(start, packet[|start|..]);
    }
  }

  /** Shorter parts make a shorter whole. */
  lemma {:induction false} FlattenShorter<T>(a: seq<seq<T>>, b: seq<seq<T>>, i: nat)
    requires |a| == |b| && forall k :: 0 <= k < |a| ==> |a[k]| <= |b[k]|
    ensures |Flatten(a)| <= |Flatten(b)|
    ensures i < |a| && |a[i]| < |b[i]| ==> |Flatten(a)| < |Flatten(b)|
  {
    if a != [] {
      FlattenShorter(a[..|a| - 1], b[..|b| - 1], i);
    }
  }

  lemma PeerNameSize(drawn: seq<byte>)
    requires PeerLabel(drawn) && Encodable(drawn)
    ensures |Qname(drawn)| == |drawn| + 2
  {
    NoDotsOneLabel(drawn);
    assert NameBytes([drawn]) == [|drawn|] + drawn + NameBytes([]);
  }

  // ---------------------------------------------------------------- sizes

  /** The exact size of a record, and when it meets the size the encoder's constants assume. */
  lemma RecordSize(peerName: seq<byte>, ttl: u32, v: seq<byte>)
    requires |v| <= MAX_TXT_VALUE_LENGTH
    ensures |TxtRecord(peerName, ttl, v)| == |peerName| + |Characters(v)| + 11
    ensures |TxtRecord(peerName, ttl, v)| <= MAX_TXT_RECORD_SIZE <==> |peerName| + |Characters(v)| <= 289
  {
    hide Characters;
  }

  lemma {:induction false} FlattenBound(rs: seq<seq<byte>>, bound: nat)
    requires forall r :: r in rs ==> |r| <= bound
    ensures |Flatten(rs)| <= bound * |rs|
  {
    if rs != [] {
      var n := |rs| - 1;
      assert rs[n] in rs && forall r :: r in rs[..n] ==> r in rs;
      FlattenBound(rs[..n], bound);
      OneMoreTimes(bound, n);
    }
  }

  lemma OneMoreTimes(bound: nat, n: nat)
    ensures bound * (n + 1) == bound * n + bound
  {
  }

  lemma PacketSize(id: u16, peerName: seq<byte>, records: seq<seq<byte>>, ttl: u32, service: seq<byte>)
    requires Encodable(service)
    ensures |ResponsePacket(id, peerName, records, ttl, service)| == 22 + |Qname(service)| + |peerName| + |Flatten(records)|
  {
    hide Encodable, Qname, Flatten;
  }

  /** What the values of one packet take, in records of a peer of this name. */
  function Payload(peerName: seq<byte>, values: seq<seq<byte>>): nat {
    if values == [] then 0
    else Payload(peerName, values[..|values| - 1]) + |peerName| + |Characters(values[|values| - 1])| + 11
  }

  lemma {:induction false} PayloadIsSize(peerName: seq<byte>, ttl: u32, values: seq<seq<byte>>)
    requires Short(values)
    ensures |Flatten(TxtRecords(peerName, ttl, values))| == Payload(peerName, values)
  {
    hide TxtRecord, Characters;
    var rs := TxtRecords(peerName, ttl, values);
    if values != [] {
      var n := |values| - 1;
      assert forall v :: v in values[..n] ==> v in values;
      assert values[n] in values;
      PayloadIsSize(peerName, ttl, values[..n]);
      assert rs[..n] == TxtRecords(peerName, ttl, values[..n]);
      RecordSize(peerName, ttl, values[n]);
    }
  }

  /** All packets fit the datagram if and only if every batch of records, with the two names, leaves room for the fixed 22 bytes. */
  lemma PacketsFitIff(id: u16, peerName: seq<byte>, records: seq<seq<byte>>, ttl: u32, service: seq<byte>)
    requires Encodable(service)
    ensures (forall p :: p in QueryResponse(id, peerName, records, ttl, service) ==> |p| <= MAX_PACKET_SIZE)
            <==> forall i :: 0 <= i < BatchCount(|records|) ==>
                   |peerName| + |Qname(service)| + |Flatten(Batch(records, i))| <= MAX_PACKET_SIZE - 22
  {
    hide Encodable, Qname, ResponsePacket, Flatten, Batch;
    var ps := QueryResponse(id, peerName, records, ttl, service);
    forall i | 0 <= i < |ps|
      ensures |ps[i]| == 22 + |Qname(service)| + |peerName| + |Flatten(Batch(records, i))| && ps[i] in ps
    {
      PacketSize(id, peerName, Batch(records, i), ttl, service);
    }
    forall p | p in ps ensures exists i :: 0 <= i < |ps| && p == ps[i] {}
    if forall i :: 0 <= i < |ps| ==> |peerName| + |Qname(service)| + |Flatten(Batch(records, i))| <= MAX_PACKET_SIZE - 22 {
    } else {
      var i :| 0 <= i < |ps| && |peerName| + |Qname(service)| + |Flatten(Batch(records, i))| > MAX_PACKET_SIZE - 22;
      assert |ps[i]| > MAX_PACKET_SIZE;
    }
  }

  /** The same for an announcement, from the values of the encodable addresses. */
  lemma AnnouncementFitsIff(text: TextForm, id: u16, peerLabel: seq<byte>, peerId: PeerId, addrs: seq<Multiaddr>, ttl: u32,
                            service: seq<byte>)
    requires Encodable(service) && Encodable(peerLabel)
    ensures var values := ValuesOf(text, peerId, Kept(text, peerId, addrs[..Min(|addrs|, 65535)]));
            (forall p :: p in Announcement(text, id, peerLabel, peerId, addrs, ttl, service) ==> |p| <= MAX_PACKET_SIZE)
            <==> forall i :: 0 <= i < BatchCount(|values|) ==>
                   |Qname(peerLabel)| + |Qname(service)| + Payload(Qname(peerLabel), Batch(values, i)) <= MAX_PACKET_SIZE - 22
  {
    hide Encodable, Qname, ResponsePacket, Flatten, Batch, Announcement, Payload, Kept, ValuesOf, Short;
    var ps, kept := Announcement(text, id, peerLabel, peerId, addrs, ttl, service), Kept(text, peerId, addrs[..Min(|addrs|, 65535)]);
    var values := ValuesOf(text, peerId, kept);
    var sizes := |Qname(peerLabel)| + |Qname(service)| + 22;
    ValuesCount(text, peerId, kept);
    AnnouncementCount(text, id, peerLabel, peerId, addrs, ttl, service);
    forall i | 0 <= i < |ps| ensures |ps[i]| == sizes + Payload(Qname(peerLabel), Batch(values, i)) && ps[i] in ps {
      AnnouncementPacketSize(text, id, peerLabel, peerId, addrs, ttl, service, i);
    }
    forall p | p in ps ensures exists i :: 0 <= i < |ps| && p == ps[i] {}
    if i :| 0 <= i < |ps| && sizes + Payload(Qname(peerLabel), Batch(values, i)) > MAX_PACKET_SIZE {
      assert |ps[i]| > MAX_PACKET_SIZE;
    }
  }

  lemma AnnouncementPacketSize(text: TextForm, id: u16, peerLabel: seq<byte>, peerId: PeerId, addrs: seq<Multiaddr>, ttl: u32,
                               service: seq<byte>, i: nat)
    requires Encodable(service) && Encodable(peerLabel)
    requires i < BatchCount(|Kept(text, peerId, addrs[..Min(|addrs|, 65535)])|)
    ensures var ps := Announcement(text, id, peerLabel, peerId, addrs, ttl, service);
            var values := ValuesOf(text, peerId, Kept(text, peerId, addrs[..Min(|addrs|, 65535)]));
            && |values| == |Kept(text, peerId, addrs[..Min(|addrs|, 65535)])| && i < |ps|
            && |ps[i]| == 22 + |Qname(service)| + |Qname(peerLabel)| + Payload(Qname(peerLabel), Batch(values, i))
  {
    hide Encodable, Qname, ResponsePacket, Flatten, Batch, Announcement, Payload, Kept, ValuesOf, Short, TxtRecords;
    var kept := Kept(text, peerId, addrs[..Min(|addrs|, 65535)]);
    ValuesCount(text, peerId, kept);
    var batch := Batch(ValuesOf(text, peerId, kept), i);
    AnnouncementPacket(text, id, peerLabel, peerId, addrs, ttl, service, i);
    PayloadIsSize(Qname(peerLabel), ttl, batch);
    PacketSize(id, Qname(peerLabel), TxtRecords(Qname(peerLabel), ttl, batch), ttl, service);
  }

  /** So they fit when records stay within the documented maximum and the two names within 210 bytes. */
  lemma PacketsFit(id: u16, peerName: seq<byte>, records: seq<seq<byte>>, ttl: u32, service: seq<byte>)
    requires Encodable(service)
    requires forall r :: r in records ==> |r| <= MAX_TXT_RECORD_SIZE
    requires |peerName| + |Qname(service)| <= 210
    ensures forall p :: p in QueryResponse(id, peerName, records, ttl, service) ==> |p| <= MAX_PACKET_SIZE
  {
    hide Encodable, Qname, QueryResponse, Flatten, Batch;
    forall i | 0 <= i < BatchCount(|records|)
      ensures |peerName| + |Qname(service)| + |Flatten(Batch(records, i))| <= MAX_PACKET_SIZE - 22
    {
      SmallBatch(records, i);
    }
    PacketsFitIff(id, peerName, records, ttl, service);
  }

  lemma SmallBatch(records: seq<seq<byte>>, i: nat)
    requires i < BatchCount(|records|) && forall r :: r in records ==> |r| <= MAX_TXT_RECORD_SIZE
    ensures |Flatten(Batch(records, i))| <= MAX_TXT_RECORD_SIZE * MAX_RECORDS_PER_PACKET
  {
    hide Flatten;
    var batch := Batch(records, i);
    assert forall r :: r in batch ==> r in records;
    FlattenBound(batch, MAX_TXT_RECORD_SIZE);
    BatchIsFew(records, i);
  }

  /** And those limits can be checked before: room for each value in a record, and for the names in an answer. */
  lemma AnnouncementFits(text: TextForm, id: u16, peerLabel: seq<byte>, peerId: PeerId, addrs: seq<Multiaddr>, ttl: u32,
                         service: seq<byte>)
    requires Encodable(service) && Encodable(peerLabel)
    requires forall a :: a in addrs ==> |Qname(peerLabel)| + |Characters(ValueOf(text, peerId, a))| <= 289
    requires |Qname(peerLabel)| + |Qname(service)| <= 210
    ensures forall p :: p in Announcement(text, id, peerLabel, peerId, addrs, ttl, service) ==> |p| <= MAX_PACKET_SIZE
  {
    hide Encodable, Qname, ValueOf, TxtRecord, QueryResponse, Records, Writable, Short, Displays, Characters;
    var taken := addrs[..Min(|addrs|, 65535)];
    assert forall a :: a in taken ==> a in addrs;
    DisplaysPrefix(text, addrs, |taken|);
    RecordsAreKept(text, Qname(peerLabel), ttl, peerId, taken);
    var kept := Kept(text, peerId, taken);
    KeptAreTaken(text, peerId, taken);
    var records := Records(Qname(peerLabel), ttl, text.base58(peerId), Displays(text, taken));
    forall r | r in records ensures |r| <= MAX_TXT_RECORD_SIZE {
      var i :| 0 <= i < |records| && r == records[i];
      KeptFits(text, peerId, kept, i);
      assert kept[i] in kept;
      RecordSize(Qname(peerLabel), ttl, ValueOf(text, peerId, kept[i]));
    }
    PacketsFit(id, Qname(peerLabel), records, ttl, service);
  }

  lemma KeptFits(text: TextForm, peerId: PeerId, kept: seq<Multiaddr>, i: nat)
    requires Writable(text, peerId, kept) && i < |ValuesOf(text, peerId, kept)|
    ensures i < |kept| && ValuesOf(text, peerId, kept)[i] == ValueOf(text, peerId, kept[i])
    ensures |ValueOf(text, peerId, kept[i])| <= MAX_TXT_VALUE_LENGTH
  {
    assert kept[i] in kept;
  }

  /**
   The constants are not safe for every input: a peer with the longest name and 29 addresses, all
   different, whose values are as long as a value may be, sends one packet that does not fit.
   */
  lemma FullRecordsOverflow(text: TextForm, id: u16, peerLabel: seq<byte>, peerId: PeerId, addrs: seq<Multiaddr>, ttl: u32,
                                  service: seq<byte>)
    requires Encodable(service) && Encodable(peerLabel) && PeerLabel(peerLabel) && |peerLabel| == 63
    requires |addrs| == MAX_RECORDS_PER_PACKET
    requires forall a :: a in addrs ==>
      |ValueOf(text, peerId, a)| == MAX_TXT_VALUE_LENGTH && IsAscii(ValueOf(text, peerId, a)) && SPACE !in ValueOf(text, peerId, a)
    ensures var ps := Announcement(text, id, peerLabel, peerId, addrs, ttl, service);
            |ps| == 1 && |ps[0]| > 29 * 331 > MAX_PACKET_SIZE
  {
    hide Encodable, Qname, Batch, Announcement, Payload, Kept, ValuesOf, IsAscii, ValueOf;
    assert addrs[..Min(|addrs|, 65535)] == addrs;
    AllKept(text, peerId, addrs);
    var values := ValuesOf(text, peerId, addrs);
    ValuesCount(text, peerId, addrs);
    AnnouncementCount(text, id, peerLabel, peerId, addrs, ttl, service);
    AnnouncementPacketSize(text, id, peerLabel, peerId, addrs, ttl, service, 0);
    PeerNameSize(peerLabel);
    FirstBatch(values);
    FullPayload(text, Qname(peerLabel), peerId, addrs);
  }

  /** There are such addresses, all different, in a text form that parses back. */
  lemma FullRecordsExist() returns (text: TextForm, addrs: seq<Multiaddr>)
    ensures text.Faithful()
    ensures |addrs| == MAX_RECORDS_PER_PACKET && forall i, j :: 0 <= i < j < |addrs| ==> addrs[i] != addrs[j]
    ensures forall a :: a in addrs ==>
              |ValueOf(text, [], a)| == MAX_TXT_VALUE_LENGTH && IsAscii(ValueOf(text, [], a)) && SPACE !in ValueOf(text, [], a)
  {
    hide TextForm.Faithful, ValueOf, IsAscii;
    PrintedForm.FormIsFaithful();
    text := PrintedForm.Form();
    addrs := seq(MAX_RECORDS_PER_PACKET, i requires 0 <= i < MAX_RECORDS_PER_PACKET => Numbered(i));
    forall i | 0 <= i < |addrs|
      ensures |ValueOf(text, [], addrs[i])| == MAX_TXT_VALUE_LENGTH && IsAscii(ValueOf(text, [], addrs[i]))
      ensures SPACE !in ValueOf(text, [], addrs[i])
    {
      NumberedValue(i);
    }
    forall i, j | 0 <= i < j < |addrs| ensures addrs[i] != addrs[j] {
      assert addrs[i][0].spec[0] == i && addrs[j][0].spec[0] == j;
    }
  }

  function Numbered(i: nat): Multiaddr
    requires i < MAX_RECORDS_PER_PACKET
  {
    [Transport([i] + seq(119, _ => 0))]
  }

  lemma NumberedValue(i: nat)
    requires i < MAX_RECORDS_PER_PACKET
    ensures var v := ValueOf(PrintedForm.Form(), [], Numbered(i));
            |v| == MAX_TXT_VALUE_LENGTH && IsAscii(v) && SPACE !in v
  {
    hide PrintedForm.Print, PrintedForm.Letters, Ascii, IsAscii;
    PrintedForm.OneComponentPrints(Numbered(i)[0].spec);
    PrintedForm.NoLetters();
    var v := ValueOf(PrintedForm.Form(), [], Numbered(i));
    var shown := PrintedForm.Print(Numbered(i));
    assert v == Ascii("dnsaddr=") + (shown + Ascii("/p2p/"));
    Marks();
    forall b | b in v ensures b < 0x80 && b != SPACE {
      assert b in Ascii("dnsaddr=") || b in shown || b in Ascii("/p2p/");
    }
    AsciiBytes(v);
  }

  lemma FirstBatch<T>(rs: seq<T>)
    requires |rs| <= MAX_RECORDS_PER_PACKET
    ensures Batch(rs, 0) == rs && BatchCount(|rs|) == 1
  {
  }

  lemma {:induction false} AllKept(text: TextForm, peerId: PeerId, addrs: seq<Multiaddr>)
    requires forall a :: a in addrs ==> TxtOutcome(ValueOf(text, peerId, a)) == Written
    ensures Kept(text, peerId, addrs) == addrs
  {
    hide TxtOutcome;
    if addrs != [] {
      var n := |addrs| - 1;
      assert addrs[n] in addrs && addrs == addrs[..n] + [addrs[n]];
      AllKept(text, peerId, addrs[..n]);
    }
  }

  lemma {:induction false} FullPayload(text: TextForm, peerName: seq<byte>, peerId: PeerId, addrs: seq<Multiaddr>)
    requires |peerName| == 65
    requires forall a :: a in addrs ==> |ValueOf(text, peerId, a)| == MAX_TXT_VALUE_LENGTH && SPACE !in ValueOf(text, peerId, a)
    ensures Payload(peerName, ValuesOf(text, peerId, addrs)) == 331 * |addrs|
  {
    hide ValueOf;
    if addrs != [] {
      var n := |addrs| - 1;
      assert addrs[n] in addrs;
      assert ValuesOf(text, peerId, addrs)[..n] == ValuesOf(text, peerId, addrs[..n]);
      FullPayload(text, peerName, peerId, addrs[..n]);
    }
  }
}
