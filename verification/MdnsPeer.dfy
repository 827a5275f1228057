/** The consumer of mDNS responses: from a parsed message back to a peer and its addresses. */
module MdnsPeer {
  import opened Bytes
  import opened Utf8
  import opened Addresses
  import opened DnsWire
  import opened DnsEncoder

  /** The text forms, which are the multiaddr library's. */
  datatype TextForm = TextForm(
    display: Multiaddr -> seq<byte>, parse: seq<byte> -> Option<Multiaddr>, base58: PeerId -> seq<byte>)
  {
    /** Parsing what is printed, with a peer id appended, gives the address with that peer component. */
    ghost predicate Faithful() {
      forall a, p :: parse(display(a) + (Ascii("/p2p/") + base58(p))) == Some(a + [P2p(p)])
    }
  }

  datatype Peer = Peer(addrs: seq<Multiaddr>, id: PeerId, ttl: u32)

  const DNSADDR: seq<byte> := Ascii("dnsaddr=")

  // ---------------------------------------------------------------- MdnsPeer::new

  /** `decode_character_string`. */
  function DecodeCharacterString(from: seq<byte>): Option<seq<byte>> {
    if from == [] then Some([])
    else if from[0] == QUOTE then
      if |from| == 1 || from[|from| - 1] != QUOTE then None else Some(from[1..|from| - 1])
    else Some(from)
  }

  /** The peer id settled on so far, and the addresses kept. */
  datatype Found = Found(id: Option<PeerId>, addrs: seq<Multiaddr>)

  /** The address a TXT string announces, if it announces one. */
  function Announced(text: TextForm, s: seq<byte>): Option<Multiaddr> {
    match DecodeCharacterString(s)
    case None => None
    case Some(addr) =>
      if !(DNSADDR <= addr) || !ValidUtf8(addr[|DNSADDR|..]) then None
      else
        match text.parse(addr[|DNSADDR|..])
        case None => None
        case Some(a) => if a != [] && a[|a| - 1].P2p? then Some(a) else None
  }

  function TakeString(text: TextForm, f: Found, s: seq<byte>): Found {
    match Announced(text, s)
    case None => f
    case Some(a) =>
      var id := a[|a| - 1].peer;
      if f.id.Some? && f.id.value != id then f
      else Found(Some(id), f.addrs + [a[..|a| - 1]])
  }

  function TakeStrings(text: TextForm, f: Found, ss: seq<seq<byte>>): Found {
    if ss == [] then f else TakeString(text, TakeStrings(text, f, ss[..|ss| - 1]), ss[|ss| - 1])
  }

  function LowerByte(b: byte): byte {
    if 0x41 <= b <= 0x5A then b + 0x20 else b
  }

  function Lower(s: seq<byte>): seq<byte> {
    seq(|s|, i requires 0 <= i < |s| => LowerByte(s[i]))
  }

  /** DNS names compare without regard to ASCII case. */
  predicate SameName(a: Name, b: Name) {
    |a| == |b| && forall i :: 0 <= i < |a| ==> Lower(a[i]) == Lower(b[i])
  }

  function TakeRecord(text: TextForm, f: Found, r: Record, name: Name): Found {
    if SameName(r.name, name) && r.data.Txt? then TakeStrings(text, f, r.data.strings) else f
  }

  function TakeRecords(text: TextForm, rs: seq<Record>, name: Name): Found {
    if rs == [] then Found(None, [])
    else TakeRecord(text, TakeRecords(text, rs[..|rs| - 1], name), rs[|rs| - 1], name)
  }

  function PeerFrom(text: TextForm, additionals: seq<Record>, name: Name, ttl: u32): Option<Peer> {
    var f := TakeRecords(text, additionals, name);
    if f.id.Some? then Some(Peer(f.addrs, f.id.value, ttl)) else None
  }

  /** `MdnsPeer::new`, as the loops its iterator chain runs. */
  method NewPeer(text: TextForm, additionals: seq<Record>, recordValue: Name, ttl: u32) returns (peer: Option<Peer>)
    ensures peer == PeerFrom(text, additionals, recordValue, ttl)
  {
    var myPeerId: Option<PeerId> := None;
    var addrs: seq<Multiaddr> := [];
    var i := 0;
    while i < |additionals|
      invariant 0 <= i <= |additionals|
      invariant Found(myPeerId, addrs) == TakeRecords(text, additionals[..i], recordValue)
    {
      var record := additionals[i];
      assert additionals[..i + 1][..i] == additionals[..i];
      if SameName(record.name, recordValue) && record.data.Txt? {
        myPeerId, addrs := CollectStrings(text, myPeerId, addrs, record.data.strings);
      }
      i := i + 1;
    }
    assert additionals[..i] == additionals;
    peer := if myPeerId.Some? then Some(Peer(addrs, myPeerId.value, ttl)) else None;
  }

  method CollectStrings(text: TextForm, id0: Option<PeerId>, addrs0: seq<Multiaddr>, strings: seq<seq<byte>>)
    returns (id: Option<PeerId>, addrs: seq<Multiaddr>)
    ensures Found(id, addrs) == TakeStrings(text, Found(id0, addrs0), strings)
  {
    id, addrs := id0, addrs0;
    var j := 0;
    while j < |strings|
      invariant 0 <= j <= |strings|
      invariant Found(id, addrs) == TakeStrings(text, Found(id0, addrs0), strings[..j])
    {
      assert strings[..j + 1][..j] == strings[..j];
      match Announced(text, strings[j]) {
        case None =>
        case Some(a) =>
          var peer := a[|a| - 1].peer;
          if id == None {
            id := Some(peer);
          }
          if id == Some(peer) {
            addrs := addrs + [a[..|a| - 1]];
          }
      }
      j := j + 1;
    }
    assert strings[..j] == strings;
  }

  /** A name as text, with its final dot. */
  function NameText(name: Name): seq<byte> {
    if name == [] then [] else name[0] + [DOT] + NameText(name[1..])
  }

  /** `MdnsResponse::new`: the peers of the PTR answers that carry the service's name. */
  function Peers(text: TextForm, m: DnsMessage, answers: seq<Record>, fqdn: seq<byte>): seq<Peer> {
    if answers == [] then []
    else
      var r := answers[0];
      var peer := if NameText(r.name) == fqdn && r.data.Ptr? then PeerFrom(text, m.additionals, r.data.target, r.ttl) else None;
      (if peer.Some? then [peer.value] else []) + Peers(text, m, answers[1..], fqdn)
  }

  /** `MdnsPacket::new_from_bytes`: what a received datagram is taken for. */
  datatype Packet = Query(id: u16) | Response(peers: seq<Peer>) | ServiceDiscovery(id: u16) | Unrelated | Malformed

  function Received(text: TextForm, buf: seq<byte>, fqdn: seq<byte>): Packet {
    match GetMessage(buf)
    case Bad => Malformed
    case Got(m, _) =>
      if m.questions == [] then Response(Peers(text, m, m.answers, fqdn))
      else if exists q :: q in m.questions && NameText(q.name) == fqdn then Query(m.id)
      else if exists q :: q in m.questions && NameText(q.name) == META_QUERY_SERVICE + [DOT] then ServiceDiscovery(m.id)
      else Unrelated
  }

  // ---------------------------------------------------------------- what the consumer takes

  /** A string announces an address if and only if, plain or in quotes, it is the mark and the address's printed form, with a peer at its end. */
  lemma AnnouncedIff(text: TextForm, s: seq<byte>, a: Multiaddr)
    ensures Announced(text, s) == Some(a)
            <==> exists body ::
                   && (s == DNSADDR + body || s == [QUOTE] + (DNSADDR + body) + [QUOTE])
                   && ValidUtf8(body) && text.parse(body) == Some(a) && a != [] && a[|a| - 1].P2p?
  {
    hide ValidUtf8;
    MarkIsNoQuote();
    if Announced(text, s) == Some(a) {
      var addr := DecodeCharacterString(s).value;
      var body := addr[|DNSADDR|..];
      assert addr == DNSADDR + body;
      assert s == addr || s == [QUOTE] + addr + [QUOTE];
    }
    if body :| && (s == DNSADDR + body || s == [QUOTE] + (DNSADDR + body) + [QUOTE])
               && ValidUtf8(body) && text.parse(body) == Some(a) && a != [] && a[|a| - 1].P2p? {
      var addr := DNSADDR + body;
      if s != addr {
        assert s[0] == QUOTE && s[|s| - 1] == QUOTE && s[1..|s| - 1] == addr;
      } else {
        assert s[0] == DNSADDR[0];
      }
      assert addr[|DNSADDR|..] == body;
    }
  }

  lemma MarkIsNoQuote()
    ensures |DNSADDR| == 8 && DNSADDR[0] != QUOTE
  {
  }

  predicate SameLetter(b: byte, c: byte) {
    b == c || (0x41 <= b <= 0x5A && c == b + 0x20) || (0x41 <= c <= 0x5A && b == c + 0x20)
  }

  /** Names are the same if they are letter for letter, upper or lower case. */
  lemma SameNameIff(a: Name, b: Name)
    ensures SameName(a, b)
            <==> |a| == |b| && forall i :: 0 <= i < |a| ==>
                   |a[i]| == |b[i]| && forall k :: 0 <= k < |a[i]| ==> SameLetter(a[i][k], b[i][k])
  {
    if |a| == |b| {
      forall i | 0 <= i < |a|
        ensures Lower(a[i]) == Lower(b[i])
           <==> |a[i]| == |b[i]| && forall k :: 0 <= k < |a[i]| ==> SameLetter(a[i][k], b[i][k])
      {
        SameLabelIff(a[i], b[i]);
      }
    }
  }

  lemma SameLabelIff(x: seq<byte>, y: seq<byte>)
    ensures Lower(x) == Lower(y) <==> |x| == |y| && forall k :: 0 <= k < |x| ==> SameLetter(x[k], y[k])
  {
    if |x| == |y| {
      forall k | 0 <= k < |x| ensures SameLetter(x[k], y[k]) <==> Lower(x)[k] == Lower(y)[k] {}
    }
  }

  /** The addresses announced in some strings, with the peers at their ends. */
  function AnnouncedIn(text: TextForm, ss: seq<seq<byte>>): seq<Multiaddr> {
    if ss == [] then []
    else
      var a := Announced(text, ss[|ss| - 1]);
      AnnouncedIn(text, ss[..|ss| - 1]) + (if a.Some? then [a.value] else [])
  }

  /** Those announced in the TXT records of a name. */
  function AllAnnounced(text: TextForm, rs: seq<Record>, name: Name): seq<Multiaddr> {
    if rs == [] then []
    else
      var r := rs[|rs| - 1];
      AllAnnounced(text, rs[..|rs| - 1], name) + (if SameName(r.name, name) && r.data.Txt? then AnnouncedIn(text, r.data.strings) else [])
  }

  predicate EndsInPeer(a: Multiaddr) { a != [] && a[|a| - 1].P2p? }

  /** The addresses that end in this peer, without it. */
  function OfPeer(all: seq<Multiaddr>, id: PeerId): seq<Multiaddr> {
    if all == [] then []
    else
      var a := all[|all| - 1];
      OfPeer(all[..|all| - 1], id) + (if EndsInPeer(a) && a[|a| - 1].peer == id then [a[..|a| - 1]] else [])
  }

  /** What a peer's announced addresses settle: the first one's peer, and the addresses that end in it. */
  ghost predicate Settled(f: Found, all: seq<Multiaddr>) {
    && (forall a :: a in all ==> EndsInPeer(a))
    && if all == [] then f == Found(None, [])
       else && EndsInPeer(all[0]) && f.id == Some(all[0][|all[0]| - 1].peer)
            && f.addrs == OfPeer(all, all[0][|all[0]| - 1].peer)
  }

  lemma TakeStringSettles(text: TextForm, f: Found, s: seq<byte>, all: seq<Multiaddr>)
    requires Settled(f, all)
    ensures var a := Announced(text, s); Settled(TakeString(text, f, s), all + (if a.Some? then [a.value] else []))
  {
    hide Announced;
    AnnouncedEnds(text, s);
    var a := Announced(text, s);
    if a.Some? {
      assert (all + [a.value])[..|all|] == all;
      if all == [] {
        assert OfPeer([a.value], a.value[|a.value| - 1].peer) == [] + [a.value[..|a.value| - 1]];
      }
    } else {
      assert all + [] == all;
    }
  }

  lemma AnnouncedEnds(text: TextForm, s: seq<byte>)
    ensures Announced(text, s).Some? ==> EndsInPeer(Announced(text, s).value)
  {
  }

  lemma {:induction false} TakeStringsSettle(text: TextForm, f: Found, ss: seq<seq<byte>>, all: seq<Multiaddr>)
    requires Settled(f, all)
    ensures Settled(TakeStrings(text, f, ss), all + AnnouncedIn(text, ss))
  {
    hide Announced, TakeString, Settled;
    if ss == [] {
      assert all + [] == all;
    } else {
      var n := |ss| - 1;
      TakeStringsSettle(text, f, ss[..n], all);
      TakeStringSettles(text, TakeStrings(text, f, ss[..n]), ss[n], all + AnnouncedIn(text, ss[..n]));
      var a := Announced(text, ss[n]);
      Assoc(all, AnnouncedIn(text, ss[..n]), if a.Some? then [a.value] else []);
    }
  }

  lemma {:induction false} TakeRecordsSettle(text: TextForm, rs: seq<Record>, name: Name)
    ensures Settled(TakeRecords(text, rs, name), AllAnnounced(text, rs, name))
  {
    hide Announced, TakeStrings, SameName;
    if rs != [] {
      var n := |rs| - 1;
      TakeRecordsSettle(text, rs[..n], name);
      var f, all := TakeRecords(text, rs[..n], name), AllAnnounced(text, rs[..n], name);
      if SameName(rs[n].name, name) && rs[n].data.Txt? {
        TakeStringsSettle(text, f, rs[n].data.strings, all);
      } else {
        assert all + [] == all;
      }
    }
  }

  /**
   The peer a response speaks of is the one at the end of the first address announced for the name,
   with exactly the addresses that end in it, in order; other peers' addresses in it are left out.
   */
  lemma PeerIsFirstAnnounced(text: TextForm, additionals: seq<Record>, name: Name, ttl: u32)
    ensures var all := AllAnnounced(text, additionals, name);
            && (all == [] ==> PeerFrom(text, additionals, name, ttl) == None)
            && (all != [] ==>
                  && EndsInPeer(all[0])
                  && var id := all[0][|all[0]| - 1].peer;
                  PeerFrom(text, additionals, name, ttl) == Some(Peer(OfPeer(all, id), id, ttl)))
  {
    hide TakeRecords, AllAnnounced, OfPeer;
    TakeRecordsSettle(text, additionals, name);
  }

  /** A response's peers are those its PTR answers of the service's name speak of. */
  lemma {:induction false} PeersAreAnswers(text: TextForm, m: DnsMessage, answers: seq<Record>, fqdn: seq<byte>, p: Peer)
    ensures p in Peers(text, m, answers, fqdn)
            <==> exists i :: 0 <= i < |answers| && NameText(answers[i].name) == fqdn && answers[i].data.Ptr?
                             && PeerFrom(text, m.additionals, answers[i].data.target, answers[i].ttl) == Some(p)
  {
    hide NameText, PeerFrom;
    if answers != [] {
      PeersAreAnswers(text, m, answers[1..], fqdn, p);
      var r := answers[0];
      if i :| 0 <= i < |answers| && NameText(answers[i].name) == fqdn && answers[i].data.Ptr?
              && PeerFrom(text, m.additionals, answers[i].data.target, answers[i].ttl) == Some(p) {
        if i > 0 {
          assert answers[1..][i - 1] == answers[i];
        }
      }
      if i :| 0 <= i < |answers[1..]| && NameText(answers[1..][i].name) == fqdn && answers[1..][i].data.Ptr?
              && PeerFrom(text, m.additionals, answers[1..][i].data.target, answers[1..][i].ttl) == Some(p) {
        assert answers[i + 1] == answers[1..][i];
      }
    }
  }

  // ---------------------------------------------------------------- the bytes mean what they should

  lemma {:induction false} StringsOfOne(v: seq<byte>)
    requires |v| <= 255
    ensures Strings([|v|] + v) == Some([v])
  {
    assert ([|v|] + v)[1..] == v;
  }

  /** A value's TXT data is one character string holding the value exactly when it has no space. */
  lemma TxtDataIffNoSpace(v: seq<byte>)
    requires |v| <= 255
    ensures Strings(TxtData(v)) == Some([v]) <==> SPACE !in v
  {
    if SPACE in v {
      EscapeSize(v);
    } else {
      StringsOfOne(v);
    }
  }

  lemma {:induction false} PlainEscape(s: seq<byte>)
    requires QUOTE !in s && BACKSLASH !in s
    ensures Escape(s) == s
  {
    if s != [] {
      var n := |s| - 1;
      assert s == s[..n] + [s[n]] && s[n] in s && forall c :: c in s[..n] ==> c in s;
      PlainEscape(s[..n]);
    }
  }

  /**
   With a space but nothing to escape, a value's TXT data is not even a series of character strings,
   unless the value's last byte is 1: that byte is taken for the length of a second string, of which
   only the closing quote is there.
   */
  lemma SpacedDataIsBroken(v: seq<byte>)
    requires |v| <= 255 && SPACE in v && QUOTE !in v && BACKSLASH !in v
    ensures Strings(TxtData(v)) == None <==> v[|v| - 1] != 1
  {
    hide Escape;
    PlainEscape(v);
    var last := v[|v| - 1];
    var end := [last, QUOTE];
    assert TxtData(v)[1 + |v|..] == end;
    assert end[1..] == [QUOTE];
    assert Strings([QUOTE]) == None;
    assert Strings(end) == None <==> last != 1;
  }

  /** A TXT record as written parses as what its data is, whatever that is. */
  lemma TxtRecordRead(name: Name, ttl: u32, v: seq<byte>, rest: seq<byte>)
    requires Labels(name) && |v| <= 255
    ensures var ss := Strings(TxtData(v));
            GetRecord(TxtRecord(NameBytes(name), ttl, v) + rest)
            == if ss.None? then Bad else Got(Record(name, TXT, 0x8001, ttl, Txt(ss.value)), rest)
  {
    hide NameBytes, BigEndian, Strings, GetName, Characters;
    var data := TxtData(v);
    CharactersSize(v);
    var s4 := BigEndian(|data|, 2) + (data + rest);
    var s3 := BigEndian(ttl, 4) + s4;
    var s2 := BigEndian(0x8001, 2) + s3;
    var s1 := BigEndian(TXT, 2) + s2;
    FlagBytes();
    assert TxtRecord(NameBytes(name), ttl, v) + rest == NameBytes(name) + s1;
    NameBack(name, s1);
    U16Back(TXT, s2);
    U16Back(0x8001, s3);
    U32Back(ttl, s4);
    U16Back(|data|, data + rest);
    assert (data + rest)[..|data|] == data && (data + rest)[|data|..] == rest;
  }

  /** It parses as the record that was meant exactly when the value has no space. */
  lemma TxtRecordBack(name: Name, ttl: u32, v: seq<byte>, rest: seq<byte>)
    requires Labels(name) && |v| <= 255
    ensures GetRecord(TxtRecord(NameBytes(name), ttl, v) + rest) == Got(Record(name, TXT, 0x8001, ttl, Txt([v])), rest)
            <==> SPACE !in v
  {
    hide NameBytes, Strings, GetRecord, TxtRecord, TxtData;
    TxtRecordRead(name, ttl, v, rest);
    TxtDataIffNoSpace(v);
  }

  lemma FlagBytes()
    ensures BigEndian(TXT, 2) == [0x00, 0x10] && BigEndian(0x8001, 2) == [0x80, 0x01]
  {
    BigDigit(TXT, 1);
    BigDigit(TXT / 0x100, 0);
    BigDigit(0x8001, 1);
    BigDigit(0x8001 / 0x100, 0);
  }

  lemma PtrRecordBack(name: Name, rclass: u16, ttl: u32, target: Name, rest: seq<byte>)
    requires Labels(name) && Labels(target) && |NameBytes(target)| < 0x1_0000
    ensures GetRecord(PtrRecord(NameBytes(name), rclass, ttl, NameBytes(target)) + rest)
            == Got(Record(name, PTR, rclass, ttl, Ptr(target)), rest)
  {
    hide NameBytes, BigEndian, GetName, GetU16, GetU32;
    var data := NameBytes(target);
    var s4 := BigEndian(|data|, 2) + (data + rest);
    var s3 := BigEndian(ttl, 4) + s4;
    var s2 := BigEndian(rclass, 2) + s3;
    var s1 := BigEndian(PTR, 2) + s2;
    assert PtrRecord(NameBytes(name), rclass, ttl, data) + rest == NameBytes(name) + s1;
    NameBack(name, s1);
    U16Back(PTR, s2);
    U16Back(rclass, s3);
    U32Back(ttl, s4);
    U16Back(|data|, data + rest);
    assert (data + rest)[..|data|] == data && (data + rest)[|data|..] == rest;
    NameBack(target, []);
    assert data + [] == data;
  }
}
