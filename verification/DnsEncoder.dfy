/** The hand-written mDNS encoder: bytes pushed onto growing vectors, records batched into packets. */
module DnsEncoder {
  import opened Bytes
  import opened DnsWire

  const MAX_TXT_VALUE_LENGTH: nat := 255
  const MAX_TXT_RECORD_SIZE: nat := MAX_TXT_VALUE_LENGTH + 45
  const MAX_PACKET_SIZE: nat := 9000 - 68
  const MAX_RECORDS_PER_PACKET: nat := 29  // (MAX_PACKET_SIZE - 100) / MAX_TXT_RECORD_SIZE

  const DOT: byte := 0x2E
  const SPACE: byte := 0x20
  const QUOTE: byte := 0x22
  const BACKSLASH: byte := 0x5C

  function Ascii(s: string): (r: seq<byte>)
    requires forall i :: 0 <= i < |s| ==> s[i] as int < 0x80
    ensures |r| == |s| && IsAscii(r)
  {
    seq(|s|, i requires 0 <= i < |s| => s[i] as int)
  }

  const META_QUERY_SERVICE: seq<byte> := Ascii("_services._dns-sd._udp.local")

  predicate IsAscii(s: seq<byte>) {
    forall i :: 0 <= i < |s| ==> s[i] < 0x80
  }

  // ---------------------------------------------------------------- what the encoder writes

  /** `slice::split` on dots. */
  function SplitDots(name: seq<byte>): (labels: Name)
    ensures |labels| >= 1
  {
    if name == [] then [[]]
    else
      var rest := SplitDots(name[1..]);
      if name[0] == DOT then [[]] + rest else [[name[0]] + rest[0]] + rest[1..]
  }

  /** The names the encoder does not panic on: no empty label, none longer than 63. */
  predicate Encodable(name: seq<byte>) {
    Labels(SplitDots(name))
  }

  function Qname(name: seq<byte>): seq<byte>
    requires Encodable(name)
  {
    NameBytes(SplitDots(name))
  }

  function Escape(s: seq<byte>): seq<byte> {
    if s == [] then []
    else
      var c := s[|s| - 1];
      Escape(s[..|s| - 1]) + (if c == BACKSLASH || c == QUOTE then [BACKSLASH, c] else [c])
  }

  /** A character string as written: the text itself, or quoted and escaped if it has a space. */
  function Characters(value: seq<byte>): seq<byte> {
    if SPACE in value then [QUOTE] + Escape(value) + [QUOTE] else value
  }

  datatype Outcome = Written | TxtRecordTooLong | NonAsciiMultiaddr

  function TxtOutcome(value: seq<byte>): Outcome {
    if |value| > MAX_TXT_VALUE_LENGTH then TxtRecordTooLong
    else if !IsAscii(value) then NonAsciiMultiaddr
    else Written
  }

  /** Name, type TXT, class IN with the cache-flush bit, time to live. */
  function TxtHead(name: seq<byte>, ttl: u32): seq<byte> {
    name + [0x00, 0x10, 0x80, 0x01] + BigEndian(ttl, 4)
  }

  /** The data of a TXT record: the value's length, then its characters. */
  function TxtData(value: seq<byte>): seq<byte>
    requires |value| <= MAX_TXT_VALUE_LENGTH
  {
    [|value|] + Characters(value)
  }

  function TxtRecord(name: seq<byte>, ttl: u32, value: seq<byte>): seq<byte>
    requires |value| <= MAX_TXT_VALUE_LENGTH
  {
    TxtHead(name, ttl) + (BigEndian(|TxtData(value)|, 2) + TxtData(value))
  }

  function Header(id: u16, flags: u16, qd: u16, an: u16, ns: u16, ar: u16): seq<byte> {
    BigEndian(id, 2) + (BigEndian(flags, 2) + (BigEndian(qd, 2) + (BigEndian(an, 2) + (BigEndian(ns, 2) + BigEndian(ar, 2)))))
  }

  /** A PTR record. */
  function PtrRecord(name: seq<byte>, rclass: u16, ttl: u32, target: seq<byte>): seq<byte> {
    name + (BigEndian(0x000c, 2) + (BigEndian(rclass, 2) + (BigEndian(ttl, 4) + (BigEndian(|target| % 0x1_0000, 2) + target))))
  }

  function ResponsePacket(id: u16, peerName: seq<byte>, records: seq<seq<byte>>, ttl: u32, service: seq<byte>): seq<byte>
    requires Encodable(service)
  {
    Header(id, 0x8400, 0, 1, 0, |records| % 0x1_0000)
    + (PtrRecord(Qname(service), 0x0001, ttl, peerName) + Flatten(records))
  }

  /** The value announced for one address: both are the printed forms. */
  function TxtValue(addr: seq<byte>, peerId: seq<byte>): seq<byte> {
    Ascii("dnsaddr=") + (addr + (Ascii("/p2p/") + peerId))
  }

  /** The records of the addresses that can be encoded, in order. */
  function Records(peerName: seq<byte>, ttl: u32, peerId: seq<byte>, addrs: seq<seq<byte>>): seq<seq<byte>> {
    if addrs == [] then []
    else
      var value := TxtValue(addrs[|addrs| - 1], peerId);
      Records(peerName, ttl, peerId, addrs[..|addrs| - 1])
      + (if TxtOutcome(value) == Written then [TxtRecord(peerName, ttl, value)] else [])
  }

  function BatchCount(k: nat): (n: nat)
    ensures n >= 1 && k <= MAX_RECORDS_PER_PACKET * n
    ensures k > 0 ==> MAX_RECORDS_PER_PACKET * (n - 1) < k
    ensures k == 0 ==> n == 1
  {
    if k == 0 then 1 else (k + MAX_RECORDS_PER_PACKET - 1) / MAX_RECORDS_PER_PACKET
  }

  /** The i-th packetful of records. */
  function Batch<T>(rs: seq<T>, i: nat): seq<T>
    requires MAX_RECORDS_PER_PACKET * i <= |rs|
  {
    rs[MAX_RECORDS_PER_PACKET * i..Min(MAX_RECORDS_PER_PACKET * i + MAX_RECORDS_PER_PACKET, |rs|)]
  }

  function QueryResponse(id: u16, peerName: seq<byte>, records: seq<seq<byte>>, ttl: u32, service: seq<byte>): seq<seq<byte>>
    requires Encodable(service)
  {
    seq(BatchCount(|records|), i requires 0 <= i < BatchCount(|records|) =>
      ResponsePacket(id, peerName, Batch(records, i), ttl, service))
  }

  /** Whole seconds, rounded up, capped at the 32-bit maximum. */
  function DurationToSecs(secs: u64, nanos: nat): (ttl: u32) {
    var up := if nanos > 0 then Min(secs + 1, 0xFFFF_FFFF_FFFF_FFFF) else secs;
    Min(up, 0xFFFF_FFFF)
  }

  // ---------------------------------------------------------------- the source's form

  /** The time to live is the duration in whole seconds, rounded up, or the most 32 bits hold if that is more. */
  lemma DurationRoundsUp(secs: u64, nanos: nat)
    requires nanos < 1_000_000_000
    ensures var (ttl, exact) := (DurationToSecs(secs, nanos), secs * 1_000_000_000 + nanos);
            && (ttl < 0xFFFF_FFFF ==> (ttl - 1) * 1_000_000_000 < exact <= ttl * 1_000_000_000)
            && (ttl == 0xFFFF_FFFF ==> exact > (ttl - 1) * 1_000_000_000)
  {
  }

  /** Undo `Escape`: a backslash stands for what follows it. */
  function Unescape(s: seq<byte>): seq<byte> {
    if s == [] then []
    else if s[0] == BACKSLASH && |s| > 1 then [s[1]] + Unescape(s[2..])
    else [s[0]] + Unescape(s[1..])
  }

  /** What a byte is written as between quotes. */
  function Escaped(c: byte): seq<byte> {
    if c == 0x22 || c == 0x5C then [0x5C, c] else [c]
  }

  lemma {:induction false} EscapeCons(c: byte, s: seq<byte>)
    ensures Escape([c] + s) == Escaped(c) + Escape(s)
  {
    if s == [] {
      assert ([c] + s)[..0] == [];
    } else {
      var n := |s| - 1;
      assert ([c] + s)[..n + 1] == [c] + s[..n];
      EscapeCons(c, s[..n]);
      Assoc(Escaped(c), Escape(s[..n]), Escaped(s[n]));
    }
  }

  /** Escaping puts a backslash before each quote and backslash, so that it can be undone. */
  lemma {:induction false} EscapeCanBeUndone(s: seq<byte>)
    ensures Unescape(Escape(s)) == s
  {
    if s != [] {
      var c, t := s[0], s[1..];
      assert s == [c] + t;
      EscapeCons(c, t);
      EscapeCanBeUndone(t);
      var e := Escape(s);
      if |Escaped(c)| == 2 {
        assert e[2..] == Escape(t);
      } else {
        assert e[1..] == Escape(t) && e[0] == c;
      }
    }
  }

  /** A value can be announced if and only if it is at most 255 bytes, all of them ASCII. */
  lemma WrittenIff(v: seq<byte>)
    ensures TxtOutcome(v) == Written <==> |v| <= 255 && forall b :: b in v ==> b < 0x80
  {
    assert forall i :: 0 <= i < |v| ==> v[i] in v;
  }

  /** A growing byte vector. */
  class ByteVec {
    var bytes: seq<byte>

    constructor ()
      ensures bytes == []
    {
      bytes := [];
    }

    method Push(b: byte)
      modifies this
      ensures bytes == old(bytes) + [b]
    {
      bytes := bytes + [b];
    }

    method ExtendFromSlice(s: seq<byte>)
      modifies this
      ensures bytes == old(bytes) + s
    {
      bytes := bytes + s;
    }
  }

  method AppendU16(out: ByteVec, value: u16)
    modifies out
    ensures out.bytes == old(out.bytes) + BigEndian(value, 2)
  {
    out.Push(value / 0x100 % 0x100);
    out.Push(value % 0x100);
    assert BigEndian(value, 2) == BigEndian(value / 0x100, 1) + [value % 0x100];
    assert BigEndian(value / 0x100, 1) == [value / 0x100 % 0x100];
  }

  method AppendU32(out: ByteVec, value: u32)
    modifies out
    ensures out.bytes == old(out.bytes) + BigEndian(value, 4)
  {
    out.Push(value / 0x100_0000 % 0x100);
    out.Push(value / 0x1_0000 % 0x100);
    out.Push(value / 0x100 % 0x100);
    out.Push(value % 0x100);
    FourBigDigits(value);
  }

  lemma BigDigit(n: nat, k: nat)
    ensures BigEndian(n, k + 1) == BigEndian(n / 0x100, k) + [n % 0x100]
  {
  }

  lemma FourBigDigits(n: nat)
    ensures BigEndian(n, 4) == [n / 0x100_0000 % 0x100, n / 0x1_0000 % 0x100, n / 0x100 % 0x100, n % 0x100]
  {
    BigDigit(n, 3);
    BigDigit(n / 0x100, 2);
    BigDigit(n / 0x1_0000, 1);
    BigDigit(n / 0x100_0000, 0);
  }

  /** The labels of a name without its terminator, built from the left as the encoder builds it. */
  function LabelBytes(labels: Name): seq<byte>
    requires Labels(labels)
  {
    if labels == [] then []
    else
      var last := labels[|labels| - 1];
      assert last in labels;
      LabelBytes(labels[..|labels| - 1]) + ([|last|] + last)
  }

  lemma {:induction false} LabelBytesCons(l: seq<byte>, others: Name)
    requires Labels([l] + others)
    ensures Labels(others) && LabelBytes([l] + others) == ([|l|] + l) + LabelBytes(others)
  {
    var all := [l] + others;
    assert forall x :: x in others ==> x in all;
    if others == [] {
      assert all[..0] == [];
    } else {
      var n := |others| - 1;
      assert all[..n + 1] == [l] + others[..n];
      LabelBytesCons(l, others[..n]);
      Assoc([|l|] + l, LabelBytes(others[..n]), [|others[n]|] + others[n]);
    }
  }

  lemma {:induction false} NameIsLabels(labels: Name)
    requires Labels(labels)
    ensures NameBytes(labels) == LabelBytes(labels) + [0]
  {
    if labels != [] {
      assert labels == [labels[0]] + labels[1..];
      LabelBytesCons(labels[0], labels[1..]);
      NameIsLabels(labels[1..]);
    }
  }

  method AppendLabel(out: ByteVec, element: seq<byte>)
    requires 1 <= |element| < 64
    modifies out
    ensures out.bytes == old(out.bytes) + ([|element|] + element)
  {
    out.Push(|element|);
    ghost var head := out.bytes;
    var j := 0;
    while j < |element|
      invariant 0 <= j <= |element| && out.bytes == head + element[..j]
    {
      out.Push(element[j]);
      j := j + 1;
    }
    assert element[..j] == element;
  }

  /** `append_qname`; the two assertions of the source are its precondition. */
  method AppendQname(out: ByteVec, name: seq<byte>)
    requires Encodable(name)
    modifies out
    ensures out.bytes == old(out.bytes) + Qname(name)
  {
    hide SplitDots, LabelBytes;
    var elements := SplitDots(name);
    NameIsLabels(elements);
    AppendLabels(out, elements);
    out.Push(0);
  }

  method AppendLabels(out: ByteVec, elements: Name)
    requires Labels(elements)
    modifies out
    ensures out.bytes == old(out.bytes) + LabelBytes(elements)
  {
    var i := 0;
    while i < |elements|
      invariant 0 <= i <= |elements|
      invariant out.bytes == old(out.bytes) + LabelBytes(elements[..i])
    {
      assert elements[i] in elements;
      assert elements[..i + 1][..i] == elements[..i];
      AppendLabel(out, elements[i]);
      i := i + 1;
    }
    assert elements[..i] == elements;
  }

  // ---------------------------------------------------------------- records and packets

  /** `append_character_string`. */
  method AppendCharacterString(out: ByteVec, ascii: seq<byte>) returns (r: Outcome)
    modifies out
    ensures r == if IsAscii(ascii) then Written else NonAsciiMultiaddr
    ensures out.bytes == old(out.bytes) + (if IsAscii(ascii) then Characters(ascii) else [])
  {
    if !IsAscii(ascii) {
      return NonAsciiMultiaddr;
    }
    if SPACE !in ascii {
      out.ExtendFromSlice(ascii);
      return Written;
    }
    out.Push(QUOTE);
    AppendEscaped(out, ascii);
    out.Push(QUOTE);
    return Written;
  }

  method AppendEscaped(out: ByteVec, ascii: seq<byte>)
    modifies out
    ensures out.bytes == old(out.bytes) + Escape(ascii)
  {
    var i := 0;
    while i < |ascii|
      invariant 0 <= i <= |ascii| && out.bytes == old(out.bytes) + Escape(ascii[..i])
    {
      var c := ascii[i];
      assert ascii[..i + 1][..i] == ascii[..i];
      if c == BACKSLASH || c == QUOTE {
        out.Push(BACKSLASH);
        out.Push(c);
      } else {
        out.Push(c);
      }
      i := i + 1;
    }
    assert ascii[..i] == ascii;
  }

  lemma {:induction false} EscapeSize(s: seq<byte>)
    ensures |s| <= |Escape(s)| <= 2 * |s|
  {
    if s != [] {
      EscapeSize(s[..|s| - 1]);
    }
  }

  method AppendTxtHead(out: ByteVec, name: seq<byte>, ttl: u32)
    modifies out
    ensures out.bytes == old(out.bytes) + TxtHead(name, ttl)
  {
    hide BigEndian;
    out.ExtendFromSlice(name);
    out.Push(0x00);
    out.Push(0x10);
    out.Push(0x80);
    out.Push(0x01);
    AppendU32(out, ttl);
    assert [0x00, 0x10, 0x80, 0x01] == [0x00] + [0x10] + [0x80] + [0x01];
  }

  /** `append_txt_record`: on an error only the record's head has been written. */
  method AppendTxtRecord(out: ByteVec, name: seq<byte>, ttl: u32, value: seq<byte>) returns (r: Outcome)
    modifies out
    ensures r == TxtOutcome(value)
    ensures out.bytes == old(out.bytes) + (if r == Written then TxtRecord(name, ttl, value) else TxtHead(name, ttl))
  {
    hide BigEndian, TxtHead, Characters, IsAscii;
    AppendTxtHead(out, name, ttl);
    if |value| > MAX_TXT_VALUE_LENGTH {
      return TxtRecordTooLong;
    }
    var buffer := new ByteVec();
    buffer.Push(|value|);
    r := AppendCharacterString(buffer, value);
    if r != Written {
      return r;
    }
    CharactersSize(value);
    assert buffer.bytes == TxtData(value);
    AppendU16(out, |buffer.bytes|);
    out.ExtendFromSlice(buffer.bytes);
  }

  lemma CharactersSize(value: seq<byte>)
    ensures |Characters(value)| <= 2 * |value| + 2
  {
    EscapeSize(value);
  }

  method AppendPtrRecord(out: ByteVec, name: seq<byte>, rclass: u16, ttl: u32, target: seq<byte>)
    requires Encodable(name)
    modifies out
    ensures out.bytes == old(out.bytes) + PtrRecord(Qname(name), rclass, ttl, target)
  {
    hide BigEndian, Encodable, Qname;
    AppendQname(out, name);
    AppendU16(out, 0x000c);
    AppendU16(out, rclass);
    AppendU32(out, ttl);
    AppendU16(out, |target| % 0x1_0000);
    out.ExtendFromSlice(target);
  }

  method AppendRecords(out: ByteVec, records: seq<seq<byte>>)
    modifies out
    ensures out.bytes == old(out.bytes) + Flatten(records)
  {
    var i := 0;
    while i < |records|
      invariant 0 <= i <= |records| && out.bytes == old(out.bytes) + Flatten(records[..i])
    {
      assert records[..i + 1][..i] == records[..i];
      out.ExtendFromSlice(records[i]);
      i := i + 1;
    }
    assert records[..i] == records;
  }

  /** `query_response_packet`. */
  method QueryResponsePacket(id: u16, peerName: seq<byte>, records: seq<seq<byte>>, ttl: u32, service: seq<byte>)
    returns (packet: seq<byte>)
    requires Encodable(service)
    ensures packet == ResponsePacket(id, peerName, records, ttl, service)
  {
    hide Header, PtrRecord, Flatten, Encodable, Qname;
    var out := new ByteVec();
    AppendHeader(out, id, 0x8400, 0, 1, 0, |records| % 0x1_0000);
    AppendPtrRecord(out, service, 0x0001, ttl, peerName);
    AppendRecords(out, records);
    packet := out.bytes;
  }

  /** The six header words, in the order every builder writes them. */
  method AppendHeader(out: ByteVec, id: u16, flags: u16, qd: u16, an: u16, ns: u16, ar: u16)
    modifies out
    ensures out.bytes == old(out.bytes) + Header(id, flags, qd, an, ns, ar)
  {
    hide BigEndian;
    AppendU16(out, id);
    AppendU16(out, flags);
    AppendU16(out, qd);
    AppendU16(out, an);
    AppendU16(out, ns);
    AppendU16(out, ar);
  }

  /** `build_query`, with its random transaction id as a parameter. */
  method BuildQuery(id: u16, service: seq<byte>) returns (packet: seq<byte>)
    requires Encodable(service)
    ensures packet == QueryPacket(id, service)
  {
    hide Header, BigEndian, Encodable, Qname;
    var out := new ByteVec();
    AppendHeader(out, id, 0, 1, 0, 0, 0);
    AppendQname(out, service);
    AppendU16(out, 0x0c);
    AppendU16(out, 0x01);
    packet := out.bytes;
  }

  function QueryPacket(id: u16, service: seq<byte>): seq<byte>
    requires Encodable(service)
  {
    Header(id, 0, 1, 0, 0, 0) + (Qname(service) + (BigEndian(0x0c, 2) + BigEndian(0x01, 2)))
  }

  /**
   `build_query_response`: one TXT record per encodable address among the first 65535, packed
   29 to a packet, with at least one packet. The random peer name is a parameter.
   */
  method BuildQueryResponse(id: u16, peerLabel: seq<byte>, peerId: seq<byte>, addrs: seq<seq<byte>>, secs: u64, nanos: nat,
                            service: seq<byte>)
    returns (packets: seq<seq<byte>>)
    requires Encodable(service) && Encodable(peerLabel)
    ensures var ttl, taken := DurationToSecs(secs, nanos), addrs[..Min(|addrs|, 65535)];
            packets == QueryResponse(id, Qname(peerLabel), Records(Qname(peerLabel), ttl, peerId, taken), ttl, service)
  {
    hide Records, ResponsePacket, TxtRecord, TxtHead, TxtValue, IsAscii, DurationToSecs, Qname, Encodable, Batch, Batched,
      BatchCount;
    var ttl := DurationToSecs(secs, nanos);
    var taken := addrs[..Min(|addrs|, 65535)];
    var name := new ByteVec();
    AppendQname(name, peerLabel);
    var peerName := name.bytes;
    assert peerName == Qname(peerLabel);
    packets := [];
    var records: seq<seq<byte>> := [];
    ghost var all: seq<seq<byte>> := [];
    RecordsOfNone(peerName, ttl, peerId);
    BatchedStart(id, peerName, ttl, service);
    var i := 0;
    while i < |taken|
      invariant 0 <= i <= |taken| && all == Records(peerName, ttl, peerId, taken[..i])
      invariant |records| < MAX_RECORDS_PER_PACKET
      invariant Batched(id, peerName, ttl, service, all, packets, records)
    {
      RecordsSnoc(peerName, ttl, peerId, taken[..i], taken[i]);
      assert taken[..i + 1] == taken[..i] + [taken[i]];
      var value := TxtValue(taken[i], peerId);
      var record := new ByteVec();
      var r := AppendTxtRecord(record, peerName, ttl, value);
      if r == Written {
        assert record.bytes == TxtRecord(peerName, ttl, value);
        BatchedStep(id, peerName, ttl, service, all, packets, records, record.bytes);
        records := records + [record.bytes];
        all := all + [record.bytes];
      }
      if |records| == MAX_RECORDS_PER_PACKET {
        var packet := QueryResponsePacket(id, peerName, records, ttl, service);
        packets := packets + [packet];
        records := [];
      }
      i := i + 1;
    }
    assert taken[..i] == taken;
    BatchedEnd(id, peerName, ttl, service, all, packets, records);
    if records != [] {
      var packet := QueryResponsePacket(id, peerName, records, ttl, service);
      packets := packets + [packet];
    }
    if packets == [] {
      var packet := QueryResponsePacket(id, peerName, [], ttl, service);
      packets := packets + [packet];
    }
  }

  /** The loop's state: every full batch of the records so far is a packet, the rest are waiting. */
  ghost predicate Batched(id: u16, peerName: seq<byte>, ttl: u32, service: seq<byte>,
                          all: seq<seq<byte>>, packets: seq<seq<byte>>, records: seq<seq<byte>>)
    requires Encodable(service)
  {
    && |records| < MAX_RECORDS_PER_PACKET && |all| == MAX_RECORDS_PER_PACKET * |packets| + |records|
    && records == all[MAX_RECORDS_PER_PACKET * |packets|..]
    && forall k :: 0 <= k < |packets| ==> packets[k] == ResponsePacket(id, peerName, Batch(all, k), ttl, service)
  }

  /** What one more record does to the waiting ones and to the full batches. */
  lemma BatchesKeep<T>(rs: seq<T>, n: nat, r: T)
    requires MAX_RECORDS_PER_PACKET * n <= |rs| < MAX_RECORDS_PER_PACKET * (n + 1)
    ensures (rs + [r])[MAX_RECORDS_PER_PACKET * n..] == rs[MAX_RECORDS_PER_PACKET * n..] + [r]
    ensures forall k :: 0 <= k < n ==> Batch(rs + [r], k) == Batch(rs, k)
    ensures |rs| + 1 == MAX_RECORDS_PER_PACKET * (n + 1) ==> Batch(rs + [r], n) == rs[MAX_RECORDS_PER_PACKET * n..] + [r]
  {
  }

  lemma BatchedStep(id: u16, peerName: seq<byte>, ttl: u32, service: seq<byte>,
                    all: seq<seq<byte>>, packets: seq<seq<byte>>, records: seq<seq<byte>>, r: seq<byte>)
    requires Encodable(service) && Batched(id, peerName, ttl, service, all, packets, records)
    ensures |records| < MAX_RECORDS_PER_PACKET
    ensures if |records| + 1 == MAX_RECORDS_PER_PACKET
            then Batched(id, peerName, ttl, service, all + [r],
                         packets + [ResponsePacket(id, peerName, records + [r], ttl, service)], [])
            else Batched(id, peerName, ttl, service, all + [r], packets, records + [r])
  {
    hide ResponsePacket, Encodable;
    BatchesKeep(all, |packets|, r);
  }

  lemma BatchedStart(id: u16, peerName: seq<byte>, ttl: u32, service: seq<byte>)
    requires Encodable(service)
    ensures Batched(id, peerName, ttl, service, [], [], [])
  {
  }

  lemma BatchedEnd(id: u16, peerName: seq<byte>, ttl: u32, service: seq<byte>,
                   all: seq<seq<byte>>, packets: seq<seq<byte>>, records: seq<seq<byte>>)
    requires Encodable(service) && Batched(id, peerName, ttl, service, all, packets, records)
    ensures records == [] && packets != [] ==> packets == QueryResponse(id, peerName, all, ttl, service)
    ensures records != [] || packets == [] ==>
              packets + [ResponsePacket(id, peerName, records, ttl, service)] == QueryResponse(id, peerName, all, ttl, service)
  {
    hide ResponsePacket, Encodable;
    var n, q := BatchCount(|all|), QueryResponse(id, peerName, all, ttl, service);
    assert |q| == n && forall k :: 0 <= k < n ==> q[k] == ResponsePacket(id, peerName, Batch(all, k), ttl, service);
    if records == [] && packets != [] {
      assert n == |packets|;
    } else {
      assert n == |packets| + 1 && records == Batch(all, |packets|);
    }
  }

  lemma RecordsOfNone(peerName: seq<byte>, ttl: u32, peerId: seq<byte>)
    ensures Records(peerName, ttl, peerId, []) == []
  {
  }

  lemma RecordsSnoc(peerName: seq<byte>, ttl: u32, peerId: seq<byte>, addrs: seq<seq<byte>>, addr: seq<byte>)
    ensures var value := TxtValue(addr, peerId);
            Records(peerName, ttl, peerId, addrs + [addr])
            == Records(peerName, ttl, peerId, addrs)
               + (if TxtOutcome(value) == Written then [TxtRecord(peerName, ttl, value)] else [])
  {
    hide TxtRecord, TxtValue;
    assert (addrs + [addr])[..|addrs|] == addrs;
  }
}
