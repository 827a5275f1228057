/**
 The DNS message format of RFC 1035 section 4.1, as a parser: the meaning of the bytes the
 encoder writes. Name compression is not used by the encoder and not accepted here.
 */
module DnsWire {
  import opened Bytes

  type Name = seq<seq<byte>>

  const PTR: u16 := 12
  const TXT: u16 := 16

  datatype RData = Ptr(target: Name) | Txt(strings: seq<seq<byte>>) | OtherData(bytes: seq<byte>)
  datatype Question = Question(name: Name, qtype: u16, qclass: u16)
  datatype Record = Record(name: Name, rtype: u16, rclass: u16, ttl: u32, data: RData)
  datatype DnsMessage = DnsMessage(
    id: u16, flags: u16, questions: seq<Question>, answers: seq<Record>, authorities: seq<Record>, additionals: seq<Record>)

  function GetBig(s: seq<byte>, k: nat): (r: Read<nat>)
    ensures r.Got? ==> r.value < Pow256(k)
  {
    if |s| < k then Bad else Got(BigEndianValue(s[..k]), s[k..])
  }

  function GetU16(s: seq<byte>): Read<u16> {
    Widths();
    var (n, rest) :- GetBig(s, 2);
    Got(n, rest)
  }

  function GetU32(s: seq<byte>): Read<u32> {
    Widths();
    var (n, rest) :- GetBig(s, 4);
    Got(n, rest)
  }

  /** A domain name: length-prefixed labels up to the empty one (section 3.1). */
  function GetName(s: seq<byte>): (r: Read<Name>)
    ensures r.Got? ==> |r.rest| < |s|
  {
    if s == [] then Bad
    else
      var n: nat := s[0];
      if n >= 64 || |s| < 1 + n then Bad
      else if n == 0 then Got([], s[1..])
      else
        var (labels, rest) :- GetName(s[1 + n..]);
        Got([s[1..1 + n]] + labels, rest)
  }

  /** Character strings filling a buffer (section 3.3.14: one or more of them). */
  function Strings(s: seq<byte>): Option<seq<seq<byte>>> {
    if s == [] then None
    else
      var n: nat := s[0];
      if |s| < 1 + n then None
      else if |s| == 1 + n then Some([s[1..]])
      else
        match Strings(s[1 + n..])
        case None => None
        case Some(more) => Some([s[1..1 + n]] + more)
  }

  function ReadData(rtype: u16, bytes: seq<byte>): Option<RData> {
    if rtype == PTR then
      match GetName(bytes)
      case Got(name, rest) => if rest == [] then Some(Ptr(name)) else None
      case Bad => None
    else if rtype == TXT then
      match Strings(bytes)
      case Some(ss) => Some(Txt(ss))
      case None => None
    else Some(OtherData(bytes))
  }

  function GetQuestion(s: seq<byte>): Read<Question> {
    var (name, s1) :- GetName(s);
    var (qtype, s2) :- GetU16(s1);
    var (qclass, rest) :- GetU16(s2);
    Got(Question(name, qtype, qclass), rest)
  }

  function GetRecord(s: seq<byte>): Read<Record> {
    var (name, s1) :- GetName(s);
    var (rtype, s2) :- GetU16(s1);
    var (rclass, s3) :- GetU16(s2);
    var (ttl, s4) :- GetU32(s3);
    var (len, s5) :- GetU16(s4);
    if |s5| < len then Bad
    else
      match ReadData(rtype, s5[..len])
      case None => Bad
      case Some(data) => Got(Record(name, rtype, rclass, ttl, data), s5[len..])
  }

  function GetQuestions(s: seq<byte>, n: nat): Read<seq<Question>>
    decreases n
  {
    if n == 0 then Got([], s)
    else
      var (q, s1) :- GetQuestion(s);
      var (qs, rest) :- GetQuestions(s1, n - 1);
      Got([q] + qs, rest)
  }

  function GetRecords(s: seq<byte>, n: nat): Read<seq<Record>>
    decreases n
  {
    if n == 0 then Got([], s)
    else
      var (r, s1) :- GetRecord(s);
      var (rs, rest) :- GetRecords(s1, n - 1);
      Got([r] + rs, rest)
  }

  function GetMessage(s: seq<byte>): Read<DnsMessage> {
    var (id, s1) :- GetU16(s);
    var (flags, s2) :- GetU16(s1);
    var (qd, s3) :- GetU16(s2);
    var (an, s4) :- GetU16(s3);
    var (ns, s5) :- GetU16(s4);
    var (ar, s6) :- GetU16(s5);
    GetSections(id, flags, qd, an, ns, ar, s6)
  }

  /** The four sections, given the header's words. */
  function GetSections(id: u16, flags: u16, qd: u16, an: u16, ns: u16, ar: u16, s: seq<byte>): Read<DnsMessage> {
    var (questions, s1) :- GetQuestions(s, qd);
    var (answers, s2) :- GetRecords(s1, an);
    var (authorities, s3) :- GetRecords(s2, ns);
    var (additionals, rest) :- GetRecords(s3, ar);
    Got(DnsMessage(id, flags, questions, answers, authorities, additionals), rest)
  }

  // ---------------------------------------------------------------- reading back what was written

  lemma U16Back(n: u16, rest: seq<byte>)
    ensures GetU16(BigEndian(n, 2) + rest) == Got(n, rest)
  {
    Widths();
    BigEndianRoundTrip(n, 2);
    var s := BigEndian(n, 2) + rest;
    assert s[..2] == BigEndian(n, 2) && s[2..] == rest;
  }

  lemma U32Back(n: u32, rest: seq<byte>)
    ensures GetU32(BigEndian(n, 4) + rest) == Got(n, rest)
  {
    Widths();
    BigEndianRoundTrip(n, 4);
    var s := BigEndian(n, 4) + rest;
    assert s[..4] == BigEndian(n, 4) && s[4..] == rest;
  }

  predicate Labels(name: Name) {
    forall l :: l in name ==> 1 <= |l| < 64
  }

  /** A name's wire form. */
  function NameBytes(name: Name): seq<byte>
    requires Labels(name)
  {
    if name == [] then [0] else [|name[0]|] + name[0] + NameBytes(name[1..])
  }

  lemma NameUncons(s: seq<byte>, l: seq<byte>, rest: seq<byte>)
    requires 1 <= |l| < 64 && s == [|l|] + l + rest && GetName(rest).Got?
    ensures GetName(s) == Got([l] + GetName(rest).value, GetName(rest).rest)
  {
    assert s[1..1 + |l|] == l && s[1 + |l|..] == rest;
  }

  lemma RootBack(rest: seq<byte>)
    ensures GetName([0] + rest) == Got([], rest)
  {
  }

  lemma {:induction false} NameBack(name: Name, rest: seq<byte>)
    requires Labels(name)
    ensures GetName(NameBytes(name) + rest) == Got(name, rest)
  {
    hide GetName;
    var s := NameBytes(name) + rest;
    if name == [] {
      RootBack(rest);
    } else {
      var l, others := name[0], name[1..];
      assert l in name && forall x :: x in others ==> x in name;
      NameBack(others, rest);
      assert s == [|l|] + l + (NameBytes(others) + rest);
      NameUncons(s, l, NameBytes(others) + rest);
      assert name == [l] + others;
    }
  }

  // ---------------------------------------------------------------- a value ends where it ends

  /** What follows a value does not change how it is read. */
  lemma BigExtends(s: seq<byte>, t: seq<byte>, k: nat)
    requires GetBig(s, k).Got?
    ensures GetBig(s + t, k) == Got(GetBig(s, k).value, GetBig(s, k).rest + t)
  {
    assert (s + t)[..k] == s[..k] && (s + t)[k..] == s[k..] + t;
  }

  lemma U16Extends(s: seq<byte>, t: seq<byte>)
    requires GetU16(s).Got?
    ensures GetU16(s + t) == Got(GetU16(s).value, GetU16(s).rest + t)
  {
    hide GetBig;
    BigExtends(s, t, 2);
  }

  lemma U32Extends(s: seq<byte>, t: seq<byte>)
    requires GetU32(s).Got?
    ensures GetU32(s + t) == Got(GetU32(s).value, GetU32(s).rest + t)
  {
    hide GetBig;
    BigExtends(s, t, 4);
  }

  lemma {:induction false} NameExtends(s: seq<byte>, t: seq<byte>)
    requires GetName(s).Got?
    ensures GetName(s + t) == Got(GetName(s).value, GetName(s).rest + t)
  {
    var n: nat := s[0];
    assert (s + t)[0] == s[0] && (s + t)[1 + n..] == s[1 + n..] + t && (s + t)[1..1 + n] == s[1..1 + n];
    if n > 0 {
      NameExtends(s[1 + n..], t);
    }
  }

  lemma QuestionExtends(s: seq<byte>, t: seq<byte>)
    requires GetQuestion(s).Got?
    ensures GetQuestion(s + t) == Got(GetQuestion(s).value, GetQuestion(s).rest + t)
  {
    hide GetName, GetU16;
    var s1 := GetName(s).rest;
    NameExtends(s, t);
    U16Extends(s1, t);
    U16Extends(GetU16(s1).rest, t);
  }

  lemma RecordExtends(s: seq<byte>, t: seq<byte>)
    requires GetRecord(s).Got?
    ensures GetRecord(s + t) == Got(GetRecord(s).value, GetRecord(s).rest + t)
  {
    hide GetName, GetU16, GetU32, ReadData;
    var s1 := GetName(s).rest;
    var s2 := GetU16(s1).rest;
    var s3 := GetU16(s2).rest;
    var s4 := GetU32(s3).rest;
    var (len, s5) := (GetU16(s4).value, GetU16(s4).rest);
    NameExtends(s, t);
    U16Extends(s1, t);
    U16Extends(s2, t);
    U32Extends(s3, t);
    U16Extends(s4, t);
    assert (s5 + t)[..len] == s5[..len] && (s5 + t)[len..] == s5[len..] + t;
  }

  lemma {:induction false} QuestionsExtend(s: seq<byte>, t: seq<byte>, n: nat)
    requires GetQuestions(s, n).Got?
    ensures GetQuestions(s + t, n) == Got(GetQuestions(s, n).value, GetQuestions(s, n).rest + t)
    decreases n
  {
    hide GetQuestion;
    if n > 0 {
      QuestionExtends(s, t);
      QuestionsExtend(GetQuestion(s).rest, t, n - 1);
    }
  }

  lemma {:induction false} RecordsExtend(s: seq<byte>, t: seq<byte>, n: nat)
    requires GetRecords(s, n).Got?
    ensures GetRecords(s + t, n) == Got(GetRecords(s, n).value, GetRecords(s, n).rest + t)
    decreases n
  {
    hide GetRecord;
    if n > 0 {
      RecordExtends(s, t);
      RecordsExtend(GetRecord(s).rest, t, n - 1);
    }
  }

  lemma SectionsExtend(id: u16, flags: u16, qd: u16, an: u16, ns: u16, ar: u16, s: seq<byte>, t: seq<byte>)
    requires GetSections(id, flags, qd, an, ns, ar, s).Got?
    ensures var r := GetSections(id, flags, qd, an, ns, ar, s);
            GetSections(id, flags, qd, an, ns, ar, s + t) == Got(r.value, r.rest + t)
  {
    hide GetQuestions, GetRecords;
    var s1 := GetQuestions(s, qd).rest;
    var s2 := GetRecords(s1, an).rest;
    QuestionsExtend(s, t, qd);
    RecordsExtend(s1, t, an);
    RecordsExtend(s2, t, ns);
    RecordsExtend(GetRecords(s2, ns).rest, t, ar);
  }

  lemma MessageExtends(s: seq<byte>, t: seq<byte>)
    requires GetMessage(s).Got?
    ensures GetMessage(s + t) == Got(GetMessage(s).value, GetMessage(s).rest + t)
  {
    hide GetU16, GetSections;
    var s1 := GetU16(s).rest;
    var s2 := GetU16(s1).rest;
    var s3 := GetU16(s2).rest;
    var s4 := GetU16(s3).rest;
    var s5 := GetU16(s4).rest;
    U16Extends(s, t);
    U16Extends(s1, t);
    U16Extends(s2, t);
    U16Extends(s3, t);
    U16Extends(s4, t);
    U16Extends(s5, t);
    SectionsExtend(GetU16(s).value, GetU16(s1).value, GetU16(s2).value, GetU16(s3).value, GetU16(s4).value, GetU16(s5).value,
                   GetU16(s5).rest, t);
  }

  /** No strict prefix of a message that fills its buffer is a message. */
  lemma NoPrefixParses(s: seq<byte>, k: nat)
    requires GetMessage(s).Got? && GetMessage(s).rest == [] && k < |s|
    ensures GetMessage(s[..k]).Bad?
  {
    hide GetMessage;
    assert s[..k] + s[k..] == s;
    if GetMessage(s[..k]).Got? {
      MessageExtends(s[..k], s[k..]);
    }
  }
}
