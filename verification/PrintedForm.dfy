/** A text form of addresses that parses back, to show that there is one: every byte as two letters. */
module PrintedForm {
  import opened Bytes
  import opened Addresses
  import opened DnsEncoder
  import opened MdnsPeer

  const STOP: byte := 0x2E
  const SLASH: byte := 0x2F

  function Letters(s: seq<byte>): (r: seq<byte>)
    ensures |r| == 2 * |s| && forall i :: 0 <= i < |r| ==> 0x41 <= r[i] <= 0x50
  {
    if s == [] then [] else Pair(s[0]) + Letters(s[1..])
  }

  function Shown(c: Component): seq<byte> {
    match c
    case P2p(peer) => [0x70] + Letters(peer) + [STOP]
    case Transport(spec) => [0x74] + Letters(spec) + [STOP]
  }

  function Print(a: Multiaddr): seq<byte> {
    if a == [] then [] else Shown(a[0]) + Print(a[1..])
  }

  function Printed(a: Multiaddr, p: PeerId): seq<byte> {
    Print(a) + (Ascii("/p2p/") + Letters(p))
  }

  ghost function Parse(s: seq<byte>): Option<Multiaddr> {
    if exists a, p :: Printed(a, p) == s then
      var a, p :| Printed(a, p) == s;
      Some(a + [P2p(p)])
    else None
  }

  ghost function Form(): TextForm { TextForm(Print, Parse, Letters) }

  lemma Cancel(a: seq<byte>, x: seq<byte>, b: seq<byte>, y: seq<byte>)
    requires |a| == |b| && a + x == b + y
    ensures a == b && x == y
  {
    assert a == (a + x)[..|a|] && b == (b + y)[..|b|];
    assert x == (a + x)[|a|..] && y == (b + y)[|b|..];
  }

  function Pair(b: byte): seq<byte> { [0x41 + b / 16, 0x41 + b % 16] }

  lemma PairTells(b: byte, c: byte)
    requires Pair(b) == Pair(c)
    ensures b == c
  {
    assert Pair(b)[0] == Pair(c)[0] && Pair(b)[1] == Pair(c)[1];
  }

  /** Letters and a stop start with the first byte's pair, or the stop. */
  lemma LettersFirst(p: seq<byte>, x: seq<byte>)
    ensures var s := Letters(p) + ([STOP] + x);
            if p == [] then s == [STOP] + x else s == Pair(p[0]) + (Letters(p[1..]) + ([STOP] + x))
  {
    if p == [] {
      assert [] + ([STOP] + x) == [STOP] + x;
    } else {
      Assoc(Pair(p[0]), Letters(p[1..]), [STOP] + x);
    }
  }

  lemma {:induction false} LettersEnd(p: seq<byte>, q: seq<byte>, x: seq<byte>, y: seq<byte>)
    requires Letters(p) + ([STOP] + x) == Letters(q) + ([STOP] + y)
    ensures p == q && x == y
  {
    hide Letters, Pair;
    LettersFirst(p, x);
    LettersFirst(q, y);
    PairsAreLetters();
    var s := Letters(p) + ([STOP] + x);
    assert p == [] <==> s[0] == STOP;
    assert q == [] <==> s[0] == STOP;
    if p == [] {
      Cancel([STOP], x, [STOP], y);
    } else {
      Cancel(Pair(p[0]), Letters(p[1..]) + ([STOP] + x), Pair(q[0]), Letters(q[1..]) + ([STOP] + y));
      PairTells(p[0], q[0]);
      LettersEnd(p[1..], q[1..], x, y);
      assert p == [p[0]] + p[1..] && q == [q[0]] + q[1..];
    }
  }

  lemma PairsAreLetters()
    ensures forall b: byte :: |Pair(b)| == 2 && Pair(b)[0] >= 0x41
  {
  }

  function Tag(c: Component): byte { if c.P2p? then 0x70 else 0x74 }
  function Payload(c: Component): seq<byte> { if c.P2p? then c.peer else c.spec }

  lemma ShownFirst(c: Component, x: seq<byte>)
    ensures Shown(c) + x == [Tag(c)] + (Letters(Payload(c)) + ([STOP] + x))
  {
    hide Letters;
    var p := Letters(Payload(c));
    Assoc([Tag(c)], p, [STOP]);
    Assoc([Tag(c)], p + [STOP], x);
    Assoc(p, [STOP], x);
  }

  lemma ShownEnds(c: Component, d: Component, x: seq<byte>, y: seq<byte>)
    requires Shown(c) + x == Shown(d) + y
    ensures c == d && x == y
  {
    hide Letters, Shown;
    ShownFirst(c, x);
    ShownFirst(d, y);
    Cancel([Tag(c)], Letters(Payload(c)) + ([STOP] + x), [Tag(d)], Letters(Payload(d)) + ([STOP] + y));
    assert [Tag(c)][0] == [Tag(d)][0];
    LettersEnd(Payload(c), Payload(d), x, y);
  }

  lemma PrintFirst(a: Multiaddr, x: seq<byte>)
    ensures var s := Print(a) + ([SLASH] + x);
            && (if a == [] then s == [SLASH] + x else s == Shown(a[0]) + (Print(a[1..]) + ([SLASH] + x)))
            && (a == [] <==> s[0] == SLASH)
  {
    hide Letters;
    if a == [] {
      assert [] + ([SLASH] + x) == [SLASH] + x;
    } else {
      Assoc(Shown(a[0]), Print(a[1..]), [SLASH] + x);
      ShownFirst(a[0], Print(a[1..]) + ([SLASH] + x));
    }
  }

  lemma {:induction false} PrintEnds(a: Multiaddr, b: Multiaddr, x: seq<byte>, y: seq<byte>)
    requires Print(a) + ([SLASH] + x) == Print(b) + ([SLASH] + y)
    ensures a == b && x == y
  {
    hide Letters, Shown, Print;
    PrintFirst(a, x);
    PrintFirst(b, y);
    if a == [] {
      Cancel([SLASH], x, [SLASH], y);
    } else {
      ShownEnds(a[0], b[0], Print(a[1..]) + ([SLASH] + x), Print(b[1..]) + ([SLASH] + y));
      PrintEnds(a[1..], b[1..], x, y);
      assert a == [a[0]] + a[1..] && b == [b[0]] + b[1..];
    }
  }

  lemma PrintedIsInjective(a: Multiaddr, p: PeerId, b: Multiaddr, q: PeerId)
    requires Printed(a, p) == Printed(b, q)
    ensures a == b && p == q
  {
    hide Letters, Print;
    var mark := Ascii("p2p/");
    assert Ascii("/p2p/") == [SLASH] + mark;
    assert Printed(a, p) == Print(a) + ([SLASH] + (mark + Letters(p)));
    assert Printed(b, q) == Print(b) + ([SLASH] + (mark + Letters(q)));
    PrintEnds(a, b, mark + Letters(p), mark + Letters(q));
    assert (mark + Letters(p))[|mark|..] == Letters(p) && (mark + Letters(q))[|mark|..] == Letters(q);
    LettersEnd(p, q, [], []);
  }

  /** It parses back, whatever address and peer are printed. */
  lemma FormIsFaithful()
    ensures Form().Faithful()
  {
    hide Printed;
    forall a, p ensures Parse(Printed(a, p)) == Some(a + [P2p(p)]) {
      var b, q :| Printed(b, q) == Printed(a, p) && Parse(Printed(a, p)) == Some(b + [P2p(q)]);
      PrintedIsInjective(a, p, b, q);
    }
    FormPrints();
  }

  lemma FormPrints()
    ensures forall a, p :: Form().display(a) + (Ascii("/p2p/") + Form().base58(p)) == Printed(a, p)
  {
  }

  /** A one-component address prints as ASCII without spaces, two letters a byte. */
  lemma OneComponentPrints(spec: seq<byte>)
    ensures var s := Print([Transport(spec)]);
            |s| == 2 * |spec| + 2 && forall b :: b in s ==> 0x2E <= b < 0x80
  {
    hide Letters;
    var a: Multiaddr := [Transport(spec)];
    assert a[1..] == [] && Print([]) == [];
    assert Print(a) == [0x74] + Letters(spec) + [STOP];
  }

  lemma NoLetters()
    ensures Letters([]) == []
  {
  }
}
