/**
 Messages from older peers are bare contents or raw text. They are told from network messages
 only by how their bytes decode, so each kind has its own condition for being read as meant.
 */
module Legacy {
  import opened Bytes
  import opened Utf8
  import opened ClipboardContent
  import opened Chunking
  import opened Reassembly
  import EventLoop

  const TWO_32: nat := 0x1_0000_0000

  lemma BareIsLegacyUnlessMessage(c: Content)
    requires c.Representable()
    ensures Classify(ContentToBytes(c)) == Incoming.Legacy(c) <==> GetMessage(ContentToBytes(c)).Bad?
  {
    hide GetMessage, ContentToBytes, Content.Representable;
    DecodeEncodedContent(c);
  }

  // ---------------------------------------------------------------- what the receiver gives back

  /** Whatever the receiver holds, it returns this content for the buffer and leaves its table alone. */
  ghost predicate GivesBack(s: seq<byte>, c: Content) {
    forall states, src, now, hash :: Step(states, Deliver(src, s, now), hash) == (states, Returned(Some(c)))
  }

  /** So over any trace it survives, the content is delivered, and nothing else happens. */
  lemma GivenBackIsDelivered(s: seq<byte>, c: Content, evs: seq<Event>, src: nat, now: nat, hash: Hasher)
    requires GivesBack(s, c) && Survives(map[], evs, hash)
    ensures var more := evs + [Deliver(src, s, now)];
            && Survives(map[], more, hash) && Final(map[], more, hash) == Final(map[], evs, hash)
            && EventLoop.Deliveries(more, hash) == EventLoop.Deliveries(evs, hash) + [(src, c)]
  {
    hide Step, Final, Survives, EventLoop.Deliveries;
    EventLoop.DeliveriesSnoc(evs, Deliver(src, s, now), hash);
    assert Step(Final(map[], evs, hash), Deliver(src, s, now), hash) == (Final(map[], evs, hash), Returned(Some(c)));
  }

  /** A bare content is given back if and only if its bytes do not decode as a network message. */
  lemma BareIsGivenBackIff(c: Content)
    requires c.Representable()
    ensures GivesBack(ContentToBytes(c), c) <==> GetMessage(ContentToBytes(c)).Bad?
  {
    hide GetMessage, ContentToBytes, Content.Representable, ContentFromBytes, Complete;
    var s := ContentToBytes(c);
    DecodeEncodedContent(c);
    if GetMessage(s).Got? {
      MessageGivesLess(s);
      NotGivenBack(s, c);
    }
  }

  /** A message is not given back as a content that its bytes cannot hold. */
  lemma NotGivenBack(s: seq<byte>, c: Content)
    requires GetMessage(s).Got? && (GetMessage(s).value.Direct? ==> GetMessage(s).value.content != c)
    ensures !GivesBack(s, c)
  {
    hide GetMessage, ContentFromBytes, Complete;
    var hash: Hasher := (_ => seq(32, _ => 0));
    var reply := Step(map[], Deliver(0, s, 0), hash).1;
    assert reply != Returned(Some(c));
  }

  /** The content of a direct message is shorter than the message. */
  lemma MessageGivesLess(s: seq<byte>)
    requires GetMessage(s).Got?
    ensures GetMessage(s).value.Direct? ==> |ContentToBytes(GetMessage(s).value.content)| < |s|
  {
    hide GetContent, ContentToBytes, LittleEndianValue, GetText, GetBlob;
    if GetMessage(s).value.Direct? {
      ContentCanonical(GetU32(s).rest);
    }
  }

  /** A buffer that decodes as neither message nor content is given back as text: itself if it is UTF-8, its lossy form if not. */
  lemma UndecodedIsGivenBackAsText(s: seq<byte>)
    requires GetMessage(s).Bad? && GetContent(s).Bad?
    ensures var t := FromUtf8Lossy(s); GivesBack(s, Text(t)) && ValidUtf8(t) && (t == s <==> ValidUtf8(s))
  {
    hide GetMessage, GetContent, FromUtf8Lossy, ValidUtf8;
    LossyIsValid(s);
  }

  // ---------------------------------------------------------------- how lengths read when shifted

  lemma TagOf(tag: u32, body: seq<byte>)
    ensures GetU32(LittleEndian(tag, 4) + body) == Got(tag, body)
  {
    U32RoundTrip(tag, body);
  }

  lemma FourDigits(n: nat, k: nat)
    ensures LittleEndian(n, k + 4)
            == [n % 256, n / 256 % 256, n / 256 / 256 % 256, n / 256 / 256 / 256 % 256]
               + LittleEndian(n / 256 / 256 / 256 / 256, k)
  {
    assert LittleEndian(n, k + 4) == [n % 256] + LittleEndian(n / 256, k + 3);
    assert LittleEndian(n / 256, k + 3) == [n / 256 % 256] + LittleEndian(n / 256 / 256, k + 2);
    assert LittleEndian(n / 256 / 256, k + 2) == [n / 256 / 256 % 256] + LittleEndian(n / 256 / 256 / 256, k + 1);
  }

  /** Eight length bytes read as two four-byte numbers, the low half first. */
  lemma LengthHalves(n: u64, rest: seq<byte>)
    ensures LittleEndian(n, 8) + rest == LittleEndian(n % TWO_32, 4) + (LittleEndian(n / TWO_32, 4) + rest)
  {
    FourDigits(n, 4);
    FourDigits(n % TWO_32, 0);
    SameDigits(n);
    assert LittleEndian(n, 8) == LittleEndian(n % TWO_32, 4) + LittleEndian(n / TWO_32, 4);
    Assoc(LittleEndian(n % TWO_32, 4), LittleEndian(n / TWO_32, 4), rest);
  }

  /** The low four digits of a number are those of its low half; the rest is its high half. */
  lemma SameDigits(n: u64)
    ensures var lo := n % TWO_32;
            && n % 256 == lo % 256 && n / 256 % 256 == lo / 256 % 256
            && n / 256 / 256 % 256 == lo / 256 / 256 % 256 && n / 256 / 256 / 256 % 256 == lo / 256 / 256 / 256 % 256
    ensures n / 256 / 256 / 256 / 256 == n / TWO_32
  {
    var lo, hi := n % TWO_32, n / TWO_32;
    DigitAdd(lo, 0x100_0000 * hi);
    DigitAdd(lo / 256, 0x1_0000 * hi);
    DigitAdd(lo / 256 / 256, 0x100 * hi);
    DigitAdd(lo / 256 / 256 / 256, hi);
  }

  lemma DigitAdd(a: nat, b: nat)
    ensures (a + 256 * b) % 256 == a % 256 && (a + 256 * b) / 256 == a / 256 + b
  {
  }

  lemma ValueCons(d: byte, t: seq<byte>)
    ensures LittleEndianValue([d] + t) == d + 256 * LittleEndianValue(t)
  {
    assert ([d] + t)[1..] == t;
  }

  lemma FourMore(a: seq<byte>, b: seq<byte>)
    requires |a| == 4
    ensures LittleEndianValue(a + b) == LittleEndianValue(a) + TWO_32 * LittleEndianValue(b)
  {
    hide LittleEndianValue;
    forall t | t in {b, []} ensures LittleEndianValue(a + t)
      == a[0] + 256 * (a[1] + 256 * (a[2] + 256 * (a[3] + 256 * LittleEndianValue(t))))
    {
      ValueCons(a[3], t);
      ValueCons(a[2], [a[3]] + t);
      ValueCons(a[1], [a[2]] + ([a[3]] + t));
      ValueCons(a[0], [a[1]] + ([a[2]] + ([a[3]] + t)));
      assert a + t == [a[0]] + ([a[1]] + ([a[2]] + ([a[3]] + t)));
    }
    assert a + [] == a;
    NoBytes();
  }

  lemma NoBytes()
    ensures LittleEndianValue([]) == 0
  {
  }

  /** A number's four bytes and the next four make a length, if there are that many. */
  lemma ShiftedLength(high: u32, t: seq<byte>)
    ensures var s := LittleEndian(high, 4) + t;
            if |t| < 4 then GetU64(s).Bad?
            else GetU64(s) == Got(high + TWO_32 * LittleEndianValue(t[..4]), t[4..])
  {
    hide LittleEndian, LittleEndianValue, Pow256;
    var s := LittleEndian(high, 4) + t;
    Widths();
    if |t| >= 4 {
      assert s[..8] == LittleEndian(high, 4) + t[..4] && s[8..] == t[4..];
      FourMore(LittleEndian(high, 4), t[..4]);
      LittleEndianRoundTrip(high, 4);
      EightBytes(s);
    } else {
      assert |s| < 8;
    }
  }

  lemma EightBytes(s: seq<byte>)
    requires |s| >= 8
    ensures GetU64(s) == Got(LittleEndianValue(s[..8]), s[8..])
  {
    hide LittleEndianValue;
  }

  /** The length a reader takes for the first field of a buffer, one tag into the buffer's own length. */
  function Shifted(s: seq<byte>): nat
    requires |s| >= 4
  {
    |s| / TWO_32 + TWO_32 * LittleEndianValue(s[..4])
  }

  /**
   A text whose bytes form a direct message: the low half of its length is one of the four content
   tags, and what follows can be read as that content's fields.
   */
  predicate TextMisread(t: seq<byte>) {
    && |t| >= 4
    && var tag, n, rest := |t| % TWO_32, Shifted(t), t[4..];
       if tag == 0 then n <= |rest| && ValidUtf8(rest[..n])
       else if tag == 1 then n <= |rest|
       else if tag == 2 then n <= |rest| && ValidUtf8(rest[..n]) && GetBlob(rest[n..]).Got?
       else tag == 3 && GetEntries(rest, n).Got?
  }

  /** A bare text, of any length, is returned unchanged if and only if its bytes do not form a direct message. */
  lemma BareTextIsLegacyIff(t: seq<byte>)
    requires IsString(t)
    ensures GivesBack(ContentToBytes(Text(t)), Text(t)) <==> !TextMisread(t)
    ensures Classify(ContentToBytes(Text(t))) == Incoming.Legacy(Text(t)) <==> !TextMisread(t)
  {
    hide ValidUtf8, LittleEndian, LittleEndianValue, Classify, GetEntries, GivesBack;
    var tag, high := |t| % TWO_32, |t| / TWO_32;
    BareIsLegacyUnlessMessage(Text(t));
    BareIsGivenBackIff(Text(t));
    TagOf(0, PutBlob(t));
    LengthHalves(|t|, t);
    TagOf(tag, LittleEndian(high, 4) + t);
    ShiftedLength(high, t);
  }

  /** So a text under 2^32 bytes is never taken for a network message, nor is one whose length leaves more than 3 modulo 2^32. */
  lemma BareTextIsUnambiguous(t: seq<byte>)
    requires IsString(t) && (|t| < TWO_32 || |t| % TWO_32 > 3)
    ensures GivesBack(ContentToBytes(Text(t)), Text(t))
  {
    hide ValidUtf8, Classify, ContentToBytes, Shifted, GetBlob, GetEntries, GivesBack;
    BareTextIsLegacyIff(t);
  }

  /** And 2^32 NUL characters are taken for a direct message holding one of them. */
  lemma LongTextIsMisread()
    ensures var t := seq(TWO_32, _ => 0 as byte);
            && ValidUtf8(t) && Classify(ContentToBytes(Text(t))) == Message(Direct(Text([0])))
            && GivesBack(ContentToBytes(Text(t)), Text([0]))
  {
    hide Classify, ContentToBytes, ValidUtf8, LittleEndian, PutBlob;
    var t := seq(TWO_32, _ => 0 as byte);
    AsciiIsValid(t);
    ZeroText(t);
    MisreadText(t, LittleEndian(1, 8) + t[4..]);
  }

  lemma ZeroText(t: seq<byte>)
    requires |t| == TWO_32 && t[0] == 0 && t[1] == 0 && t[2] == 0 && t[3] == 0
    ensures PutBlob(t) == LittleEndian(0, 4) + (LittleEndian(1, 8) + t[4..])
  {
    hide LittleEndian;
    LengthBytes();
    assert t == [0, 0, 0, 0] + t[4..];
  }

  lemma LengthBytes()
    ensures LittleEndian(TWO_32, 8) == [0, 0, 0, 0, 1, 0, 0, 0]
    ensures LittleEndian(1, 8) == [1, 0, 0, 0, 0, 0, 0, 0] && LittleEndian(0, 4) == [0, 0, 0, 0]
  {
    FourDigits(0, 0);
    FourDigits(1, 4);
    FourDigits(1, 0);
    FourDigits(TWO_32, 4);
  }

  lemma MisreadText(t: seq<byte>, body: seq<byte>)
    requires |t| == TWO_32 && body == LittleEndian(1, 8) + t[4..] && t[4] == 0
    requires PutBlob(t) == LittleEndian(0, 4) + body
    ensures Classify(ContentToBytes(Text(t))) == Message(Direct(Text([0])))
  {
    hide LittleEndian, LittleEndianValue;
    TagOf(0, PutBlob(t));
    TagOf(0, body);
    U64RoundTrip(1, t[4..]);
    assert t[4..][..1] == [0];
    AsciiIsValid([0]);
  }

  /** A bare image is never taken for a network message and is returned unchanged. */
  lemma BareImageIsUnambiguous(b: seq<byte>)
    requires FitsLength(b)
    ensures GivesBack(ContentToBytes(Image(b)), Image(b))
  {
    hide GivesBack;
    BareIsGivenBackIff(Image(b));
    TagOf(1, PutBlob(b));
    BlobRoundTrip(b, []);
    assert PutBlob(b) + [] == PutBlob(b);
  }

  lemma NoTagNoValue(s: seq<byte>)
    requires |s| >= 4 ==> LittleEndianValue(s[..4]) > 3
    ensures GetMessage(s).Bad? && GetContent(s).Bad?
  {
    hide LittleEndianValue;
  }

  /** Raw text of an old peer is returned verbatim if and only if it fails both decoders. */
  lemma RawTextIsVerbatimIff(s: seq<byte>)
    requires ValidUtf8(s)
    ensures GivesBack(s, Text(s)) <==> GetMessage(s).Bad? && GetContent(s).Bad?
  {
    hide GetMessage, GetContent, ValidUtf8, FromUtf8Lossy, ContentToBytes, Content.Representable, GivesBack;
    LossyIsValid(s);
    TextIsLonger(s);
    if GetMessage(s).Got? {
      MessageGivesLess(s);
      NotGivenBack(s, Text(s));
    } else if GetContent(s).Got? {
      ContentCanonical(s);
      ContentIsGivenBack(s);
    } else {
      UndecodedIsGivenBackAsText(s);
    }
  }

  /** A content decoded from a buffer that is no message is what is given back, and only that. */
  lemma ContentIsGivenBack(s: seq<byte>)
    requires GetMessage(s).Bad? && GetContent(s).Got?
    ensures GivesBack(s, GetContent(s).value)
    ensures forall c :: GivesBack(s, c) ==> c == GetContent(s).value
  {
    hide GetMessage, GetContent;
    var hash: Hasher := (_ => seq(32, _ => 0));
    var _ := Step(map[], Deliver(0, s, 0), hash);
  }

  /** A text's encoding is longer than the text. */
  lemma TextIsLonger(s: seq<byte>)
    ensures |ContentToBytes(Text(s))| == |s| + 12
  {
  }

  /** Which it does unless it starts like a tag: one of 0 to 3, then three NULs. */
  lemma RawTextIsVerbatim(s: seq<byte>)
    requires ValidUtf8(s) && !(|s| >= 4 && s[0] <= 3 && s[1] == 0 && s[2] == 0 && s[3] == 0)
    ensures GivesBack(s, Text(s))
  {
    hide GetMessage, GetContent, ValidUtf8, LittleEndianValue, GivesBack;
    RawTextIsVerbatimIff(s);
    if |s| >= 4 {
      TagValue(s[0], s[1], s[2], s[3]);
      assert s[..4] == [s[0], s[1], s[2], s[3]];
    }
    NoTagNoValue(s);
  }

  lemma TagValue(a: byte, b: byte, c: byte, d: byte)
    ensures LittleEndianValue([a, b, c, d]) == a + 256 * (b + 256 * (c + 256 * d))
  {
    hide LittleEndianValue;
    NoBytes();
    ValueCons(d, []);
    ValueCons(c, [d]);
    ValueCons(b, [c, d]);
    ValueCons(a, [b, c, d]);
    assert [d] + [] == [d] && [c] + [d] == [c, d] && [b] + [c, d] == [b, c, d] && [a] + [b, c, d] == [a, b, c, d];
  }

  /** Twelve NULs are a text that does not come back: they decode as an empty one. */
  lemma TwelveNulsAreEmptyText()
    ensures var s := seq(12, _ => 0 as byte); ValidUtf8(s) && GivesBack(s, Text([]))
  {
    hide GivesBack, ValidUtf8, LittleEndian, LittleEndianValue, FromUtf8Lossy;
    var s := seq(12, _ => 0 as byte);
    AsciiIsValid(s);
    AsciiIsValid([]);
    LengthBytes();
    Zeroes();
    TagOf(0, LittleEndian(0, 8));
    TagOf(0, LittleEndian(0, 4));
    assert s == LittleEndian(0, 4) + LittleEndian(0, 8);
    assert LittleEndian(0, 8) == LittleEndian(0, 4) + LittleEndian(0, 4);
    U64RoundTrip(0, []);
    assert LittleEndian(0, 8) + [] == LittleEndian(0, 8);
    ContentIsGivenBack(s);
  }

  lemma Zeroes()
    ensures LittleEndian(0, 8) == [0, 0, 0, 0, 0, 0, 0, 0]
  {
    FourDigits(0, 4);
    FourDigits(0, 0);
  }

  /**
   A bare file, of any length, is returned as sent if and only if its bytes cannot be read as a
   chunk's data: the length they would have to hold, shifted by four bytes, is more than they do.
   */
  lemma BareFileIsLegacyIff(name: seq<byte>, b: seq<byte>)
    requires IsString(name) && FitsLength(b)
    ensures GivesBack(ContentToBytes(File(name, b)), File(name, b)) <==> |b| < 4 || |b| - 4 < Shifted(b)
  {
    hide ValidUtf8, LittleEndian, Classify, PutBlob, GetMessage, GetBlob, GetU32, Shifted, GivesBack;
    BareIsGivenBackIff(File(name, b));
    ChunkBody(name, PutBlob(b));
    ShiftedBlob(b);
  }

  /** A tag for a chunk and an id leave it to the rest whether there is a chunk. */
  lemma ChunkBody(name: seq<byte>, body: seq<byte>)
    requires IsString(name)
    ensures var s := GetU32(body);
            GetMessage(LittleEndian(2, 4) + (PutBlob(name) + body)).Bad? <==> s.Bad? || GetBlob(s.rest).Bad?
  {
    hide ValidUtf8, LittleEndian, PutBlob, GetBlob, GetText, GetU32;
    TagOf(2, PutBlob(name) + body);
    BlobRoundTrip(name, body);
  }

  /** Reading a blob's bytes as an index and a blob. */
  lemma ShiftedBlob(b: seq<byte>)
    requires FitsLength(b)
    ensures var s := GetU32(PutBlob(b));
            s.Got? && (GetBlob(s.rest).Bad? <==> |b| < 4 || |b| - 4 < Shifted(b))
  {
    hide LittleEndian, LittleEndianValue, GetU32, GetU64;
    LengthHalves(|b|, b);
    TagOf(|b| % TWO_32, LittleEndian(|b| / TWO_32, 4) + b);
    ShiftedLength(|b| / TWO_32, b);
  }

  /** Below 2^32 bytes that means: unless its bytes open with four NULs. */
  lemma ShortFileIsLegacyIff(name: seq<byte>, b: seq<byte>)
    requires IsString(name) && |b| < TWO_32
    ensures GivesBack(ContentToBytes(File(name, b)), File(name, b)) <==> !([0, 0, 0, 0] <= b)
  {
    hide ValidUtf8, LittleEndianValue, Classify, ContentToBytes, GivesBack;
    BareFileIsLegacyIff(name, b);
    if |b| >= 4 {
      ZeroPrefix(b);
    }
  }

  lemma ZeroPrefix(b: seq<byte>)
    requires |b| >= 4
    ensures [0, 0, 0, 0] <= b <==> LittleEndianValue(b[..4]) == 0
  {
    LittleEndianCanonical(b[..4]);
    assert LittleEndian(0, 4) == [0, 0, 0, 0];
    if [0, 0, 0, 0] <= b {
      assert b[..4] == LittleEndian(0, 4);
      Widths();
      LittleEndianRoundTrip(0, 4);
    }
  }

  lemma {:induction false} EntriesAreLong(fs: seq<FileEntry>)
    ensures |PutEntries(fs)| >= 16 * |fs|
  {
    if fs != [] {
      EntriesAreLong(fs[1..]);
    }
  }

  /** A bare list of n files is returned as sent unless its first n bytes of entries are text, which make it an end message. */
  lemma BareFilesIsLegacyIff(fs: seq<FileEntry>)
    requires Files(fs).Representable()
    ensures |PutEntries(fs)| >= |fs|
    ensures GivesBack(ContentToBytes(Files(fs)), Files(fs)) <==> !ValidUtf8(PutEntries(fs)[..|fs|])
  {
    hide ValidUtf8, GivesBack;
    EntriesAreLong(fs);
    BareIsGivenBackIff(Files(fs));
    TagOf(3, LittleEndian(|fs|, 8) + PutEntries(fs));
    U64RoundTrip(|fs|, PutEntries(fs));
  }
}
