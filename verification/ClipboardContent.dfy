/**
 The clipboard contents, the network messages, and their bincode 1 form: variant tags are
 four little-endian bytes, lengths eight, integers fixed-width, strings are checked for
 UTF-8, and a decoder ignores whatever follows the value it reads.
 */
module ClipboardContent {
  import opened Bytes
  import opened Utf8

  /** A file of a multi-file copy: relative name and contents. */
  datatype FileEntry = FileEntry(name: seq<byte>, bytes: seq<byte>) {
    predicate Representable() {
      IsString(name) && FitsLength(bytes)
    }
  }

  datatype Content =
    | Text(text: seq<byte>)
    | Image(pngBytes: seq<byte>)
    | File(name: seq<byte>, bytes: seq<byte>)
    | Files(files: seq<FileEntry>)
  {
    /** Holds of every value the program can build: strings are UTF-8 and lengths fit in 64 bits. */
    predicate Representable() {
      match this
      case Text(t) => IsString(t)
      case Image(b) => FitsLength(b)
      case File(n, b) => IsString(n) && FitsLength(b)
      case Files(fs) => |fs| < 0x1_0000_0000_0000_0000 && forall f :: f in fs ==> f.Representable()
    }
  }

  datatype NetworkMessage =
    | Direct(content: Content)
    | ChunkStart(transferId: seq<byte>, totalChunks: u32, dataHash: seq<byte>, totalSize: u64)
    | Chunk(transferId: seq<byte>, index: u32, data: seq<byte>)
    | ChunkEnd(transferId: seq<byte>)
  {
    predicate Representable() {
      match this
      case Direct(c) => c.Representable()
      case ChunkStart(id, _, h, _) => IsString(id) && IsString(h)
      case Chunk(id, _, d) => IsString(id) && FitsLength(d)
      case ChunkEnd(id) => IsString(id)
    }
  }

  /** A byte vector whose length fits the format's length field. */
  predicate FitsLength(s: seq<byte>) {
    |s| < 0x1_0000_0000_0000_0000
  }

  predicate IsString(s: seq<byte>) {
    FitsLength(s) && ValidUtf8(s)
  }

  // ---------------------------------------------------------------- encoding

  function PutBlob(b: seq<byte>): seq<byte> {
    LittleEndian(|b|, 8) + b
  }

  function PutEntries(fs: seq<FileEntry>): seq<byte> {
    if fs == [] then []
    else PutBlob(fs[0].name) + (PutBlob(fs[0].bytes) + PutEntries(fs[1..]))
  }

  function ContentToBytes(c: Content): seq<byte> {
    match c
    case Text(t) => LittleEndian(0, 4) + PutBlob(t)
    case Image(b) => LittleEndian(1, 4) + PutBlob(b)
    case File(n, b) => LittleEndian(2, 4) + (PutBlob(n) + PutBlob(b))
    case Files(fs) => LittleEndian(3, 4) + (LittleEndian(|fs|, 8) + PutEntries(fs))
  }

  function MessageToBytes(m: NetworkMessage): seq<byte> {
    match m
    case Direct(c) => LittleEndian(0, 4) + ContentToBytes(c)
    case ChunkStart(id, n, h, size) =>
      LittleEndian(1, 4) + (PutBlob(id) + (LittleEndian(n, 4) + (PutBlob(h) + LittleEndian(size, 8))))
    case Chunk(id, i, d) => LittleEndian(2, 4) + (PutBlob(id) + (LittleEndian(i, 4) + PutBlob(d)))
    case ChunkEnd(id) => LittleEndian(3, 4) + PutBlob(id)
  }

  // ---------------------------------------------------------------- decoding

  function GetUint(s: seq<byte>, k: nat): (r: Read<nat>)
    ensures r.Got? ==> r.value < Pow256(k)
  {
    if |s| < k then Bad else Got(LittleEndianValue(s[..k]), s[k..])
  }

  function GetU32(s: seq<byte>): Read<u32> {
    Widths();
    var (n, rest) :- GetUint(s, 4);
    Got(n, rest)
  }

  function GetU64(s: seq<byte>): Read<u64> {
    Widths();
    var (n, rest) :- GetUint(s, 8);
    Got(n, rest)
  }

  function GetBlob(s: seq<byte>): Read<seq<byte>> {
    var (n, rest) :- GetU64(s);
    if |rest| < n then Bad else Got(rest[..n], rest[n..])
  }

  function GetText(s: seq<byte>): Read<seq<byte>> {
    var (b, rest) :- GetBlob(s);
    if ValidUtf8(b) then Got(b, rest) else Bad
  }

  function GetEntries(s: seq<byte>, n: nat): Read<seq<FileEntry>> {
    if n == 0 then Got([], s)
    else
      var (name, s1) :- GetText(s);
      var (bytes, s2) :- GetBlob(s1);
      var (others, s3) :- GetEntries(s2, n - 1);
      Got([FileEntry(name, bytes)] + others, s3)
  }

  function GetContent(s: seq<byte>): Read<Content> {
    var (tag, body) :- GetU32(s);
    if tag == 0 then
      var (t, rest) :- GetText(body); Got(Text(t), rest)
    else if tag == 1 then
      var (b, rest) :- GetBlob(body); Got(Image(b), rest)
    else if tag == 2 then
      var (n, s1) :- GetText(body);
      var (b, rest) :- GetBlob(s1);
      Got(File(n, b), rest)
    else if tag == 3 then
      var (n, s1) :- GetU64(body);
      var (fs, rest) :- GetEntries(s1, n);
      Got(Files(fs), rest)
    else Bad
  }

  function GetMessage(s: seq<byte>): Read<NetworkMessage> {
    var (tag, body) :- GetU32(s);
    if tag == 0 then
      var (c, rest) :- GetContent(body); Got(Direct(c), rest)
    else if tag == 1 then
      var (id, s1) :- GetText(body);
      var (n, s2) :- GetU32(s1);
      var (h, s3) :- GetText(s2);
      var (size, rest) :- GetU64(s3);
      Got(ChunkStart(id, n, h, size), rest)
    else if tag == 2 then
      var (id, s1) :- GetText(body);
      var (i, s2) :- GetU32(s1);
      var (d, rest) :- GetBlob(s2);
      Got(Chunk(id, i, d), rest)
    else if tag == 3 then
      var (id, rest) :- GetText(body); Got(ChunkEnd(id), rest)
    else Bad
  }

  function ContentFromBytes(s: seq<byte>): Option<Content> {
    match GetContent(s)
    case Bad => None
    case Got(c, _) => Some(c)
  }

  function MessageFromBytes(s: seq<byte>): Option<NetworkMessage> {
    match GetMessage(s)
    case Bad => None
    case Got(m, _) => Some(m)
  }

  // ---------------------------------------------------------------- round trips

  lemma UintRoundTrip(n: nat, k: nat, rest: seq<byte>)
    requires n < Pow256(k)
    ensures GetUint(LittleEndian(n, k) + rest, k) == Got(n, rest)
  {
    LittleEndianRoundTrip(n, k);
    var s := LittleEndian(n, k) + rest;
    assert s[..k] == LittleEndian(n, k) && s[k..] == rest;
  }

  lemma U32RoundTrip(n: u32, rest: seq<byte>)
    ensures GetU32(LittleEndian(n, 4) + rest) == Got(n, rest)
  {
    Widths();
    UintRoundTrip(n, 4, rest);
  }

  lemma U64RoundTrip(n: u64, rest: seq<byte>)
    ensures GetU64(LittleEndian(n, 8) + rest) == Got(n, rest)
  {
    Widths();
    UintRoundTrip(n, 8, rest);
  }

  lemma BlobRoundTrip(b: seq<byte>, rest: seq<byte>)
    requires FitsLength(b)
    ensures GetBlob(PutBlob(b) + rest) == Got(b, rest)
    ensures ValidUtf8(b) ==> GetText(PutBlob(b) + rest) == Got(b, rest)
  {
    assert PutBlob(b) + rest == LittleEndian(|b|, 8) + (b + rest);
    U64RoundTrip(|b|, b + rest);
    assert (b + rest)[..|b|] == b && (b + rest)[|b|..] == rest;
  }

  lemma GetEntriesStep(s: seq<byte>, n: nat, f: FileEntry, s1: seq<byte>, s2: seq<byte>, fs: seq<FileEntry>, s3: seq<byte>)
    requires n > 0 && GetText(s) == Got(f.name, s1) && GetBlob(s1) == Got(f.bytes, s2)
    requires GetEntries(s2, n - 1) == Got(fs, s3)
    ensures GetEntries(s, n) == Got([f] + fs, s3)
  {
  }

  lemma {:induction false} EntriesRoundTrip(fs: seq<FileEntry>, rest: seq<byte>)
    requires forall f :: f in fs ==> f.Representable()
    ensures GetEntries(PutEntries(fs) + rest, |fs|) == Got(fs, rest)
  {
    hide ValidUtf8, PutBlob, GetText, GetBlob;
    if fs == [] {
      assert PutEntries(fs) + rest == rest;
    } else {
      var f, others := fs[0], fs[1..];
      assert fs == [f] + others && f in fs;
      EntriesRoundTrip(others, rest);
      EntryRoundTrip(f, PutEntries(others), rest);
      var s := PutEntries(fs) + rest;
      GetEntriesStep(s, |fs|, f, GetText(s).rest, PutEntries(others) + rest, others, rest);
    }
  }

  lemma EntryRoundTrip(f: FileEntry, tail: seq<byte>, rest: seq<byte>)
    requires f.Representable()
    ensures var all := (PutBlob(f.name) + (PutBlob(f.bytes) + tail)) + rest;
            GetText(all).Got? && GetText(all).value == f.name && GetBlob(GetText(all).rest) == Got(f.bytes, tail + rest)
  {
    var n, b := PutBlob(f.name), PutBlob(f.bytes);
    Assoc(n, b + tail, rest);
    Assoc(b, tail, rest);
    BlobRoundTrip(f.name, b + (tail + rest));
    BlobRoundTrip(f.bytes, tail + rest);
  }

  lemma TagRoundTrip(tag: u32, body: seq<byte>, rest: seq<byte>)
    ensures GetU32((LittleEndian(tag, 4) + body) + rest) == Got(tag, body + rest)
  {
    Assoc(LittleEndian(tag, 4), body, rest);
    U32RoundTrip(tag, body + rest);
  }

  /** Decoding an encoded content gives it back, whatever bytes trail it. */
  lemma ContentRoundTrip(c: Content, rest: seq<byte>)
    requires c.Representable()
    ensures GetContent(ContentToBytes(c) + rest) == Got(c, rest)
  {
    match c
    case Text(t) =>
      TagRoundTrip(0, PutBlob(t), rest);
      BlobRoundTrip(t, rest);
    case Image(b) =>
      TagRoundTrip(1, PutBlob(b), rest);
      BlobRoundTrip(b, rest);
    case File(n, b) =>
      TagRoundTrip(2, PutBlob(n) + PutBlob(b), rest);
      Assoc(PutBlob(n), PutBlob(b), rest);
      BlobRoundTrip(n, PutBlob(b) + rest);
      BlobRoundTrip(b, rest);
    case Files(fs) =>
      TagRoundTrip(3, LittleEndian(|fs|, 8) + PutEntries(fs), rest);
      Assoc(LittleEndian(|fs|, 8), PutEntries(fs), rest);
      U64RoundTrip(|fs|, PutEntries(fs) + rest);
      EntriesRoundTrip(fs, rest);
  }

  /** Decoding an encoded message gives it back, whatever bytes trail it. */
  lemma MessageRoundTrip(m: NetworkMessage, rest: seq<byte>)
    requires m.Representable()
    ensures GetMessage(MessageToBytes(m) + rest) == Got(m, rest)
  {
    match m
    case Direct(c) =>
      TagRoundTrip(0, ContentToBytes(c), rest);
      ContentRoundTrip(c, rest);
    case ChunkStart(id, n, h, size) => ChunkStartRoundTrip(id, n, h, size, rest);
    case Chunk(id, i, d) =>
      var s2 := PutBlob(d);
      var s1 := LittleEndian(i, 4) + s2;
      TagRoundTrip(2, PutBlob(id) + s1, rest);
      Assoc(PutBlob(id), s1, rest);
      BlobRoundTrip(id, s1 + rest);
      Assoc(LittleEndian(i, 4), s2, rest);
      U32RoundTrip(i, s2 + rest);
      BlobRoundTrip(d, rest);
    case ChunkEnd(id) =>
      TagRoundTrip(3, PutBlob(id), rest);
      BlobRoundTrip(id, rest);
  }

  lemma ChunkStartRoundTrip(id: seq<byte>, n: u32, h: seq<byte>, size: u64, rest: seq<byte>)
    requires IsString(id) && IsString(h)
    ensures GetMessage(MessageToBytes(ChunkStart(id, n, h, size)) + rest) == Got(ChunkStart(id, n, h, size), rest)
  {
    var s3 := LittleEndian(size, 8);
    var s2 := PutBlob(h) + s3;
    var s1 := LittleEndian(n, 4) + s2;
    TagRoundTrip(1, PutBlob(id) + s1, rest);
    Assoc(PutBlob(id), s1, rest);
    BlobRoundTrip(id, s1 + rest);
    Assoc(LittleEndian(n, 4), s2, rest);
    U32RoundTrip(n, s2 + rest);
    Assoc(PutBlob(h), s3, rest);
    BlobRoundTrip(h, s3 + rest);
    U64RoundTrip(size, rest);
  }

  lemma DecodeEncodedMessage(m: NetworkMessage)
    requires m.Representable()
    ensures MessageFromBytes(MessageToBytes(m)) == Some(m)
  {
    MessageRoundTrip(m, []);
    assert MessageToBytes(m) + [] == MessageToBytes(m);
  }

  lemma DecodeEncodedContent(c: Content)
    requires c.Representable()
    ensures ContentFromBytes(ContentToBytes(c)) == Some(c)
  {
    ContentRoundTrip(c, []);
    assert ContentToBytes(c) + [] == ContentToBytes(c);
  }

  // ------------------------------------------- the decoders accept nothing but encodings

  lemma UintCanonical(s: seq<byte>, k: nat)
    requires GetUint(s, k).Got?
    ensures s == LittleEndian(GetUint(s, k).value, k) + GetUint(s, k).rest
  {
    LittleEndianCanonical(s[..k]);
    assert s == s[..k] + s[k..];
  }

  lemma BlobCanonical(s: seq<byte>)
    requires GetBlob(s).Got?
    ensures FitsLength(GetBlob(s).value) && s == PutBlob(GetBlob(s).value) + GetBlob(s).rest
  {
    UintCanonical(s, 8);
    var Got(n, rest) := GetU64(s);
    assert rest == rest[..n] + rest[n..];
  }

  lemma {:induction false} EntriesCanonical(s: seq<byte>, n: nat)
    requires GetEntries(s, n).Got?
    ensures var Got(fs, rest) := GetEntries(s, n);
            |fs| == n && (forall f :: f in fs ==> f.Representable()) && s == PutEntries(fs) + rest
  {
    hide ValidUtf8, PutBlob, LittleEndian, LittleEndianValue;
    if n > 0 {
      BlobCanonical(s);
      var Got(name, s1) := GetText(s);
      BlobCanonical(s1);
      var Got(bytes, s2) := GetBlob(s1);
      EntriesCanonical(s2, n - 1);
      var Got(others, s3) := GetEntries(s2, n - 1);
      GetEntriesStep(s, n, FileEntry(name, bytes), s1, s2, others, s3);
      EntryCanonical(s, FileEntry(name, bytes), s1, s2, others, s3);
    }
  }

  lemma EntryCanonical(s: seq<byte>, f: FileEntry, s1: seq<byte>, s2: seq<byte>, fs: seq<FileEntry>, s3: seq<byte>)
    requires s == PutBlob(f.name) + s1 && s1 == PutBlob(f.bytes) + s2 && s2 == PutEntries(fs) + s3
    ensures s == PutEntries([f] + fs) + s3
  {
    assert ([f] + fs)[1..] == fs;
    Assoc(PutBlob(f.bytes), PutEntries(fs), s3);
    Assoc(PutBlob(f.name), PutBlob(f.bytes) + PutEntries(fs), s3);
  }

  /** Whatever decodes as a content is that content's encoding followed by ignored bytes. */
  lemma ContentCanonical(s: seq<byte>)
    requires GetContent(s).Got?
    ensures var Got(c, rest) := GetContent(s); c.Representable() && s == ContentToBytes(c) + rest
  {
    UintCanonical(s, 4);
    var Got(tag, body) := GetU32(s);
    var Got(c, rest) := GetContent(s);
    if tag == 2 {
      BlobCanonical(body);
      BlobCanonical(GetText(body).rest);
      Assoc(PutBlob(c.name), PutBlob(c.bytes), rest);
    } else if tag == 3 {
      UintCanonical(body, 8);
      EntriesCanonical(GetU64(body).rest, GetU64(body).value);
      Assoc(LittleEndian(|c.files|, 8), PutEntries(c.files), rest);
    } else {
      BlobCanonical(body);
    }
    Assoc(LittleEndian(tag, 4), ContentToBytes(c)[4..], rest);
    assert ContentToBytes(c) == LittleEndian(tag, 4) + ContentToBytes(c)[4..];
  }

  /** Two contents with the same bytes are the same content. */
  lemma EncodingIsInjective(a: Content, b: Content)
    requires a.Representable() && b.Representable()
    requires ContentToBytes(a) == ContentToBytes(b)
    ensures a == b
  {
    DecodeEncodedContent(a);
    DecodeEncodedContent(b);
  }

  // ---------------------------------------------------------------- the bytes themselves

  /** A number of two bytes in four and in eight. */
  lemma SmallLittleEndian(lo: byte, hi: byte)
    ensures LittleEndian(lo + 256 * hi, 4) == [lo, hi, 0, 0]
    ensures LittleEndian(lo + 256 * hi, 8) == [lo, hi, 0, 0, 0, 0, 0, 0]
  {
    LowDigit(lo, hi);
    assert LittleEndian(0, 2) == [0] + LittleEndian(0, 1);
    assert LittleEndian(0, 4) == [0] + LittleEndian(0, 3);
    assert LittleEndian(0, 6) == [0] + LittleEndian(0, 5);
    assert LittleEndian(hi, 3) == [hi] + LittleEndian(0, 2);
    assert LittleEndian(hi, 7) == [hi] + LittleEndian(0, 6);
  }

  /** One of each, byte by byte: the tags, the order of the fields, and their widths. */
  lemma OfEachContent()
    ensures ContentToBytes(Text([0x61])) == [0, 0, 0, 0] + [1, 0, 0, 0, 0, 0, 0, 0] + [0x61]
    ensures ContentToBytes(Image([9, 8])) == [1, 0, 0, 0] + [2, 0, 0, 0, 0, 0, 0, 0] + [9, 8]
    ensures ContentToBytes(File([0x61], [9, 8]))
         == [2, 0, 0, 0] + [1, 0, 0, 0, 0, 0, 0, 0] + [0x61] + [2, 0, 0, 0, 0, 0, 0, 0] + [9, 8]
    ensures ContentToBytes(Files([FileEntry([0x61], [9, 8])]))
         == [3, 0, 0, 0] + [1, 0, 0, 0, 0, 0, 0, 0] + [1, 0, 0, 0, 0, 0, 0, 0] + [0x61] + [2, 0, 0, 0, 0, 0, 0, 0] + [9, 8]
  {
    hide LittleEndian;
    SmallLittleEndian(0, 0);
    SmallLittleEndian(1, 0);
    SmallLittleEndian(2, 0);
    SmallLittleEndian(3, 0);
    assert PutEntries([FileEntry([0x61], [9, 8])]) == PutBlob([0x61]) + (PutBlob([9, 8]) + PutEntries([]));
  }

  lemma OfEachMessage()
    ensures MessageToBytes(Direct(Text([0x61]))) == [0, 0, 0, 0] + [0, 0, 0, 0] + [1, 0, 0, 0, 0, 0, 0, 0] + [0x61]
    ensures MessageToBytes(ChunkStart([0x37], 0x0102, [0x61, 0x62], 0x0304))
         == [1, 0, 0, 0] + [1, 0, 0, 0, 0, 0, 0, 0] + [0x37] + [2, 1, 0, 0]
            + [2, 0, 0, 0, 0, 0, 0, 0] + [0x61, 0x62] + [4, 3, 0, 0, 0, 0, 0, 0]
    ensures MessageToBytes(Chunk([0x37], 0x0102, [9, 8]))
         == [2, 0, 0, 0] + [1, 0, 0, 0, 0, 0, 0, 0] + [0x37] + [2, 1, 0, 0] + [2, 0, 0, 0, 0, 0, 0, 0] + [9, 8]
    ensures MessageToBytes(ChunkEnd([0x37])) == [3, 0, 0, 0] + [1, 0, 0, 0, 0, 0, 0, 0] + [0x37]
  {
    hide LittleEndian, ContentToBytes;
    OfEachContent();
    SmallLittleEndian(0, 0);
    SmallLittleEndian(1, 0);
    SmallLittleEndian(2, 0);
    SmallLittleEndian(3, 0);
    SmallLittleEndian(2, 1);
    SmallLittleEndian(4, 3);
  }
}
