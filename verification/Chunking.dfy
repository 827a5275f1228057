/**
 Splitting a content into network messages. A content whose bytes fit in one chunk travels
 as one Direct message; a larger one as ChunkStart, its chunks, ChunkEnd.
 */
module Chunking {
  import opened Bytes
  import opened Utf8
  import opened ClipboardContent

  const CHUNK_DATA_SIZE: nat := 1_500_000
  const MAX_TRANSMIT_SIZE: nat := 2 * 1024 * 1024

  // ---------------------------------------------------------------- the hash and its hex form

  /** A SHA-256 digest; the hash itself is a parameter of everything that uses it. */
  type Digest = d: seq<byte> | |d| == 32 witness seq(32, _ => 0)
  type Hasher = seq<byte> -> Digest

  function HexDigit(n: nat): byte
    requires n < 16
  {
    if n < 10 then 0x30 + n else 0x61 + (n - 10)
  }

  function HexEncode(d: seq<byte>): (s: seq<byte>)
    ensures |s| == 2 * |d| && forall i :: 0 <= i < |s| ==> s[i] < 0x80
  {
    if d == [] then [] else [HexDigit(d[0] / 16), HexDigit(d[0] % 16)] + HexEncode(d[1..])
  }

  function Sha256Hex(hash: Hasher, data: seq<byte>): seq<byte> {
    HexEncode(hash(data))
  }

  /** Lower-case digits. */
  lemma HexDigitIs(n: nat)
    requires n < 16
    ensures HexDigit(n) as char == "0123456789abcdef"[n]
  {
  }

  /** Two a byte, the high one first. */
  lemma {:induction false} HexDigitsAre(d: seq<byte>, i: nat)
    requires i < |d|
    ensures HexEncode(d)[2 * i] as char == "0123456789abcdef"[d[i] / 16]
    ensures HexEncode(d)[2 * i + 1] as char == "0123456789abcdef"[d[i] % 16]
  {
    hide HexDigit;
    HexDigitIs(d[i] / 16);
    HexDigitIs(d[i] % 16);
    DigitsAt(d, i);
  }

  lemma {:induction false} DigitsAt(d: seq<byte>, i: nat)
    requires i < |d|
    ensures HexEncode(d)[2 * i] == HexDigit(d[i] / 16) && HexEncode(d)[2 * i + 1] == HexDigit(d[i] % 16)
  {
    hide HexDigit;
    if i > 0 {
      DigitsAt(d[1..], i - 1);
      assert HexEncode(d)[2..] == HexEncode(d[1..]);
    }
  }

  lemma {:induction false} HexIsInjective(a: seq<byte>, b: seq<byte>)
    requires |a| == |b| && HexEncode(a) == HexEncode(b)
    ensures a == b
  {
    if a != [] {
      var x, y := HexEncode(a), HexEncode(b);
      assert x[0] == HexDigit(a[0] / 16) && x[1] == HexDigit(a[0] % 16) && x[2..] == HexEncode(a[1..]);
      assert y[0] == HexDigit(b[0] / 16) && y[1] == HexDigit(b[0] % 16) && y[2..] == HexEncode(b[1..]);
      HexIsInjective(a[1..], b[1..]);
    }
  }

  /** Two different buffers with one digest. */
  predicate Collide(hash: Hasher, x: seq<byte>, y: seq<byte>) {
    x != y && hash(x) == hash(y)
  }

  lemma SameHexSameBytesOrCollision(hash: Hasher, x: seq<byte>, y: seq<byte>)
    requires Sha256Hex(hash, x) == Sha256Hex(hash, y)
    ensures x == y || Collide(hash, x, y)
  {
    HexIsInjective(hash(x), hash(y));
  }

  // ---------------------------------------------------------------- the split

  function CeilDiv(n: nat, d: nat): (q: nat)
    requires d > 0
    ensures n > 0 ==> d * (q - 1) < n <= d * q
    ensures n == 0 ==> q == 0
  {
    (n + d - 1) / d
  }

  function PieceCount(raw: seq<byte>): nat {
    CeilDiv(|raw|, CHUNK_DATA_SIZE)
  }

  function Piece(raw: seq<byte>, k: nat): seq<byte>
    requires k < PieceCount(raw)
  {
    raw[k * CHUNK_DATA_SIZE..Min((k + 1) * CHUNK_DATA_SIZE, |raw|)]
  }

  /** The messages of one chunked transfer. Counts are cast to 32 bits as the source casts them. */
  function TransferMessages(raw: seq<byte>, hash: Hasher, transferId: seq<byte>): (ms: seq<NetworkMessage>)
    ensures |ms| == PieceCount(raw) + 2
  {
    [ChunkStart(transferId, PieceCount(raw) % 0x1_0000_0000, Sha256Hex(hash, raw), |raw| % 0x1_0000_0000_0000_0000)]
    + seq(PieceCount(raw), k requires 0 <= k < PieceCount(raw) => Chunk(transferId, k % 0x1_0000_0000, Piece(raw, k)))
    + [ChunkEnd(transferId)]
  }

  function Split(content: Content, hash: Hasher, transferId: seq<byte>): seq<NetworkMessage> {
    var raw := ContentToBytes(content);
    if |raw| <= CHUNK_DATA_SIZE then [Direct(content)] else TransferMessages(raw, hash, transferId)
  }

  /** `split_to_network_messages`, with the fresh UUID as a parameter. */
  method SplitToNetworkMessages(content: Content, hash: Hasher, uuid: seq<byte>)
    returns (messages: seq<NetworkMessage>)
    ensures messages == Split(content, hash, uuid)
  {
    hide ContentToBytes, Sha256Hex;
    var raw := ContentToBytes(content);
    if |raw| <= CHUNK_DATA_SIZE {
      return [Direct(content)];
    }
    var dataHash := Sha256Hex(hash, raw);
    var totalChunks: u32 := ((|raw| + CHUNK_DATA_SIZE - 1) / CHUNK_DATA_SIZE) % 0x1_0000_0000;
    messages := [ChunkStart(uuid, totalChunks, dataHash, |raw| % 0x1_0000_0000_0000_0000)];
    var i, offset := 0, 0;
    while offset < |raw|
      invariant 0 <= i <= PieceCount(raw) && offset == Min(i * CHUNK_DATA_SIZE, |raw|)
      invariant |messages| == i + 1 && messages[0] == TransferMessages(raw, hash, uuid)[0]
      invariant forall k :: 0 <= k < i ==> messages[k + 1] == Chunk(uuid, k % 0x1_0000_0000, Piece(raw, k))
      decreases |raw| - offset
    {
      var end := Min(offset + CHUNK_DATA_SIZE, |raw|);
      messages := messages + [Chunk(uuid, i % 0x1_0000_0000, raw[offset..end])];
      i, offset := i + 1, end;
    }
    messages := messages + [ChunkEnd(uuid)];
  }

  // ---------------------------------------------------------------- what the split promises

  function Pieces(raw: seq<byte>, n: nat): (ps: seq<seq<byte>>)
    requires n <= PieceCount(raw)
    ensures |ps| == n
  {
    seq(n, k requires 0 <= k < n => Piece(raw, k))
  }

  lemma {:induction false} PiecesJoin(raw: seq<byte>, n: nat)
    requires n <= PieceCount(raw)
    ensures Flatten(Pieces(raw, n)) == raw[..Min(n * CHUNK_DATA_SIZE, |raw|)]
  {
    if n > 0 {
      PiecesJoin(raw, n - 1);
      assert Pieces(raw, n)[..n - 1] == Pieces(raw, n - 1);
      assert raw[..Min((n - 1) * CHUNK_DATA_SIZE, |raw|)] + Piece(raw, n - 1) == raw[..Min(n * CHUNK_DATA_SIZE, |raw|)];
    }
  }

  /** The size under which the source's 32-bit chunk counter does not wrap (about 6.4 petabytes). */
  predicate CountFits(raw: seq<byte>) {
    PieceCount(raw) < 0x1_0000_0000
  }

  lemma PieceCountBounds(raw: seq<byte>)
    ensures var n := PieceCount(raw);
            && (|raw| > CHUNK_DATA_SIZE ==> n >= 2)
            && (forall k :: 0 <= k < n - 1 ==> |Piece(raw, k)| == CHUNK_DATA_SIZE)
            && (n > 0 ==> 1 <= |Piece(raw, n - 1)| <= CHUNK_DATA_SIZE)
  {
  }

  lemma TransferMessageAt(raw: seq<byte>, hash: Hasher, transferId: seq<byte>)
    requires CountFits(raw)
    ensures var ms := TransferMessages(raw, hash, transferId);
            forall k :: 1 <= k <= PieceCount(raw) ==> ms[k] == Chunk(transferId, k - 1, Piece(raw, k - 1))
  {
  }

  /** A content goes out whole, as one direct message, if and only if it serialises to at most 1.5 million bytes. */
  lemma SentWholeIff(content: Content, hash: Hasher, transferId: seq<byte>)
    ensures Split(content, hash, transferId) == [Direct(content)] <==> |ContentToBytes(content)| <= 1_500_000
  {
    hide ContentToBytes, Piece, Sha256Hex;
    assert |Split(content, hash, transferId)| != |[Direct(content)]| || |ContentToBytes(content)| <= CHUNK_DATA_SIZE;
  }

  /**
   The arithmetic of a chunked split: one message per piece between start and end, pieces
   numbered 0..n-1, all full except a non-empty last one, and together the original bytes.
   */
  lemma SplitArithmetic(content: Content, hash: Hasher, transferId: seq<byte>)
    requires |ContentToBytes(content)| > CHUNK_DATA_SIZE && CountFits(ContentToBytes(content))
    ensures var raw := ContentToBytes(content);
            var ms := Split(content, hash, transferId);
            var n := PieceCount(raw);
            && 2 <= n == |ms| - 2 && CHUNK_DATA_SIZE * (n - 1) < |raw| <= CHUNK_DATA_SIZE * n
            && ms[0].ChunkStart? && ms[0].totalChunks == n && ms[n + 1] == ChunkEnd(transferId)
            && (forall k :: 1 <= k <= n ==> ms[k].Chunk? && ms[k].index == k - 1 && ms[k].transferId == transferId)
            && (forall k :: 1 <= k < n ==> |ms[k].data| == CHUNK_DATA_SIZE)
            && 1 <= |ms[n].data| <= CHUNK_DATA_SIZE
            && Flatten(seq(n, k requires 0 <= k < n => ms[k + 1].data)) == raw
  {
    hide ContentToBytes, Sha256Hex, Piece, Flatten;
    var raw := ContentToBytes(content);
    var n := PieceCount(raw);
    PieceCountBounds(raw);
    TransferMessageAt(raw, hash, transferId);
    PiecesJoin(raw, n);
    var ms := TransferMessages(raw, hash, transferId);
    assert seq(n, k requires 0 <= k < n => ms[k + 1].data) == Pieces(raw, n);
    assert raw[..|raw|] == raw;
  }

  /** A transfer id as the source makes it: 36 ASCII characters of a hyphenated UUID. */
  predicate UuidText(id: seq<byte>) {
    |id| == 36 && forall i :: 0 <= i < |id| ==> id[i] < 0x80
  }

  /** Every emitted message is a value the receiver's decoder gives back. */
  lemma SplitIsRepresentable(content: Content, hash: Hasher, transferId: seq<byte>)
    requires content.Representable() && UuidText(transferId)
    ensures forall m :: m in Split(content, hash, transferId) ==> m.Representable()
  {
    var raw := ContentToBytes(content);
    AsciiIsValid(transferId);
    AsciiIsValid(Sha256Hex(hash, raw));
    if |raw| > CHUNK_DATA_SIZE {
      var ms := TransferMessages(raw, hash, transferId);
      forall k | 0 <= k < |ms| ensures ms[k].Representable() {
        if 0 < k <= PieceCount(raw) {
          assert ms[k].data == Piece(raw, k - 1);
        }
      }
    }
  }

  /** No emitted message serialises to more than the chunk size plus 60 bytes, the exact size of a full chunk. */
  lemma MessageSizes(content: Content, hash: Hasher, transferId: seq<byte>)
    requires UuidText(transferId)
    ensures var ms := Split(content, hash, transferId);
            forall k :: 0 <= k < |ms| ==>
              && |MessageToBytes(ms[k])| <= CHUNK_DATA_SIZE + 60 < MAX_TRANSMIT_SIZE
              && (ms[k].Chunk? ==> |MessageToBytes(ms[k])| == |ms[k].data| + 60)
  {
    hide ContentToBytes, Sha256Hex, MessageToBytes, CeilDiv;
    var raw, ms := ContentToBytes(content), Split(content, hash, transferId);
    forall k | 0 <= k < |ms|
      ensures |MessageToBytes(ms[k])| <= CHUNK_DATA_SIZE + 60
      ensures ms[k].Chunk? ==> |MessageToBytes(ms[k])| == |ms[k].data| + 60
    {
      if |raw| > CHUNK_DATA_SIZE && 0 < k <= PieceCount(raw) {
        assert ms[k].data == Piece(raw, k - 1);
      }
      MessageSize(ms[k], hash, raw);
    }
  }

  /** Everything in a message but its data. */
  lemma MessageSize(m: NetworkMessage, hash: Hasher, raw: seq<byte>)
    ensures m.Direct? ==> |MessageToBytes(m)| == 4 + |ContentToBytes(m.content)|
    ensures m.ChunkStart? ==> |MessageToBytes(m)| == 32 + |m.transferId| + |m.dataHash|
    ensures m.Chunk? ==> |MessageToBytes(m)| == 24 + |m.transferId| + |m.data|
    ensures m.ChunkEnd? ==> |MessageToBytes(m)| == 12 + |m.transferId|
    ensures |Sha256Hex(hash, raw)| == 64
  {
    hide ContentToBytes;
  }
}
