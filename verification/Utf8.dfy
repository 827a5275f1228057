/** UTF-8 as Rust's `String` sees it: a string is a byte buffer that passes `str::from_utf8`. */
module Utf8 {
  import opened Bytes

  /** The byte at `i`, or 0 past the end, as the standard library's decoder peeks it. */
  function Peek(s: seq<byte>, i: nat): byte {
    if i < |s| then s[i] else 0
  }

  predicate Continuation(b: byte) {
    0x80 <= b < 0xC0
  }

  /** May `second` follow the lead byte of a three-byte form? (No overlong forms, no surrogates.) */
  predicate SecondOfThree(lead: byte, second: byte) {
    || (lead == 0xE0 && 0xA0 <= second <= 0xBF)
    || (0xE1 <= lead <= 0xEC && 0x80 <= second <= 0xBF)
    || (lead == 0xED && 0x80 <= second <= 0x9F)
    || (0xEE <= lead <= 0xEF && 0x80 <= second <= 0xBF)
  }

  /** May `second` follow the lead byte of a four-byte form? (Nothing above U+10FFFF.) */
  predicate SecondOfFour(lead: byte, second: byte) {
    || (lead == 0xF0 && 0x90 <= second <= 0xBF)
    || (0xF1 <= lead <= 0xF3 && 0x80 <= second <= 0xBF)
    || (lead == 0xF4 && 0x80 <= second <= 0x8F)
  }

  /** The first decoding step: a well-formed character, or the bytes that one U+FFFD stands for. */
  datatype Scan = Char(len: nat) | Broken(len: nat)

  function FirstPiece(s: seq<byte>): (p: Scan)
    requires s != []
    ensures 1 <= p.len <= |s|
  {
    var b := s[0];
    if b < 0x80 then Char(1)
    else if 0xC2 <= b <= 0xDF then
      if Continuation(Peek(s, 1)) then Char(2) else Broken(1)
    else if 0xE0 <= b <= 0xEF then
      if !SecondOfThree(b, Peek(s, 1)) then Broken(1)
      else if Continuation(Peek(s, 2)) then Char(3) else Broken(2)
    else if 0xF0 <= b <= 0xF4 then
      if !SecondOfFour(b, Peek(s, 1)) then Broken(1)
      else if !Continuation(Peek(s, 2)) then Broken(2)
      else if Continuation(Peek(s, 3)) then Char(4) else Broken(3)
    else Broken(1)
  }

  predicate ValidUtf8(s: seq<byte>) {
    s == [] || (FirstPiece(s).Char? && ValidUtf8(s[FirstPiece(s).len..]))
  }

  const REPLACEMENT: seq<byte> := [0xEF, 0xBF, 0xBD]

  /** `String::from_utf8_lossy`: every broken piece becomes one U+FFFD. */
  function FromUtf8Lossy(s: seq<byte>): seq<byte> {
    if s == [] then []
    else
      var p := FirstPiece(s);
      (if p.Char? then s[..p.len] else REPLACEMENT) + FromUtf8Lossy(s[p.len..])
  }

  lemma {:induction false} AsciiIsValid(s: seq<byte>)
    requires forall i :: 0 <= i < |s| ==> s[i] < 0x80
    ensures ValidUtf8(s)
  {
    if s != [] {
      AsciiIsValid(s[1..]);
    }
  }

  lemma FirstPieceExtends(c: seq<byte>, s: seq<byte>)
    requires c != [] && FirstPiece(c) == Char(|c|)
    ensures FirstPiece(c + s) == Char(|c|)
  {
    assert forall i :: 0 <= i < |c| ==> Peek(c + s, i) == c[i];
  }

  /** Lossy decoding always yields a string, and changes its input exactly when it is not one. */
  lemma {:induction false} LossyIsValid(s: seq<byte>)
    ensures ValidUtf8(FromUtf8Lossy(s))
    ensures FromUtf8Lossy(s) == s <==> ValidUtf8(s)
  {
    if s != [] {
      var p := FirstPiece(s);
      var rest := s[p.len..];
      var head := if p.Char? then s[..p.len] else REPLACEMENT;
      LossyIsValid(rest);
      var out := FromUtf8Lossy(s);
      assert out == head + FromUtf8Lossy(rest);
      if p.Char? {
        assert forall i :: 0 <= i < p.len ==> Peek(head, i) == Peek(s, i);
        assert FirstPiece(head) == Char(|head|);
        assert s == head + rest;
      }
      FirstPieceExtends(head, FromUtf8Lossy(rest));
      assert out[|head|..] == FromUtf8Lossy(rest);
      if ValidUtf8(s) {
        assert out == s;
      } else if out == s {
        assert ValidUtf8(out);
      }
    }
  }

  // ---------------------------------------------------------------- the same by code points

  /** A Unicode scalar value: a code point that is no surrogate. */
  predicate Scalar(cp: int) {
    0 <= cp < 0x11_0000 && !(0xD800 <= cp < 0xE000)
  }

  /** Its UTF-8 form. */
  function Encode(cp: int): (e: seq<byte>)
    requires Scalar(cp)
    ensures 1 <= |e| <= 4
  {
    if cp < 0x80 then [cp]
    else if cp < 0x800 then [0xC0 + cp / 0x40, 0x80 + cp % 0x40]
    else if cp < 0x1_0000 then [0xE0 + cp / 0x1000, 0x80 + cp / 0x40 % 0x40, 0x80 + cp % 0x40]
    else [0xF0 + cp / 0x4_0000, 0x80 + cp / 0x1000 % 0x40, 0x80 + cp / 0x40 % 0x40, 0x80 + cp % 0x40]
  }

  function EncodeAll(cps: seq<int>): seq<byte>
    requires forall cp :: cp in cps ==> Scalar(cp)
  {
    if cps == [] then [] else Encode(cps[0]) + EncodeAll(cps[1..])
  }

  /** The buffer starts with some character's form, of `n` bytes. */
  ghost predicate StartsWithChar(s: seq<byte>, n: nat) {
    exists cp :: Scalar(cp) && |Encode(cp)| == n && Encode(cp) <= s
  }

  /** The bytes are the start of some character's form. */
  ghost predicate StartsChar(s: seq<byte>) {
    exists cp :: Scalar(cp) && s <= Encode(cp)
  }

  /** The scanner takes a character exactly where there is one. */
  lemma EncodedIsScanned(cp: int, rest: seq<byte>)
    requires Scalar(cp)
    ensures FirstPiece(Encode(cp) + rest) == Char(|Encode(cp)|)
  {
    hide Encode, Continuation, SecondOfThree, SecondOfFour;
    EncodedBytes(cp);
    var e := Encode(cp);
    assert forall i :: 0 <= i < |e| ==> Peek(e + rest, i) == e[i];
  }

  lemma EncodedBytes(cp: int)
    requires Scalar(cp)
    ensures var e := Encode(cp);
            && (|e| == 1 ==> e[0] < 0x80)
            && (|e| == 2 ==> 0xC2 <= e[0] <= 0xDF && Continuation(e[1]))
            && (|e| == 3 ==> 0xE0 <= e[0] <= 0xEF && SecondOfThree(e[0], e[1]) && Continuation(e[2]))
            && (|e| == 4 ==> 0xF0 <= e[0] <= 0xF4 && SecondOfFour(e[0], e[1]) && Continuation(e[2]) && Continuation(e[3]))
  {
  }

  /** The base-64 digits of a code point. */
  lemma Digits(w: int, x: int, y: int, z: int)
    requires 0 <= x < 0x40 && 0 <= y < 0x40 && 0 <= z < 0x40
    ensures var cp := w * 0x4_0000 + x * 0x1000 + y * 0x40 + z;
            && cp % 0x40 == z && cp / 0x40 == w * 0x1000 + x * 0x40 + y
            && cp / 0x40 % 0x40 == y && cp / 0x1000 == w * 0x40 + x && cp / 0x1000 % 0x40 == x && cp / 0x4_0000 == w
  {
    var cp := w * 0x4_0000 + x * 0x1000 + y * 0x40 + z;
    Digit(w * 0x1000 + x * 0x40 + y, z);
    Digit(w * 0x40 + x, y);
    Digit(w, x);
    assert cp / 0x40 / 0x40 == cp / 0x1000 && cp / 0x1000 / 0x40 == cp / 0x4_0000;
  }

  lemma Digit(a: int, d: int)
    requires 0 <= d < 0x40
    ensures (a * 0x40 + d) / 0x40 == a && (a * 0x40 + d) % 0x40 == d
  {
  }

  lemma TwoBytes(a: byte, b: byte) returns (cp: int)
    requires 0xC2 <= a <= 0xDF && Continuation(b)
    ensures Scalar(cp) && Encode(cp) == [a, b]
  {
    var (y: int, z: int) := (a, b);
    cp := (y - 0xC0) * 0x40 + (z - 0x80);
    Digits(0, 0, y - 0xC0, z - 0x80);
  }

  lemma ThreeBytes(a: byte, b: byte, c: byte) returns (cp: int)
    requires 0xE0 <= a <= 0xEF && SecondOfThree(a, b) && Continuation(c)
    ensures Scalar(cp) && Encode(cp) == [a, b, c]
  {
    var (x: int, y: int, z: int) := (a, b, c);
    cp := (x - 0xE0) * 0x1000 + (y - 0x80) * 0x40 + (z - 0x80);
    Digits(0, x - 0xE0, y - 0x80, z - 0x80);
  }

  lemma FourBytes(a: byte, b: byte, c: byte, d: byte) returns (cp: int)
    requires 0xF0 <= a <= 0xF4 && SecondOfFour(a, b) && Continuation(c) && Continuation(d)
    ensures Scalar(cp) && Encode(cp) == [a, b, c, d]
  {
    var (w: int, x: int, y: int, z: int) := (a, b, c, d);
    cp := (w - 0xF0) * 0x4_0000 + (x - 0x80) * 0x1000 + (y - 0x80) * 0x40 + (z - 0x80);
    Digits(w - 0xF0, x - 0x80, y - 0x80, z - 0x80);
  }

  lemma ScannedIsEncoded(s: seq<byte>) returns (cp: int)
    requires s != [] && FirstPiece(s).Char?
    ensures Scalar(cp) && Encode(cp) == s[..FirstPiece(s).len]
  {
    var n := FirstPiece(s).len;
    if n == 1 {
      cp := s[0];
      assert s[..1] == [s[0]];
    } else if n == 2 {
      cp := TwoBytes(s[0], s[1]);
      assert s[..2] == [s[0], s[1]];
    } else if n == 3 {
      cp := ThreeBytes(s[0], s[1], s[2]);
      assert s[..3] == [s[0], s[1], s[2]];
    } else {
      cp := FourBytes(s[0], s[1], s[2], s[3]);
      assert s[..4] == [s[0], s[1], s[2], s[3]];
    }
  }

  lemma CharIffEncoded(s: seq<byte>, n: nat)
    requires s != []
    ensures FirstPiece(s) == Char(n) <==> StartsWithChar(s, n)
  {
    hide FirstPiece, Encode;
    if FirstPiece(s) == Char(n) {
      var cp := ScannedIsEncoded(s);
    }
    if cp :| Scalar(cp) && |Encode(cp)| == n && Encode(cp) <= s {
      EncodedIsScanned(cp, s[n..]);
      assert Encode(cp) + s[n..] == s;
    }
  }

  /** A buffer is valid exactly when it is the UTF-8 form of some series of scalar values. */
  lemma {:induction false} ValidIffEncoded(s: seq<byte>)
    ensures ValidUtf8(s)
            <==> exists cps: seq<int> :: (forall cp :: cp in cps ==> Scalar(cp)) && EncodeAll(cps) == s
  {
    if ValidUtf8(s) {
      var cps := CodePoints(s);
    }
    if cps: seq<int> :| (forall cp :: cp in cps ==> Scalar(cp)) && EncodeAll(cps) == s {
      EncodedIsValid(cps);
    }
  }

  lemma {:induction false} CodePoints(s: seq<byte>) returns (cps: seq<int>)
    requires ValidUtf8(s)
    ensures (forall cp :: cp in cps ==> Scalar(cp)) && EncodeAll(cps) == s
  {
    hide FirstPiece, Encode;
    if s == [] {
      cps := [];
    } else {
      var n := FirstPiece(s).len;
      var cp := ScannedIsEncoded(s);
      var more := CodePoints(s[n..]);
      cps := [cp] + more;
      assert cps[1..] == more && s == s[..n] + s[n..];
    }
  }

  lemma {:induction false} EncodedIsValid(cps: seq<int>)
    requires forall cp :: cp in cps ==> Scalar(cp)
    ensures ValidUtf8(EncodeAll(cps))
  {
    hide FirstPiece, Encode;
    if cps != [] {
      assert cps[0] in cps && forall cp :: cp in cps[1..] ==> cp in cps;
      EncodedIsValid(cps[1..]);
      EncodedIsScanned(cps[0], EncodeAll(cps[1..]));
      var s := EncodeAll(cps);
      assert s[|Encode(cps[0])|..] == EncodeAll(cps[1..]);
    }
  }

  /**
   What one U+FFFD stands for: a buffer that starts with no character loses the longest start that
   begins one, and at least a byte.
   */
  lemma BrokenIsMaximal(s: seq<byte>)
    requires s != [] && FirstPiece(s).Broken?
    ensures var n := FirstPiece(s).len;
            && (n > 1 ==> StartsChar(s[..n]))
            && (n < |s| ==> !StartsChar(s[..n + 1]))
            && forall k :: !StartsWithChar(s, k)
  {
    hide Encode;
    var n := FirstPiece(s).len;
    forall k ensures !StartsWithChar(s, k) {
      if StartsWithChar(s, k) { CharIffEncoded(s, k); }
    }
    if n > 1 {
      BegunIsBegun(s);
    }
    if n < |s| {
      forall cp | Scalar(cp) ensures !(s[..n + 1] <= Encode(cp)) {
        NoFurther(s, cp);
        assert forall i :: 0 <= i <= n ==> s[..n + 1][i] == s[i];
      }
    }
  }

  lemma BegunIsBegun(s: seq<byte>)
    requires s != [] && FirstPiece(s).Broken? && FirstPiece(s).len > 1
    ensures StartsChar(s[..FirstPiece(s).len])
  {
    hide Encode;
    var n := FirstPiece(s).len;
    if s[0] < 0xF0 {
      var cp := ThreeBytes(s[0], s[1], 0x80);
      assert s[..n] <= Encode(cp);
    } else if n == 2 {
      var cp := FourBytes(s[0], s[1], 0x80, 0x80);
      assert s[..n] <= Encode(cp);
    } else {
      var cp := FourBytes(s[0], s[1], s[2], 0x80);
      assert s[..n] <= Encode(cp);
    }
  }

  /** One byte further, the buffer differs from every character's form, or is longer. */
  lemma NoFurther(s: seq<byte>, cp: int)
    requires s != [] && FirstPiece(s).Broken? && FirstPiece(s).len < |s| && Scalar(cp)
    ensures var (n, e) := (FirstPiece(s).len, Encode(cp));
            |e| <= n || s[0] != e[0] || s[1] != e[1] || (n >= 2 && s[2] != e[2]) || (n >= 3 && s[3] != e[3])
  {
  }

  // ---------------------------------------------------------------- what lossy decoding makes of a buffer

  /** A valid start is kept as it is. */
  lemma {:induction false} LossyKeepsValid(u: seq<byte>, rest: seq<byte>)
    requires ValidUtf8(u)
    ensures FromUtf8Lossy(u + rest) == u + FromUtf8Lossy(rest)
  {
    hide FirstPiece;
    if u == [] {
      assert u + rest == rest;
    } else {
      var n := FirstPiece(u).len;
      var c := u[..n];
      assert u == c + u[n..] && u + rest == c + (u[n..] + rest);
      PieceStands(u);
      FirstPieceExtends(c, u[n..] + rest);
      LossyKeepsValid(u[n..], rest);
      assert (u + rest)[n..] == u[n..] + rest && (u + rest)[..n] == c;
    }
  }

  lemma PieceStands(u: seq<byte>)
    requires u != [] && FirstPiece(u).Char?
    ensures FirstPiece(u[..FirstPiece(u).len]) == FirstPiece(u)
  {
    var n := FirstPiece(u).len;
    assert forall i :: 0 <= i < n ==> Peek(u[..n], i) == Peek(u, i);
  }

  /** A broken start is replaced by one U+FFFD, and decoding goes on behind it. */
  lemma LossyReplacesBroken(s: seq<byte>)
    requires s != [] && FirstPiece(s).Broken?
    ensures FromUtf8Lossy(s) == Encode(0xFFFD) + FromUtf8Lossy(s[FirstPiece(s).len..])
  {
  }
}
