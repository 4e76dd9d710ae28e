/** Bytes as the JVM class-file format sees them: big-endian unsigned and
    signed integers (JVMS 4.1) and the modified UTF-8 that
    DataOutputStream.writeUTF produces for CONSTANT_Utf8 entries (JVMS 4.4.7). */
module Bytes {

  type byte = x: int | 0 <= x < 256

  const TWO_16: int := 0x1_0000
  const TWO_32: int := 0x1_0000_0000

  /** The two bytes DataOutputStream.writeShort(v) emits: the low 16 bits of v. */
  function U2(v: int): (r: seq<byte>)
    ensures |r| == 2
  {
    var w := v % TWO_16;
    [w / 256, w % 256]
  }

  /** The four bytes DataOutputStream.writeInt(v) emits (two's complement). */
  function U4(v: int): (r: seq<byte>)
    ensures |r| == 4
  {
    var w := v % TWO_32;
    U2(w / TWO_16) + U2(w % TWO_16)
  }

  /** Big-endian u2 read at offset i. */
  function U2At(b: seq<byte>, i: nat): (v: nat)
    requires i + 2 <= |b|
    ensures v < TWO_16
  {
    var hi: int := b[i];
    hi * 256 + b[i + 1]
  }

  /** Big-endian u4 read at offset i. */
  function U4At(b: seq<byte>, i: nat): (v: nat)
    requires i + 4 <= |b|
    ensures v < TWO_32
  {
    U2At(b, i) * TWO_16 + U2At(b, i + 2)
  }

  /** ByteBuffer.getInt: the u4 at offset i read as a signed 32-bit int. */
  function S4At(b: seq<byte>, i: nat): (v: int)
    requires i + 4 <= |b|
    ensures -0x8000_0000 <= v < 0x8000_0000
    ensures v >= 0 <==> U4At(b, i) < 0x8000_0000
  {
    var u := U4At(b, i);
    if u < 0x8000_0000 then u else u - TWO_32
  }

  lemma U2RoundTrip(v: int)
    requires 0 <= v < TWO_16
    ensures U2At(U2(v), 0) == v
  {
  }

  lemma U4RoundTrip(v: int)
    requires 0 <= v < TWO_32
    ensures U4At(U4(v), 0) == v
  {
    var r := U4(v);
    assert r[..2] == U2(v / TWO_16) && r[2..] == U2(v % TWO_16);
    U2RoundTrip(v / TWO_16);
    U2RoundTrip(v % TWO_16);
    assert U2At(r, 0) == U2At(r[..2], 0);
    assert U2At(r, 2) == U2At(r[2..], 0);
  }

  lemma U2Of(b: seq<byte>, i: nat)
    requires i + 2 <= |b|
    ensures U2(U2At(b, i)) == b[i..i + 2]
  {
  }

  lemma SplitU2Pair(hi: int, lo: int)
    requires 0 <= hi < TWO_16 && 0 <= lo < TWO_16
    ensures (hi * TWO_16 + lo) / TWO_16 == hi && (hi * TWO_16 + lo) % TWO_16 == lo
  {
  }

  lemma U4Of(b: seq<byte>, i: nat)
    requires i + 4 <= |b|
    ensures U4(S4At(b, i)) == b[i..i + 4]
  {
    var u := U4At(b, i);
    assert S4At(b, i) % TWO_32 == u;
    SplitU2Pair(U2At(b, i), U2At(b, i + 2));
    assert U4(S4At(b, i)) == U2(U2At(b, i)) + U2(U2At(b, i + 2));
    U2Of(b, i);
    U2Of(b, i + 2);
    assert b[i..i + 4] == b[i..i + 2] + b[i + 2..i + 4];
  }

  /** A slice holding x + y holds x, then y. */
  lemma SplitSlice(b: seq<byte>, pos: nat, x: seq<byte>, y: seq<byte>)
    requires pos + |x| + |y| <= |b| && b[pos..pos + |x| + |y|] == x + y
    ensures b[pos..pos + |x|] == x
    ensures b[pos + |x|..pos + |x| + |y|] == y
  {
    assert b[pos..pos + |x|] == (x + y)[..|x|];
    assert b[pos + |x|..pos + |x| + |y|] == (x + y)[|x|..];
  }

  /** Copying b[start..q] and then b[q..pos] copies b[start..pos]. */
  lemma CopiedSlice(b: seq<byte>, start: nat, q: nat, pos: nat, mark: seq<byte>, data: seq<byte>)
    requires start <= q <= pos <= |b| && data == mark + b[start..q] + b[q..pos]
    ensures data == mark + b[start..pos]
  {
    assert b[start..pos] == b[start..q] + b[q..pos];
  }

  // ---------------------------------------------------------------------
  // Modified UTF-8 (java.io.DataOutput.writeUTF)

  /** The UTF-16 code units of one character (a surrogate pair above U+FFFF). */
  function Utf16(c: char): (units: seq<nat>)
    ensures 1 <= |units| <= 2
    ensures forall k :: 0 <= k < |units| ==> units[k] < TWO_16
  {
    var v := c as int;
    if v < TWO_16 then [v]
    else [0xD800 + (v - TWO_16) / 0x400, 0xDC00 + (v - TWO_16) % 0x400]
  }

  /** Encoding of one UTF-16 code unit: one byte for 1..0x7F, two bytes for
      0 and 0x80..0x7FF, three bytes otherwise. */
  function EncodeUnit(u: nat): (r: seq<byte>)
    requires u < TWO_16
    ensures 1 <= |r| <= 3
    ensures |r| == 1 <==> 1 <= u <= 0x7F
  {
    if 1 <= u <= 0x7F then [u]
    else if u <= 0x7FF then [0xC0 + u / 64, 0x80 + u % 64]
    else [0xE0 + u / 4096, 0x80 + (u / 64) % 64, 0x80 + u % 64]
  }

  function EncodeUnits(units: seq<nat>): seq<byte>
    requires forall k :: 0 <= k < |units| ==> units[k] < TWO_16
  {
    if units == [] then [] else EncodeUnit(units[0]) + EncodeUnits(units[1..])
  }

  /** The modified UTF-8 bytes of one character. */
  function EncodeChar(c: char): seq<byte>
  {
    EncodeUnits(Utf16(c))
  }

  /** The parts, one after the other. */
  function Flatten(parts: seq<seq<byte>>): seq<byte>
  {
    if parts == [] then [] else parts[0] + Flatten(parts[1..])
  }

  /** The modified UTF-8 bytes of a string (without the u2 length prefix):
      each character's bytes in turn. */
  function ModifiedUtf8(s: string): seq<byte>
  {
    Flatten(seq(|s|, i requires 0 <= i < |s| => EncodeChar(s[i])))
  }

  /** The encoding of a non-empty string starts with its first character's. */
  lemma ModifiedUtf8Cons(s: string)
    requires s != []
    ensures ModifiedUtf8(s) == EncodeChar(s[0]) + ModifiedUtf8(s[1..])
  {
    var parts := seq(|s|, i requires 0 <= i < |s| => EncodeChar(s[i]));
    assert parts[1..] == seq(|s[1..]|, i requires 0 <= i < |s[1..]| => EncodeChar(s[1..][i]));
  }

  /** A character that modified UTF-8 writes as the single byte of its code. */
  predicate IsPlainAscii(c: char)
  {
    1 <= c as int <= 0x7F
  }

  /** Text made only of such characters. */
  predicate PlainAscii(s: string)
  {
    forall i :: 0 <= i < |s| ==> IsPlainAscii(s[i])
  }

  lemma PlainAsciiConcat(a: string, b: string)
    requires PlainAscii(a) && PlainAscii(b)
    ensures PlainAscii(a + b)
  {
    forall i | 0 <= i < |a + b| ensures IsPlainAscii((a + b)[i]) {
      if i >= |a| { assert (a + b)[i] == b[i - |a|]; }
    }
  }

  /** The bytes of an ASCII literal. */
  function Ascii(s: string): (r: seq<byte>)
    requires PlainAscii(s)
    ensures |r| == |s|
    ensures forall i :: 0 <= i < |s| ==> r[i] == s[i] as int
  {
    seq(|s|, i requires 0 <= i < |s| && IsPlainAscii(s[i]) => s[i] as int)
  }

  /** For ASCII text without NUL, modified UTF-8 is the character codes themselves. */
  lemma {:induction false} ModifiedUtf8OfAscii(s: string)
    requires PlainAscii(s)
    ensures ModifiedUtf8(s) == Ascii(s)
  {
    if s != [] {
      ModifiedUtf8Cons(s);
      ModifiedUtf8OfAscii(s[1..]);
      assert Ascii(s) == [s[0] as int] + Ascii(s[1..]);
      assert Utf16(s[0]) == [s[0] as int];
      assert EncodeUnits([s[0] as int]) == EncodeUnit(s[0] as int) + EncodeUnits([]);
    }
  }

  /** Every character costs at least one byte, so the encoding is never shorter. */
  lemma {:induction false} ModifiedUtf8Length(s: string)
    ensures |ModifiedUtf8(s)| >= |s|
  {
    if s != [] {
      ModifiedUtf8Cons(s);
      ModifiedUtf8Length(s[1..]);
    }
  }

  // ---------------------------------------------------------------------
  // The class-file magic

  /** 0xCAFEBABE, the first four bytes of every class file (JVMS 4.1). */
  const MAGIC_BYTES: seq<byte> := [0xCA, 0xFE, 0xBA, 0xBE]

  /** InputStream.readNBytes(n) on a fresh stream over content: at most n
      bytes, fewer only when the content is shorter. */
  function ReadNBytes(content: seq<byte>, n: nat): (r: seq<byte>)
    ensures |r| == if |content| < n then |content| else n
    ensures content == r + content[|r|..]
  {
    if |content| < n then content else content[..n]
  }

  /** The header test of the build plugins: the first read of four bytes
      yields exactly four bytes, and they are the magic. */
  function IsClassFile(content: seq<byte>): (r: bool)
    ensures r <==> |content| >= 4 && content[..4] == MAGIC_BYTES
  {
    var header := ReadNBytes(content, 4);
    |header| == 4 && header == MAGIC_BYTES
  }
}
