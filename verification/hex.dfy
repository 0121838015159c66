/**
  `ByteArray.toHex` and `String.decodeHex` of `util/CommonUtil.kt`, on JVM
  signed bytes.
 */
module Hex {
  import opened Wrappers

  /** A JVM `Byte`. */
  type Byte = x: int | -128 <= x <= 127

  /** `Int.toByte()`: keeps the low eight bits, read back as a signed value. */
  function ToByte(v: int): (b: Byte)
    ensures (v - b) % 256 == 0
    ensures -128 <= v <= 127 ==> b == v
  {
    var m := v % 256;
    if m >= 128 then m - 256 else m
  }

  /** The value `%x` prints for a `Byte`: negative bytes are shifted up by 2^8. */
  function Unsigned(b: Byte): (u: int)
    ensures 0 <= u < 256
    ensures ToByte(u) == b
  {
    if b < 0 then b + 256 else b
  }

  predicate IsLowerHexDigit(c: char) {
    ('0' <= c <= '9') || ('a' <= c <= 'f')
  }

  /** An ASCII hexadecimal digit in either case. */
  predicate IsHexDigit(c: char) {
    IsLowerHexDigit(c) || ('A' <= c <= 'F')
  }

  /** ASCII lower-casing of a hexadecimal letter; every other character is kept. */
  function LowerAscii(c: char): (l: char)
    ensures IsHexDigit(c) ==> IsLowerHexDigit(l)
    ensures !('A' <= c <= 'F') ==> l == c
  {
    if 'A' <= c <= 'F' then (c as int + 32) as char else c
  }

  /** `LowerAscii` on every character of `s`. */
  function LowerText(s: string): (r: string)
    ensures |r| == |s| && forall i :: 0 <= i < |s| ==> r[i] == LowerAscii(s[i])
  {
    seq(|s|, i requires 0 <= i < |s| => LowerAscii(s[i]))
  }

  /**
    The value of a hexadecimal digit in either case, as `Character.digit(c, 16)`
    gives it for ASCII characters.
   */
  function DigitValue(c: char): (d: Option<int>)
    ensures d.Some? <==> IsHexDigit(c)
    ensures d.Some? ==> 0 <= d.value < 16
    ensures '0' <= c <= '9' ==> d == Some(c as int - '0' as int)
    ensures 'a' <= c <= 'f' ==> d == Some(c as int - 'a' as int + 10)
    ensures 'A' <= c <= 'F' ==> d == Some(c as int - 'A' as int + 10)
  {
    if '0' <= c <= '9' then Some(c as int - '0' as int)
    else if 'a' <= c <= 'f' then Some(c as int - 'a' as int + 10)
    else if 'A' <= c <= 'F' then Some(c as int - 'A' as int + 10)
    else None
  }

  /** Upper and lower case digits have the same value. */
  lemma DigitValueIgnoresCase(c: char)
    ensures DigitValue(LowerAscii(c)) == DigitValue(c)
  {
  }

  /** The lowercase digit `%x` prints for a value below 16. */
  function LowerDigit(d: int): (c: char)
    requires 0 <= d < 16
    ensures IsLowerHexDigit(c) && DigitValue(c) == Some(d)
  {
    if d < 10 then (48 + d) as char else (87 + d) as char
  }

  /** Reading a lowercase digit and printing its value gives the digit back. */
  lemma LowerDigitOfValue(c: char)
    requires IsLowerHexDigit(c)
    ensures LowerDigit(DigitValue(c).value) == c
  {
  }

  /** `String.format("%02x", b)`: exactly two lowercase digits of the unsigned value. */
  function Format02x(b: Byte): (r: string)
    ensures |r| == 2 && IsLowerHexDigit(r[0]) && IsLowerHexDigit(r[1])
    ensures DigitValue(r[0]).Some? && DigitValue(r[1]).Some?
    ensures 16 * DigitValue(r[0]).value + DigitValue(r[1]).value == Unsigned(b)
  {
    var u := Unsigned(b);
    [LowerDigit(u / 16), LowerDigit(u % 16)]
  }

  /** `ByteArray.toHex()`: the bytes' two-digit renderings, concatenated. */
  function ToHex(bytes: seq<Byte>): (r: string)
    ensures |r| == 2 * |bytes|
    ensures forall i :: 0 <= i < |r| ==> IsLowerHexDigit(r[i])
  {
    if |bytes| == 0 then "" else Format02x(bytes[0]) + ToHex(bytes[1..])
  }

  /**
    `toInt(16)` on a two-character chunk: an optional leading `+` or `-` followed
    by one digit, or two digits. Anything else is a `NumberFormatException`.
   */
  function ParseChunk(c0: char, c1: char): (r: Option<int>)
    ensures r.Some? ==> -15 <= r.value <= 255
    ensures r.Some? && r.value < 0 ==> c0 == '-'
    ensures r.None? <==> !IsHexDigit(c1) || (c0 != '-' && c0 != '+' && !IsHexDigit(c0))
    ensures IsHexDigit(c0) && IsHexDigit(c1) ==> r == Some(16 * DigitValue(c0).value + DigitValue(c1).value)
    ensures c0 == '-' && IsHexDigit(c1) ==> r == Some(-DigitValue(c1).value)
    ensures c0 == '+' && IsHexDigit(c1) ==> r == Some(DigitValue(c1).value)
  {
    if c0 == '-' then
      match DigitValue(c1)
      case Some(d) => Some(-d)
      case None => None
    else if c0 == '+' then DigitValue(c1)
    else
      match (DigitValue(c0), DigitValue(c1))
      case (Some(hi), Some(lo)) => Some(16 * hi + lo)
      case _ => None
  }

  /** Why `decodeHex` throws. */
  datatype HexError =
    | OddLength                  // the `check` fails: "Must have an even length"
    | InvalidChunk(chunk: string) // `toInt(16)` rejects this chunk

  /** The chunks of an even-length string, converted in order; the first bad chunk throws. */
  function DecodeChunks(s: string): (r: Result<seq<Byte>, HexError>)
    requires |s| % 2 == 0
    ensures r.Success? ==> 2 * |r.value| == |s|
    ensures r.Failure? ==> r.error.InvalidChunk? && |r.error.chunk| == 2
    decreases |s|
  {
    if |s| == 0 then Success([])
    else
      match ParseChunk(s[0], s[1])
      case None => Failure(InvalidChunk(s[..2]))
      case Some(v) =>
        match DecodeChunks(s[2..])
        case Success(rest) => Success([ToByte(v)] + rest)
        case Failure(e) => Failure(e)
  }

  /** `toInt(16)` on the `i`-th two-character chunk of `s`. */
  function ChunkAt(s: string, i: nat): Option<int>
    requires 2 * i + 2 <= |s|
  {
    ParseChunk(s[2 * i], s[2 * i + 1])
  }

  /** Chunk `i` of `s` is the first one `toInt(16)` rejects. */
  ghost predicate FirstBadChunk(s: string, i: nat) {
    2 * i + 2 <= |s| && ChunkAt(s, i).None? && forall j :: 0 <= j < i ==> ChunkAt(s, j).Some?
  }

  /** Dropping the first chunk shifts every later chunk down by one. */
  lemma ChunkAtTail(s: string, i: nat)
    requires 2 * i + 4 <= |s|
    ensures ChunkAt(s[2..], i) == ChunkAt(s, i + 1)
  {
  }

  /** The chunks of `s` from the `from`-th on all parse. */
  ghost predicate ChunksParseFrom(s: string, from: nat) {
    forall i :: from <= i < |s| / 2 ==> ChunkAt(s, i).Some?
  }

  /**
    Chunk by chunk: decoding succeeds exactly when every chunk parses, and
    byte `i` is then the truncation of chunk `i`'s value.
   */
  lemma {:induction false} DecodeChunksByChunk(s: string)
    requires |s| % 2 == 0
    ensures DecodeChunks(s).Success? <==> ChunksParseFrom(s, 0)
    ensures DecodeChunks(s).Success? ==>
      forall i :: 0 <= i < |s| / 2 ==> DecodeChunks(s).value[i] == ToByte(ChunkAt(s, i).value)
    decreases |s|
  {
    if |s| > 0 && ChunkAt(s, 0).Some? {
      var t := s[2..];
      DecodeChunksByChunk(t);
      forall i | 0 < i < |s| / 2
        ensures ChunkAt(t, i - 1) == ChunkAt(s, i)
      {
        ChunkAtTail(s, i - 1);
      }
      if DecodeChunks(t).Success? {
        assert DecodeChunks(s).value == [ToByte(ChunkAt(s, 0).value)] + DecodeChunks(t).value;
      } else {
        var k :| 0 <= k < |t| / 2 && ChunkAt(t, k).None?;
        assert ChunkAt(s, k + 1).None?;
      }
    }
  }

  /** A first bad chunk of the tail is a first bad chunk of `s`, one further on, when chunk 0 parses. */
  lemma FirstBadShift(s: string, k: nat)
    requires 2 <= |s| && ChunkAt(s, 0).Some? && FirstBadChunk(s[2..], k)
    ensures FirstBadChunk(s, k + 1)
    ensures s[2..][2 * k..2 * k + 2] == s[2 * (k + 1)..2 * (k + 1) + 2]
  {
    forall j | 0 < j < k + 1
      ensures ChunkAt(s, j).Some?
    {
      ChunkAtTail(s, j - 1);
    }
    ChunkAtTail(s, k);
  }

  /** A failure names the first chunk `toInt(16)` rejects. */
  lemma {:induction false} DecodeChunksFailsAtFirstBad(s: string)
    requires |s| % 2 == 0
    ensures DecodeChunks(s).Failure? ==>
      exists i: nat :: FirstBadChunk(s, i) && DecodeChunks(s).error == InvalidChunk(s[2 * i..2 * i + 2])
    decreases |s|
  {
    if |s| > 0 {
      if ChunkAt(s, 0).None? {
        assert FirstBadChunk(s, 0);
      } else if DecodeChunks(s[2..]).Failure? {
        DecodeChunksFailsAtFirstBad(s[2..]);
        var k: nat :| FirstBadChunk(s[2..], k) && DecodeChunks(s[2..]).error == InvalidChunk(s[2..][2 * k..2 * k + 2]);
        FirstBadShift(s, k);
      }
    }
  }

  /** `String.decodeHex()`. */
  function DecodeHex(s: string): (r: Result<seq<Byte>, HexError>)
    ensures r == Failure(OddLength) <==> |s| % 2 == 1
    ensures r.Success? ==> 2 * |r.value| == |s|
  {
    if |s| % 2 != 0 then Failure(OddLength) else DecodeChunks(s)
  }

  /** Decoding undoes encoding, negative bytes included. */
  lemma {:induction false} HexRoundTrip(bytes: seq<Byte>)
    ensures DecodeHex(ToHex(bytes)) == Success(bytes)
    decreases |bytes|
  {
    if |bytes| > 0 {
      var s := ToHex(bytes);
      var head := Format02x(bytes[0]);
      assert s == head + ToHex(bytes[1..]);
      assert s[0] == head[0] && s[1] == head[1] && s[2..] == ToHex(bytes[1..]);
      assert head[0] != '-' && head[0] != '+';
      assert ParseChunk(s[0], s[1]) == Some(Unsigned(bytes[0]));
      HexRoundTrip(bytes[1..]);
      assert [bytes[0]] + bytes[1..] == bytes;
    }
  }

  /** A chunk of two lowercase digits decodes to the byte that prints as that chunk. */
  lemma LowerChunk(c0: char, c1: char)
    requires IsLowerHexDigit(c0) && IsLowerHexDigit(c1)
    ensures ParseChunk(c0, c1).Some? && Format02x(ToByte(ParseChunk(c0, c1).value)) == [c0, c1]
  {
    var hi, lo := DigitValue(c0).value, DigitValue(c1).value;
    LowerDigitOfValue(c0);
    LowerDigitOfValue(c1);
    var b := ToByte(16 * hi + lo);
    assert Unsigned(b) == 16 * hi + lo;
    assert hi == Unsigned(b) / 16 && lo == Unsigned(b) % 16;
  }

  /** A single valid chunk decodes to its one byte. */
  lemma DecodeOneChunk(c0: char, c1: char, v: int)
    requires ParseChunk(c0, c1) == Some(v)
    ensures DecodeChunks([c0, c1]) == Success([ToByte(v)])
  {
    var s := [c0, c1];
    assert s[0] == c0 && s[1] == c1 && s[2..] == [];
    assert DecodeChunks(s[2..]) == Success([]);
    assert [ToByte(v)] + [] == [ToByte(v)];
  }

  /** Encoding undoes decoding on lowercase hexadecimal text of even length. */
  lemma {:induction false} LowerHexRoundTrip(s: string)
    requires |s| % 2 == 0
    requires forall i :: 0 <= i < |s| ==> IsLowerHexDigit(s[i])
    ensures DecodeHex(s).Success? && ToHex(DecodeHex(s).value) == s
    decreases |s|
  {
    if |s| > 0 {
      LowerChunk(s[0], s[1]);
      LowerHexRoundTrip(s[2..]);
      var rest := DecodeHex(s[2..]).value;
      var b := ToByte(ParseChunk(s[0], s[1]).value);
      assert DecodeHex(s).value == [b] + rest;
      assert ToHex([b] + rest) == Format02x(b) + ToHex(rest) by {
        assert ([b] + rest)[1..] == rest;
      }
      assert s == [s[0], s[1]] + s[2..];
    }
  }

  /**
    A signed chunk is accepted: `"-f"` is -15, the same byte as `"f1"`, so
    decoding is not injective.
   */
  lemma SignedChunkAliases()
    ensures DecodeHex("-f") == DecodeHex("f1") == Success([-15])
  {
    assert ParseChunk('-', 'f') == Some(-15);
    assert ParseChunk('f', '1') == Some(241);
    DecodeOneChunk('-', 'f', -15);
    DecodeOneChunk('f', '1', 241);
    assert "-f" == ['-', 'f'] && "f1" == ['f', '1'];
  }

  /** Lower-casing both characters of a chunk does not change what `toInt(16)` reads. */
  lemma ParseChunkIgnoresCase(c0: char, c1: char)
    ensures ParseChunk(LowerAscii(c0), LowerAscii(c1)) == ParseChunk(c0, c1)
  {
    DigitValueIgnoresCase(c0);
    DigitValueIgnoresCase(c1);
  }

  /**
    Decoding ignores the case of hexadecimal letters: hex text and its
    lowercase form are accepted together and give the same bytes.
   */
  lemma DecodeHexIgnoresCase(s: string)
    ensures DecodeHex(LowerText(s)).Success? <==> DecodeHex(s).Success?
    ensures DecodeHex(s).Success? ==> DecodeHex(LowerText(s)).value == DecodeHex(s).value
  {
    var l := LowerText(s);
    if |s| % 2 == 0 {
      forall i | 0 <= i < |s| / 2
        ensures ChunkAt(l, i) == ChunkAt(s, i)
      {
        ParseChunkIgnoresCase(s[2 * i], s[2 * i + 1]);
      }
      DecodeChunksByChunk(s);
      DecodeChunksByChunk(l);
      if DecodeHex(s).Success? {
        assert DecodeHex(l).value == DecodeHex(s).value;
      }
    }
  }

  /**
    Hexadecimal text of even length in either case decodes, and re-encoding
    gives its lowercase form back.
   */
  lemma AnyCaseHexRoundTrip(s: string)
    requires |s| % 2 == 0
    requires forall i :: 0 <= i < |s| ==> IsHexDigit(s[i])
    ensures DecodeHex(s).Success? && ToHex(DecodeHex(s).value) == LowerText(s)
  {
    LowerHexRoundTrip(LowerText(s));
    DecodeHexIgnoresCase(s);
  }

  /** `"FF"` is 255, the byte -1, and `"+f"` is 15. */
  lemma UppercaseAndPlusChunks()
    ensures DecodeHex("FF") == Success([-1])
    ensures DecodeHex("+f") == Success([15])
  {
    assert ParseChunk('F', 'F') == Some(255);
    assert ParseChunk('+', 'f') == Some(15);
    DecodeOneChunk('F', 'F', 255);
    DecodeOneChunk('+', 'f', 15);
    assert "FF" == ['F', 'F'] && "+f" == ['+', 'f'];
  }

  /** The byte 2 prints as "02", and "02" decodes back to 2. */
  lemma DecimalDigitChunk()
    ensures ToHex([2]) == "02"
    ensures DecodeHex("02") == Success([2])
  {
    assert Format02x(2) == ['0', '2'];
    assert ToHex([2]) == Format02x(2) + ToHex([]);
    assert ParseChunk('0', '2') == Some(2);
    DecodeOneChunk('0', '2', 2);
    assert "02" == ['0', '2'];
  }
}
