/**
 * Text on the wire: the ASCII and UTF-8 codecs that Python's `str.encode` and
 * `bytes.decode` apply to commands and replies, and Python's `str.strip()`,
 * which every reply goes through before it is looked at.
 */
module Text {
  import opened Options

  /** One octet on the serial line. */
  newtype byte = x: int | 0 <= x < 0x100

  /** The carriage return that terminates every command. */
  const CR: byte := 0x0D
  /** The line feed at which a serial `readline` stops. */
  const LF: byte := 0x0A

  // ---------------------------------------------------------------------------
  // ASCII
  // ---------------------------------------------------------------------------

  predicate IsAscii(s: string) {
    forall i :: 0 <= i < |s| ==> s[i] as int < 0x80
  }

  predicate AllAscii(b: seq<byte>) {
    forall i :: 0 <= i < |b| ==> b[i] as int < 0x80
  }

  /** `s.encode('ascii')`: one byte per character, or a `UnicodeEncodeError`
      (None) as soon as one character is outside ASCII. */
  function AsciiEncode(s: string): (r: Option<seq<byte>>)
    ensures r.Some? <==> IsAscii(s)
    ensures r.Some? ==> |r.value| == |s| && AllAscii(r.value)
    ensures r.Some? ==> forall i :: 0 <= i < |s| ==> r.value[i] as int == s[i] as int
  {
    if IsAscii(s) then Some(seq(|s|, i requires 0 <= i < |s| => s[i] as int as byte)) else None
  }

  /** `b.decode('ascii')`: one character per byte, or a `UnicodeDecodeError`
      (None) as soon as one byte is 0x80 or above. */
  function AsciiDecode(b: seq<byte>): (r: Option<string>)
    ensures r.Some? <==> AllAscii(b)
    ensures r.Some? ==> |r.value| == |b| && IsAscii(r.value)
    ensures r.Some? ==> forall i :: 0 <= i < |b| ==> r.value[i] as int == b[i] as int
  {
    if AllAscii(b) then Some(seq(|b|, i requires 0 <= i < |b| => b[i] as int as char)) else None
  }

  /** Encoding distributes over concatenation, which is what makes
      `(command + '\r').encode('ascii')` the command's bytes followed by CR. */
  lemma AsciiEncodeAppend(s: string, t: string)
    requires IsAscii(s) && IsAscii(t)
    ensures IsAscii(s + t)
    ensures AsciiEncode(s + t).value == AsciiEncode(s).value + AsciiEncode(t).value
  {
    var l, r := AsciiEncode(s + t).value, AsciiEncode(s).value + AsciiEncode(t).value;
    assert |l| == |r|;
    forall i | 0 <= i < |l| ensures l[i] == r[i] {
      if i < |s| { assert (s + t)[i] == s[i]; } else { assert (s + t)[i] == t[i - |s|]; }
    }
  }

  /** Appending the terminator: the text stays ASCII exactly when it was, and
      its bytes gain one CR. */
  lemma AsciiEncodeWithCR(s: string)
    ensures IsAscii(s + "\r") <==> IsAscii(s)
    ensures IsAscii(s) ==> AsciiEncode(s + "\r").value == AsciiEncode(s).value + [CR]
  {
    if IsAscii(s + "\r") {
      forall i | 0 <= i < |s| ensures s[i] as int < 0x80 { assert (s + "\r")[i] == s[i]; }
    }
    if IsAscii(s) {
      AsciiEncodeAppend(s, "\r");
    }
  }

  /** Decoding what was encoded gives back the text, and the other way round. */
  lemma AsciiRoundTrip(s: string, b: seq<byte>)
    ensures IsAscii(s) ==> AsciiDecode(AsciiEncode(s).value) == Some(s)
    ensures AllAscii(b) ==> AsciiEncode(AsciiDecode(b).value) == Some(b)
  {
    if IsAscii(s) {
      var e := AsciiEncode(s).value;
      var d := AsciiDecode(e).value;
      assert |d| == |s|;
      forall i | 0 <= i < |s| ensures d[i] == s[i] {
        assert d[i] as int == s[i] as int;
      }
      assert d == s;
    }
    if AllAscii(b) {
      var d := AsciiDecode(b).value;
      var e := AsciiEncode(d).value;
      forall i | 0 <= i < |b| ensures e[i] == b[i] {
        assert e[i] as int == b[i] as int;
      }
      assert e == b;
    }
  }

  // ---------------------------------------------------------------------------
  // Python's str.strip()
  // ---------------------------------------------------------------------------

  /** The characters for which Python's `str.isspace()` holds; `strip()` with no
      argument removes exactly these from both ends. */
  predicate IsSpace(c: char) {
    var n := c as int;
    (0x09 <= n <= 0x0D) || (0x1C <= n <= 0x20) || n == 0x85 || n == 0xA0 || n == 0x1680
    || (0x2000 <= n <= 0x200A) || n == 0x2028 || n == 0x2029 || n == 0x202F || n == 0x205F
    || n == 0x3000
  }

  /** The number of whitespace characters at the start of `s`. */
  function Lead(s: string): (n: nat)
    ensures n <= |s|
    ensures forall k :: 0 <= k < n ==> IsSpace(s[k])
    ensures n < |s| ==> !IsSpace(s[n])
  {
    if s != [] && IsSpace(s[0]) then 1 + Lead(s[1..]) else 0
  }

  /** The number of whitespace characters at the end of `s`. */
  function Trail(s: string): (n: nat)
    ensures n <= |s|
    ensures forall k :: |s| - n <= k < |s| ==> IsSpace(s[k])
    ensures n < |s| ==> !IsSpace(s[|s| - 1 - n])
  {
    if s != [] && IsSpace(s[|s| - 1]) then 1 + Trail(s[..|s| - 1]) else 0
  }

  /** `s.strip()`: the longest slice of `s` that neither starts nor ends with
      whitespace, everything around it being whitespace. */
  function Strip(s: string): (r: string)
    ensures r == [] || (!IsSpace(r[0]) && !IsSpace(r[|r| - 1]))
    ensures Lead(s) + |r| <= |s| && r == s[Lead(s)..Lead(s) + |r|]
    ensures forall k :: 0 <= k < |s| && !(Lead(s) <= k < Lead(s) + |r|) ==> IsSpace(s[k])
  {
    var t := s[Lead(s)..];
    t[..|t| - Trail(t)]
  }

  /** `t` is the single character `c` with nothing but whitespace around it. */
  ghost predicate Padded(t: string, c: char) {
    exists k :: 0 <= k < |t| && t[k] == c && forall i :: 0 <= i < |t| && i != k ==> IsSpace(t[i])
  }

  /** A stripped text equals the one-character text `[c]` (for a non-blank `c`)
      exactly when the text is `c` with whitespace around it. */
  lemma StripIsSingle(t: string, c: char)
    requires !IsSpace(c)
    ensures Strip(t) == [c] <==> Padded(t, c)
  {
    if Strip(t) == [c] {
      var k := Lead(t);
      assert t[k] == c;
      assert forall i :: 0 <= i < |t| && i != k ==> IsSpace(t[i]);
    }
    if Padded(t, c) {
      var k :| 0 <= k < |t| && t[k] == c && forall i :: 0 <= i < |t| && i != k ==> IsSpace(t[i]);
      var n := Lead(t);
      assert n == k;
      var u := t[k..];
      var m := Trail(u);
      assert forall i :: 0 < i < |u| ==> IsSpace(u[i]) by {
        forall i | 0 < i < |u| ensures IsSpace(u[i]) { assert u[i] == t[k + i]; }
      }
      assert m == |u| - 1;
      assert Strip(t) == u[..1];
    }
  }

  /** A text made only of whitespace, the empty text included, strips to "". */
  lemma StripBlank(t: string)
    requires forall i :: 0 <= i < |t| ==> IsSpace(t[i])
    ensures Strip(t) == ""
  {
  }

  // ---------------------------------------------------------------------------
  // UTF-8 (Python's default codec for str.encode() and bytes.decode())
  // ---------------------------------------------------------------------------

  predicate IsContinuation(b: byte) {
    0x80 <= b as int <= 0xBF
  }

  /** The UTF-8 form of one Unicode scalar value: one to four bytes. */
  function EncodeScalar(c: char): (r: seq<byte>)
    ensures 1 <= |r| <= 4
    ensures (|r| == 1) <==> (c as int < 0x80)
    ensures |r| == 1 ==> r[0] as int == c as int
  {
    var n := c as int;
    if n < 0x80 then
      [n as byte]
    else if n < 0x800 then
      [(0xC0 + n / 64) as byte, (0x80 + n % 64) as byte]
    else if n < 0x10000 then
      [(0xE0 + n / 4096) as byte, (0x80 + (n / 64) % 64) as byte, (0x80 + n % 64) as byte]
    else
      [(0xF0 + n / 262144) as byte, (0x80 + (n / 4096) % 64) as byte,
       (0x80 + (n / 64) % 64) as byte, (0x80 + n % 64) as byte]
  }

  /** `s.encode()`: the UTF-8 form of every character, in order; each
      character takes one to four bytes. */
  function Utf8Encode(s: string): (r: seq<byte>)
    ensures |s| <= |r| <= 4 * |s|
  {
    if s == [] then [] else EncodeScalar(s[0]) + Utf8Encode(s[1..])
  }

  /** The scalar value at the start of `b` and the number of bytes it takes,
      under the strict rules of Python's UTF-8 decoder: no overlong forms, no
      surrogates, nothing above U+10FFFF, no truncated sequence. */
  function DecodeScalar(b: seq<byte>): (r: Option<(char, nat)>)
    ensures r.Some? ==> 1 <= r.value.1 <= |b| && r.value.1 <= 4
  {
    if |b| == 0 then None
    else
      var b0 := b[0] as int;
      if b0 < 0x80 then
        Some((b0 as char, 1))
      else if 0xC2 <= b0 <= 0xDF then
        if |b| >= 2 && IsContinuation(b[1]) then
          Some((((b0 - 0xC0) * 64 + (b[1] as int - 0x80)) as char, 2))
        else None
      else if 0xE0 <= b0 <= 0xEF then
        var lo := if b0 == 0xE0 then 0xA0 else 0x80;
        var hi := if b0 == 0xED then 0x9F else 0xBF;
        if |b| >= 3 && lo <= b[1] as int <= hi && IsContinuation(b[2]) then
          Some((((b0 - 0xE0) * 4096 + (b[1] as int - 0x80) * 64 + (b[2] as int - 0x80)) as char, 3))
        else None
      else if 0xF0 <= b0 <= 0xF4 then
        var lo := if b0 == 0xF0 then 0x90 else 0x80;
        var hi := if b0 == 0xF4 then 0x8F else 0xBF;
        if |b| >= 4 && lo <= b[1] as int <= hi && IsContinuation(b[2]) && IsContinuation(b[3]) then
          Some((((b0 - 0xF0) * 262144 + (b[1] as int - 0x80) * 4096
                 + (b[2] as int - 0x80) * 64 + (b[3] as int - 0x80)) as char, 4))
        else None
      else None
  }

  /** `b.decode()`: the text `b` encodes, or a `UnicodeDecodeError` (None);
      each character decoded takes one to four bytes. */
  function Utf8Decode(b: seq<byte>): (r: Option<string>)
    ensures r.Some? ==> |r.value| <= |b| <= 4 * |r.value|
    decreases |b|
  {
    if b == [] then Some([])
    else match DecodeScalar(b)
      case None => None
      case Some((c, n)) =>
        match Utf8Decode(b[n..])
        case None => None
        case Some(rest) => Some([c] + rest)
  }

  /** Splitting a value into 6-bit groups and joining them again is the identity. */
  lemma SixBitGroups(n: int)
    requires 0 <= n
    ensures (n / 64) * 64 + n % 64 == n
    ensures (n / 4096) * 64 + (n / 64) % 64 == n / 64
    ensures (n / 262144) * 64 + (n / 4096) % 64 == n / 4096
  {
  }

  lemma DecodeEncodedScalar(c: char, rest: seq<byte>)
    ensures DecodeScalar(EncodeScalar(c) + rest) == Some((c, |EncodeScalar(c)|))
  {
    var n := c as int;
    var b := EncodeScalar(c) + rest;
    SixBitGroups(n);
    if n < 0x80 {
    } else if n < 0x800 {
      DecodeTwo(n, b);
    } else if n < 0x10000 {
      DecodeThree(n, b);
    } else {
      DecodeFour(n, b);
    }
  }

  lemma DecodeTwo(n: int, b: seq<byte>)
    requires 0x80 <= n < 0x800 && |b| >= 2
    requires b[0] as int == 0xC0 + n / 64 && b[1] as int == 0x80 + n % 64
    requires (n / 64) * 64 + n % 64 == n
    ensures DecodeScalar(b) == Some((n as char, 2))
  {
  }

  lemma DecodeThree(n: int, b: seq<byte>)
    requires 0x800 <= n < 0x10000 && (n < 0xD800 || 0xE000 <= n) && |b| >= 3
    requires b[0] as int == 0xE0 + n / 4096 && b[1] as int == 0x80 + (n / 64) % 64
    requires b[2] as int == 0x80 + n % 64
    requires (n / 64) * 64 + n % 64 == n
    requires (n / 4096) * 64 + (n / 64) % 64 == n / 64
    ensures DecodeScalar(b) == Some((n as char, 3))
  {
    assert (b[0] as int - 0xE0) * 4096 + (b[1] as int - 0x80) * 64 + (b[2] as int - 0x80) == n;
  }

  lemma DecodeFour(n: int, b: seq<byte>)
    requires 0x10000 <= n <= 0x10FFFF && |b| >= 4
    requires b[0] as int == 0xF0 + n / 262144 && b[1] as int == 0x80 + (n / 4096) % 64
    requires b[2] as int == 0x80 + (n / 64) % 64 && b[3] as int == 0x80 + n % 64
    requires (n / 64) * 64 + n % 64 == n
    requires (n / 4096) * 64 + (n / 64) % 64 == n / 64
    requires (n / 262144) * 64 + (n / 4096) % 64 == n / 4096
    ensures DecodeScalar(b) == Some((n as char, 4))
  {
    assert (b[0] as int - 0xF0) * 262144 + (b[1] as int - 0x80) * 4096
           + (b[2] as int - 0x80) * 64 + (b[3] as int - 0x80) == n;
  }

  /** Decoding the UTF-8 form of a text gives the text back. */
  lemma {:induction false} Utf8RoundTrip(s: string)
    ensures Utf8Decode(Utf8Encode(s)) == Some(s)
  {
    if s != [] {
      var e := EncodeScalar(s[0]);
      var rest := Utf8Encode(s[1..]);
      DecodeEncodedScalar(s[0], rest);
      assert (e + rest)[|e|..] == rest;
      Utf8RoundTrip(s[1..]);
      assert [s[0]] + s[1..] == s;
    }
  }

  /** The converse of the round trip: bytes that decode are the UTF-8 form of
      the text they decode to. With the round trip this makes the decoder
      strict: the only byte sequences it accepts are the encoder's outputs,
      so overlong forms and encoded surrogates are refused. */
  lemma {:induction false} Utf8DecodeEncodes(b: seq<byte>)
    ensures Utf8Decode(b).Some? ==> Utf8Encode(Utf8Decode(b).value) == b
    decreases |b|
  {
    if b != [] && Utf8Decode(b).Some? {
      var n := DecodeStep(b);
      var c, rest := DecodeScalar(b).value.0, Utf8Decode(b[n..]).value;
      Utf8DecodeEncodes(b[n..]);
      EncodeDecodedScalar(b);
      EncodeCons(c, rest);
      calc {
        Utf8Encode(Utf8Decode(b).value);
        Utf8Encode([c] + rest);
        EncodeScalar(c) + Utf8Encode(rest);
        b[..n] + b[n..];
        { TakeDrop(b, n); }
        b;
      }
    }
  }

  /** One step of a successful decode: a scalar value of `n` bytes, then the rest. */
  lemma DecodeStep(b: seq<byte>) returns (n: nat)
    requires b != [] && Utf8Decode(b).Some?
    ensures DecodeScalar(b).Some? && n == DecodeScalar(b).value.1 && n <= |b|
    ensures Utf8Decode(b[n..]).Some?
    ensures Utf8Decode(b).value == [DecodeScalar(b).value.0] + Utf8Decode(b[n..]).value
  {
    n := DecodeScalar(b).value.1;
  }

  /** A generic sequence fact, proved apart so that the proofs using it stay cheap. */
  lemma TakeDrop<T>(s: seq<T>, n: nat)
    requires n <= |s|
    ensures s[..n] + s[n..] == s
  {
  }

  lemma EncodeCons(c: char, rest: string)
    ensures Utf8Encode([c] + rest) == EncodeScalar(c) + Utf8Encode(rest)
  {
    var text := [c] + rest;
    assert text[0] == c && text[1..] == rest;
  }

  /** A scalar value the decoder reads is encoded as exactly the bytes it
      was read from. */
  lemma EncodeDecodedScalar(b: seq<byte>)
    requires DecodeScalar(b).Some?
    ensures EncodeScalar(DecodeScalar(b).value.0) == b[..DecodeScalar(b).value.1]
  {
    var b0 := b[0] as int;
    if b0 < 0x80 {
      assert b[..1] == [b[0]];
    } else if b0 <= 0xDF {
      EncodeDecodedTwo(b);
    } else if b0 <= 0xEF {
      EncodeDecodedThree(b);
    } else {
      EncodeDecodedFour(b);
    }
  }

  lemma EncodeDecodedTwo(b: seq<byte>)
    requires |b| >= 2 && 0xC2 <= b[0] as int <= 0xDF && IsContinuation(b[1])
    ensures DecodeScalar(b).Some? && DecodeScalar(b).value.1 == 2
    ensures EncodeScalar(DecodeScalar(b).value.0) == b[..2]
  {
    var x, y := b[0] as int - 0xC0, b[1] as int - 0x80;
    var c := DecodeScalar(b).value.0;
    assert c as int == x * 64 + y;
    EncodeTwo(x, y, c);
    assert b[..2] == [b[0], b[1]];
  }

  lemma EncodeDecodedThree(b: seq<byte>)
    requires |b| >= 3 && 0xE0 <= b[0] as int <= 0xEF
    requires (if b[0] == 0xE0 then 0xA0 else 0x80) <= b[1] as int <= (if b[0] == 0xED then 0x9F else 0xBF)
    requires IsContinuation(b[2])
    ensures DecodeScalar(b).Some? && DecodeScalar(b).value.1 == 3
    ensures EncodeScalar(DecodeScalar(b).value.0) == b[..3]
  {
    var x, y, z := b[0] as int - 0xE0, b[1] as int - 0x80, b[2] as int - 0x80;
    var c := DecodeScalar(b).value.0;
    assert c as int == x * 4096 + y * 64 + z;
    EncodeThree(x, y, z, c);
    assert b[..3] == [b[0], b[1], b[2]];
  }

  lemma EncodeDecodedFour(b: seq<byte>)
    requires |b| >= 4 && 0xF0 <= b[0] as int <= 0xF4
    requires (if b[0] == 0xF0 then 0x90 else 0x80) <= b[1] as int <= (if b[0] == 0xF4 then 0x8F else 0xBF)
    requires IsContinuation(b[2]) && IsContinuation(b[3])
    ensures DecodeScalar(b).Some? && DecodeScalar(b).value.1 == 4
    ensures EncodeScalar(DecodeScalar(b).value.0) == b[..4]
  {
    var x, y, z, w := b[0] as int - 0xF0, b[1] as int - 0x80, b[2] as int - 0x80, b[3] as int - 0x80;
    var c := DecodeScalar(b).value.0;
    assert c as int == x * 262144 + y * 4096 + z * 64 + w;
    EncodeFour(x, y, z, w, c);
    assert b[..4] == [b[0], b[1], b[2], b[3]];
  }

  lemma EncodeTwo(x: int, y: int, c: char)
    requires 2 <= x < 32 && 0 <= y < 64 && c as int == x * 64 + y
    ensures EncodeScalar(c) == [(0xC0 + x) as byte, (0x80 + y) as byte]
  {
  }

  lemma EncodeThree(x: int, y: int, z: int, c: char)
    requires 0 <= x < 16 && 0 <= y < 64 && 0 <= z < 64 && (x == 0 ==> y >= 0x20)
    requires c as int == x * 4096 + y * 64 + z
    ensures EncodeScalar(c) == [(0xE0 + x) as byte, (0x80 + y) as byte, (0x80 + z) as byte]
  {
    var n := c as int;
    assert n / 64 == x * 64 + y;
    assert n / 4096 == x;
  }

  lemma EncodeFour(x: int, y: int, z: int, w: int, c: char)
    requires 0 <= x <= 4 && 0 <= y < 64 && 0 <= z < 64 && 0 <= w < 64
    requires (x == 0 ==> y >= 0x10) && (x == 4 ==> y < 0x10)
    requires c as int == x * 262144 + y * 4096 + z * 64 + w
    ensures EncodeScalar(c) == [(0xF0 + x) as byte, (0x80 + y) as byte, (0x80 + z) as byte, (0x80 + w) as byte]
  {
    var n := c as int;
    assert n / 64 == x * 4096 + y * 64 + z;
    assert n / 4096 == x * 64 + y;
    assert n / 262144 == x;
  }

  /** UTF-8 encoding distributes over concatenation. */
  lemma {:induction false} Utf8EncodeAppend(s: string, t: string)
    ensures Utf8Encode(s + t) == Utf8Encode(s) + Utf8Encode(t)
  {
    if s != [] {
      var c, rest := s[0], s[1..];
      ConsAppend(s, t);
      EncodeCons(c, rest + t);
      Utf8EncodeAppend(rest, t);
      EncodeCons(c, rest);
      ConcatAssoc(EncodeScalar(c), Utf8Encode(rest), Utf8Encode(t));
    } else {
      assert s + t == t;
    }
  }

  /** A generic sequence fact, proved apart so that the proofs using it stay cheap. */
  lemma ConsAppend<T>(s: seq<T>, t: seq<T>)
    requires s != []
    ensures s == [s[0]] + s[1..] && s + t == [s[0]] + (s[1..] + t)
  {
  }

  /** A generic sequence fact, proved apart so that the proofs using it stay cheap. */
  lemma ConcatAssoc<T>(a: seq<T>, b: seq<T>, c: seq<T>)
    ensures a + (b + c) == (a + b) + c
  {
  }

  /** On ASCII text, UTF-8 and ASCII agree byte for byte. */
  lemma {:induction false} Utf8EncodeAscii(s: string)
    requires IsAscii(s)
    ensures Utf8Encode(s) == AsciiEncode(s).value
  {
    if s != [] {
      assert IsAscii(s[1..]) by {
        forall i | 0 <= i < |s[1..]| ensures s[1..][i] as int < 0x80 { assert s[1..][i] == s[i + 1]; }
      }
      Utf8EncodeAscii(s[1..]);
      assert s == [s[0]] + s[1..];
      AsciiEncodeAppend([s[0]], s[1..]);
    }
  }

  /** Bytes that are all ASCII always decode: ASCII is a subset of UTF-8. */
  lemma {:induction false} Utf8DecodeAscii(b: seq<byte>)
    requires AllAscii(b)
    ensures Utf8Decode(b) == AsciiDecode(b)
  {
    if b != [] {
      assert AllAscii(b[1..]) by {
        forall i | 0 <= i < |b[1..]| ensures b[1..][i] as int < 0x80 { assert b[1..][i] == b[i + 1]; }
      }
      Utf8DecodeAscii(b[1..]);
      var d := AsciiDecode(b).value;
      var t := AsciiDecode(b[1..]).value;
      assert d == [d[0]] + t by {
        forall i | 0 <= i < |t| ensures d[i + 1] == t[i] {
          assert d[i + 1] as int == b[i + 1] as int == t[i] as int;
        }
      }
    }
  }
}
