/**
 * The base64url codec of the secure form provider: `bufferToBase64URLString`
 * and `base64URLStringToBuffer`.
 *
 * The encoder turns every byte into the character with that code, hands the
 * string to `btoa` (the padded base 64 encoding of section 4 of RFC 4648) and
 * rewrites the result into the URL- and filename-safe alphabet of section 5,
 * dropping the padding as section 3.2 allows. The decoder undoes the alphabet
 * change, restores the padding and hands the text to `atob`, which runs the
 * "forgiving-base64 decode" algorithm of the WHATWG Infra standard.
 */
module Base64Url {
  import opened Wrappers
  import opened Exceptions

  /** An element of a `Uint8Array`. */
  type byte = x: int | 0 <= x < 256

  // ---------------------------------------------------------------------
  // The base 64 alphabet (Table 1 of RFC 4648)
  // ---------------------------------------------------------------------

  predicate IsStdChar(c: char) {
    ('A' <= c <= 'Z') || ('a' <= c <= 'z') || ('0' <= c <= '9') || c == '+' || c == '/'
  }

  predicate AllStd(s: string) {
    forall i | 0 <= i < |s| :: IsStdChar(s[i])
  }

  /** The characters of the base64url alphabet (Table 2 of RFC 4648). */
  predicate IsUrlChar(c: char) {
    ('A' <= c <= 'Z') || ('a' <= c <= 'z') || ('0' <= c <= '9') || c == '-' || c == '_'
  }

  predicate AllUrl(s: string) {
    forall i | 0 <= i < |s| :: IsUrlChar(s[i])
  }

  /** The character that encodes the 6-bit value `v`. */
  function StdChar(v: int): (c: char)
    requires 0 <= v < 64
    ensures IsStdChar(c) && StdValue(c) == v
  {
    if v < 26 then (65 + v) as char
    else if v < 52 then (71 + v) as char
    else if v < 62 then (v - 4) as char
    else if v == 62 then '+'
    else '/'
  }

  /** The 6-bit value a character of the alphabet encodes. */
  function StdValue(c: char): (v: int)
    requires IsStdChar(c)
    ensures 0 <= v < 64
  {
    if 'A' <= c <= 'Z' then c as int - 65
    else if 'a' <= c <= 'z' then c as int - 71
    else if '0' <= c <= '9' then c as int + 4
    else if c == '+' then 62
    else 63
  }

  // ---------------------------------------------------------------------
  // Base 64 as `btoa` and `atob` compute it
  // ---------------------------------------------------------------------

  /** The base 64 digits of `b` without padding (section 3.2 of RFC 4648). */
  function EncodeDigits(b: seq<byte>): string
    decreases |b|
  {
    if |b| == 0 then []
    else if |b| == 1 then
      [StdChar(b[0] / 4), StdChar(b[0] % 4 * 16)]
    else if |b| == 2 then
      [StdChar(b[0] / 4), StdChar(b[0] % 4 * 16 + b[1] / 16), StdChar(b[1] % 16 * 4)]
    else Quantum(b[0], b[1], b[2]) + EncodeDigits(b[3..])
  }

  /** The four digits of one full three-byte group. */
  function Quantum(b0: byte, b1: byte, b2: byte): string {
    [StdChar(b0 / 4), StdChar(b0 % 4 * 16 + b1 / 16),
     StdChar(b1 % 16 * 4 + b2 / 64), StdChar(b2 % 64)]
  }

  /** The `=` characters that complete the final quantum of `n` bytes. */
  function Padding(n: nat): string {
    if n % 3 == 1 then "==" else if n % 3 == 2 then "=" else ""
  }

  /** The padded base 64 encoding of section 4 of RFC 4648. */
  function StdEncode(b: seq<byte>): string {
    EncodeDigits(b) + Padding(|b|)
  }

  /**
   * Decodes unpadded base 64 digits. A final group of two or three digits
   * yields one or two bytes; the bits left over are discarded, as the
   * forgiving decoder does.
   */
  function DecodeDigits(s: string): seq<byte>
    requires AllStd(s) && |s| % 4 != 1
    decreases |s|
  {
    if |s| == 0 then []
    else if |s| == 2 then
      [StdValue(s[0]) * 4 + StdValue(s[1]) / 16]
    else if |s| == 3 then
      [StdValue(s[0]) * 4 + StdValue(s[1]) / 16,
       StdValue(s[1]) % 16 * 16 + StdValue(s[2]) / 4]
    else
      [StdValue(s[0]) * 4 + StdValue(s[1]) / 16,
       StdValue(s[1]) % 16 * 16 + StdValue(s[2]) / 4,
       StdValue(s[2]) % 4 * 64 + StdValue(s[3])]
      + DecodeDigits(s[4..])
  }

  /** ASCII whitespace in the sense of the WHATWG Infra standard. */
  predicate IsAsciiWhitespace(c: char) {
    c == '\t' || c == '\n' || c == '\U{000C}' || c == '\r' || c == ' '
  }

  function RemoveWhitespace(s: string): string
    decreases |s|
  {
    if s == [] then []
    else (if IsAsciiWhitespace(s[0]) then [] else [s[0]]) + RemoveWhitespace(s[1..])
  }

  /** When the length is a multiple of four, one or two trailing `=` go. */
  function DropPadding(d: string): string {
    if |d| % 4 == 0 && |d| >= 2 && d[|d| - 2..] == "==" then d[..|d| - 2]
    else if |d| % 4 == 0 && |d| >= 1 && d[|d| - 1] == '=' then d[..|d| - 1]
    else d
  }

  /** The forgiving-base64 decode algorithm of the WHATWG Infra standard. */
  function ForgivingDecode(s: string): Option<seq<byte>> {
    var d := DropPadding(RemoveWhitespace(s));
    if |d| % 4 == 1 || !AllStd(d) then None else Some(DecodeDigits(d))
  }

  /** A JavaScript string whose every character is below U+0100. */
  predicate IsBinaryString(s: string) {
    forall i | 0 <= i < |s| :: s[i] as int < 256
  }

  /** `String.fromCharCode` applied to every byte. */
  function BinaryString(b: seq<byte>): (s: string)
    ensures |s| == |b| && IsBinaryString(s)
  {
    seq(|b|, i requires 0 <= i < |b| => b[i] as char)
  }

  /** `charCodeAt` of every character. */
  function BinaryBytes(s: string): (b: seq<byte>)
    requires IsBinaryString(s)
    ensures |b| == |s|
  {
    seq(|s|, i requires 0 <= i < |s| => s[i] as int)
  }

  /**
   * `btoa`: throws exactly when some character is above U+00FF; otherwise
   * the result is whole four-character groups of base 64 digits and `=`.
   */
  function Btoa(s: string): (r: Result<string, Thrown>)
    ensures r.Ok? <==> IsBinaryString(s)
    ensures r.Err? ==> r.error == BtoaInvalidCharacter
    ensures r.Ok? ==> |r.value| % 4 == 0 && forall i | 0 <= i < |r.value| :: IsStdChar(r.value[i]) || r.value[i] == '='
  {
    if IsBinaryString(s) then
      StdEncodeShape(BinaryBytes(s));
      Ok(StdEncode(BinaryBytes(s)))
    else Err(BtoaInvalidCharacter)
  }

  /** The padded encoding is whole groups of four, made of digits and `=`. */
  lemma StdEncodeShape(b: seq<byte>)
    ensures |StdEncode(b)| % 4 == 0
    ensures forall i | 0 <= i < |StdEncode(b)| :: IsStdChar(StdEncode(b)[i]) || StdEncode(b)[i] == '='
  {
    var e := EncodeDigits(b);
    EncodeDigitsShape(b);
    PadLengthOfDigitCount(|b|);
    PaddingIsRepeat(|b|);
    assert |Padding(|b|)| == PadLength(|e|);
    forall i | 0 <= i < |e + Padding(|b|)| ensures IsStdChar((e + Padding(|b|))[i]) || (e + Padding(|b|))[i] == '=' {
      if i < |e| { assert (e + Padding(|b|))[i] == e[i]; }
    }
  }

  /**
   * `atob`: throws only the InvalidCharacterError DOMException, and what it
   * returns is a binary string: one character per byte.
   */
  function Atob(s: string): (r: Result<string, Thrown>)
    ensures r.Err? ==> r.error == AtobInvalidCharacter
    ensures r.Ok? ==> IsBinaryString(r.value)
  {
    match ForgivingDecode(s)
    case None => Err(AtobInvalidCharacter)
    case Some(b) => Ok(BinaryString(b))
  }

  // ---------------------------------------------------------------------
  // The alphabet rewrite and the padding arithmetic
  // ---------------------------------------------------------------------

  /** `s.replace(/from/g, to)` for a one-character pattern. */
  function ReplaceAll(s: string, from: char, to: string): string
    decreases |s|
  {
    if s == [] then []
    else (if s[0] == from then to else [s[0]]) + ReplaceAll(s[1..], from, to)
  }

  lemma {:induction false} ReplaceAllAbsent(s: string, from: char, to: string)
    requires forall i | 0 <= i < |s| :: s[i] != from
    ensures ReplaceAll(s, from, to) == s
    decreases |s|
  {
    if s != [] {
      ReplaceAllAbsent(s[1..], from, to);
    }
  }

  /** The three replacements of `bufferToBase64URLString`, in order. */
  function ToUrlSafe(s: string): string {
    ReplaceAll(ReplaceAll(ReplaceAll(s, '+', "-"), '/', "_"), '=', "")
  }

  /** The two replacements of `base64URLStringToBuffer`, in order. */
  function FromUrlSafe(s: string): string {
    ReplaceAll(ReplaceAll(s, '-', "+"), '_', "/")
  }

  /** `(4 - n % 4) % 4`: the fewest `=` that make the length a multiple of four. */
  function PadLength(n: nat): (p: nat)
    ensures p < 4 && (n + p) % 4 == 0
  {
    (4 - n % 4) % 4
  }

  function Repeat(c: char, n: nat): (s: string)
    ensures |s| == n && forall i | 0 <= i < n :: s[i] == c
  {
    seq(n, _ => c)
  }

  // ---------------------------------------------------------------------
  // The two operations
  // ---------------------------------------------------------------------

  /** What `bufferToBase64URLString` returns. */
  function Encode(b: seq<byte>): string {
    ToUrlSafe(StdEncode(b))
  }

  /** What `base64URLStringToBuffer` returns, or the exception it throws. */
  function Decode(s: string): Result<seq<byte>, Thrown> {
    var base64 := FromUrlSafe(s);
    var padded := base64 + Repeat('=', PadLength(|base64|));
    match Atob(padded)
    case Err(e) => Err(e)
    case Ok(binary) => Ok(BinaryBytes(binary))
  }

  /** `bufferToBase64URLString`: builds the binary string one byte at a time. */
  method BufferToBase64UrlString(buffer: seq<byte>) returns (s: string)
    ensures s == Encode(buffer)
  {
    var str := "";
    for i := 0 to |buffer|
      invariant str == BinaryString(buffer[..i])
    {
      str := str + [buffer[i] as char];
    }
    assert buffer[..|buffer|] == buffer;
    BinaryBytesOfBinaryString(buffer);
    var base64String := Btoa(str).value;
    s := ToUrlSafe(base64String);
  }

  /** `base64URLStringToBuffer`: fills a fresh byte array from `atob`'s output. */
  method Base64UrlStringToBuffer(base64UrlString: string) returns (r: Result<seq<byte>, Thrown>)
    ensures r == Decode(base64UrlString)
  {
    var base64 := FromUrlSafe(base64UrlString);
    var padLength := PadLength(|base64|);
    var padded := base64 + Repeat('=', padLength);
    var binary :- Atob(padded);
    var bytes := CharCodes(binary);
    r := Ok(bytes);
  }

  /** The decoder's copy loop: a `Uint8Array` filled with `charCodeAt(i)`. */
  method CharCodes(binary: string) returns (bytes: seq<byte>)
    requires IsBinaryString(binary)
    ensures bytes == BinaryBytes(binary)
  {
    var buffer := new byte[|binary|];
    for i := 0 to |binary|
      invariant forall j | 0 <= j < i :: buffer[j] == binary[j] as int
    {
      buffer[i] := binary[i] as int;
    }
    bytes := buffer[..];
  }

  // ---------------------------------------------------------------------
  // Properties
  // ---------------------------------------------------------------------

  lemma BinaryBytesOfBinaryString(b: seq<byte>)
    ensures BinaryBytes(BinaryString(b)) == b
  {
  }

  /** The six-bit groups of three bytes recombine into the same three bytes. */
  lemma QuantumRoundTrip(b0: byte, b1: byte, b2: byte)
    ensures b0 / 4 * 4 + (b0 % 4 * 16 + b1 / 16) / 16 == b0
    ensures (b0 % 4 * 16 + b1 / 16) % 16 * 16 + (b1 % 16 * 4 + b2 / 64) / 4 == b1
    ensures (b1 % 16 * 4 + b2 / 64) % 4 * 64 + b2 % 64 == b2
  {
  }

  lemma {:induction false} EncodeDigitsShape(b: seq<byte>)
    ensures AllStd(EncodeDigits(b))
    ensures |EncodeDigits(b)| == 4 * (|b| / 3) + (if |b| % 3 == 0 then 0 else |b| % 3 + 1)
    decreases |b|
  {
    if |b| >= 3 {
      EncodeDigitsShape(b[3..]);
    }
  }

  lemma DecodeOneByte(b0: byte)
    ensures AllStd(EncodeDigits([b0])) && DecodeDigits(EncodeDigits([b0])) == [b0]
  {
    var v0, v1 := b0 / 4, b0 % 4 * 16;
    var s := [StdChar(v0), StdChar(v1)];
    assert EncodeDigits([b0]) == s;
    assert StdValue(s[0]) == v0 && StdValue(s[1]) == v1;
    assert v0 * 4 + v1 / 16 == b0;
  }

  lemma DecodeTwoBytes(b0: byte, b1: byte)
    ensures AllStd(EncodeDigits([b0, b1])) && DecodeDigits(EncodeDigits([b0, b1])) == [b0, b1]
  {
    var v0, v1, v2 := b0 / 4, b0 % 4 * 16 + b1 / 16, b1 % 16 * 4;
    var s := [StdChar(v0), StdChar(v1), StdChar(v2)];
    assert EncodeDigits([b0, b1]) == s;
    assert StdValue(s[0]) == v0 && StdValue(s[1]) == v1 && StdValue(s[2]) == v2;
    QuantumRoundTrip(b0, b1, 0);
  }

  lemma DecodeQuantum(b0: byte, b1: byte, b2: byte, rest: string)
    requires AllStd(rest) && |rest| % 4 != 1
    ensures AllStd(Quantum(b0, b1, b2) + rest) && |Quantum(b0, b1, b2) + rest| % 4 != 1
    ensures DecodeDigits(Quantum(b0, b1, b2) + rest) == [b0, b1, b2] + DecodeDigits(rest)
  {
    var q := Quantum(b0, b1, b2);
    var s := q + rest;
    QuantumValues(b0, b1, b2);
    assert s[..4] == q && s[4..] == rest;
    QuantumRoundTrip(b0, b1, b2);
  }

  /** The digit values of one quantum are the four six-bit groups. */
  lemma QuantumValues(b0: byte, b1: byte, b2: byte)
    ensures var q := Quantum(b0, b1, b2);
            |q| == 4 && AllStd(q) &&
            StdValue(q[0]) == b0 / 4 && StdValue(q[1]) == b0 % 4 * 16 + b1 / 16 &&
            StdValue(q[2]) == b1 % 16 * 4 + b2 / 64 && StdValue(q[3]) == b2 % 64
  {
  }

  /** One quantum of `EncodeDigits` decodes to its three bytes. */
  lemma DecodeStep(b: seq<byte>)
    requires |b| >= 3
    requires AllStd(EncodeDigits(b[3..])) && |EncodeDigits(b[3..])| % 4 != 1
    ensures AllStd(EncodeDigits(b)) && |EncodeDigits(b)| % 4 != 1
    ensures DecodeDigits(EncodeDigits(b)) == b[..3] + DecodeDigits(EncodeDigits(b[3..]))
  {
    assert EncodeDigits(b) == Quantum(b[0], b[1], b[2]) + EncodeDigits(b[3..]);
    DecodeQuantum(b[0], b[1], b[2], EncodeDigits(b[3..]));
    assert b[..3] == [b[0], b[1], b[2]];
  }

  /** Decoding the digits of any byte sequence gives the bytes back. */
  lemma {:induction false} DecodeEncodeDigits(b: seq<byte>)
    ensures AllStd(EncodeDigits(b)) && |EncodeDigits(b)| % 4 != 1
    ensures DecodeDigits(EncodeDigits(b)) == b
    decreases |b|
  {
    if |b| == 1 {
      assert b == [b[0]];
      DecodeOneByte(b[0]);
    } else if |b| == 2 {
      assert b == [b[0], b[1]];
      DecodeTwoBytes(b[0], b[1]);
    } else if |b| >= 3 {
      DecodeEncodeDigits(b[3..]);
      DecodeStep(b);
      assert b == b[..3] + b[3..];
    }
  }

  lemma {:induction false} ReplaceAllAppend(a: string, b: string, from: char, to: string)
    ensures ReplaceAll(a + b, from, to) == ReplaceAll(a, from, to) + ReplaceAll(b, from, to)
    decreases |a|
  {
    if a == [] {
      assert a + b == b;
    } else {
      assert (a + b)[1..] == a[1..] + b;
      ReplaceAllAppend(a[1..], b, from, to);
    }
  }

  lemma ToUrlSafeAppend(a: string, b: string)
    ensures ToUrlSafe(a + b) == ToUrlSafe(a) + ToUrlSafe(b)
  {
    ReplaceAllAppend(a, b, '+', "-");
    ReplaceAllAppend(ReplaceAll(a, '+', "-"), ReplaceAll(b, '+', "-"), '/', "_");
    ReplaceAllAppend(ReplaceAll(ReplaceAll(a, '+', "-"), '/', "_"),
                     ReplaceAll(ReplaceAll(b, '+', "-"), '/', "_"), '=', "");
  }

  lemma FromUrlSafeAppend(a: string, b: string)
    ensures FromUrlSafe(a + b) == FromUrlSafe(a) + FromUrlSafe(b)
  {
    ReplaceAllAppend(a, b, '-', "+");
    ReplaceAllAppend(ReplaceAll(a, '-', "+"), ReplaceAll(b, '-', "+"), '_', "/");
  }

  /** The rewrite maps base 64 digits one-to-one onto base64url digits, and back. */
  lemma {:induction false} UrlSafeDigits(s: string)
    requires AllStd(s)
    ensures AllUrl(ToUrlSafe(s)) && |ToUrlSafe(s)| == |s|
    ensures FromUrlSafe(ToUrlSafe(s)) == s
    decreases |s|
  {
    if s != [] {
      assert s == [s[0]] + s[1..];
      ToUrlSafeAppend([s[0]], s[1..]);
      UrlSafeDigits(s[1..]);
      FromUrlSafeAppend(ToUrlSafe([s[0]]), ToUrlSafe(s[1..]));
    }
  }

  /** The rewrite maps base64url digits one-to-one onto base 64 digits. */
  lemma {:induction false} FromUrlSafeDigits(s: string)
    requires AllUrl(s)
    ensures AllStd(FromUrlSafe(s)) && |FromUrlSafe(s)| == |s|
    decreases |s|
  {
    if s != [] {
      assert s == [s[0]] + s[1..];
      FromUrlSafeAppend([s[0]], s[1..]);
      FromUrlSafeDigits(s[1..]);
    }
  }

  lemma {:induction false} ToUrlSafeDropsPadding(n: nat)
    ensures ToUrlSafe(Repeat('=', n)) == ""
    decreases n
  {
    if n > 0 {
      assert Repeat('=', n) == ['='] + Repeat('=', n - 1);
      ToUrlSafeAppend(['='], Repeat('=', n - 1));
      ToUrlSafeDropsPadding(n - 1);
    }
  }

  lemma {:induction false} RemoveWhitespaceNoop(s: string)
    requires forall i | 0 <= i < |s| :: !IsAsciiWhitespace(s[i])
    ensures RemoveWhitespace(s) == s
    decreases |s|
  {
    if s != [] {
      RemoveWhitespaceNoop(s[1..]);
    }
  }

  /** `btoa` never throws on a binary string: it returns the padded encoding. */
  lemma BtoaOfBinary(b: seq<byte>)
    ensures Btoa(BinaryString(b)) == Ok(StdEncode(b))
  {
    BinaryBytesOfBinaryString(b);
  }

  lemma {:induction false} StdEncodeNoWhitespace(b: seq<byte>)
    ensures RemoveWhitespace(StdEncode(b)) == StdEncode(b)
  {
    var e := EncodeDigits(b);
    var s := StdEncode(b);
    EncodeDigitsShape(b);
    forall i | 0 <= i < |s| ensures !IsAsciiWhitespace(s[i]) {
      if i < |e| { assert s[i] == e[i] && IsStdChar(e[i]); }
    }
    RemoveWhitespaceNoop(s);
  }

  lemma DropPaddingTwo(e: string)
    requires |e| % 4 == 2
    ensures DropPadding(e + "==") == e
  {
    var d := e + "==";
    assert d[|d| - 2..] == "==";
    assert d[..|d| - 2] == e;
  }

  lemma DropPaddingOne(e: string)
    requires |e| % 4 == 3 && IsStdChar(e[|e| - 1])
    ensures DropPadding(e + "=") == e
  {
    var d := e + "=";
    assert d[|d| - 2] == e[|e| - 1];
    assert d[|d| - 2..] != "==";
    assert d[..|d| - 1] == e;
  }

  lemma DropPaddingNone(e: string)
    requires |e| % 4 == 0 && (|e| > 0 ==> IsStdChar(e[|e| - 1]))
    ensures DropPadding(e) == e
  {
    if |e| > 0 {
      assert e[|e| - 2..][1] == e[|e| - 1];
    }
  }

  lemma DropPaddingOfDigits(e: string, n: nat)
    requires AllStd(e)
    requires |e| == 4 * (n / 3) + (if n % 3 == 0 then 0 else n % 3 + 1)
    ensures DropPadding(e + Padding(n)) == e
  {
    if n % 3 == 1 {
      DropPaddingTwo(e);
    } else if n % 3 == 2 {
      DropPaddingOne(e);
    } else {
      assert e + Padding(n) == e;
      DropPaddingNone(e);
    }
  }

  lemma DropPaddingOfStdEncode(b: seq<byte>)
    ensures DropPadding(StdEncode(b)) == EncodeDigits(b)
  {
    EncodeDigitsShape(b);
    DropPaddingOfDigits(EncodeDigits(b), |b|);
  }

  /** `atob` inverts the padded encoding. */
  lemma AtobOfStdEncode(b: seq<byte>)
    ensures Atob(StdEncode(b)) == Ok(BinaryString(b))
  {
    DecodeEncodeDigits(b);
    StdEncodeNoWhitespace(b);
    DropPaddingOfStdEncode(b);
    assert ForgivingDecode(StdEncode(b)) == Some(b);
  }

  /**
   * Round trip: decoding the encoding of any byte sequence, the empty one
   * included, returns the same bytes.
   */
  lemma DecodeEncode(b: seq<byte>)
    ensures Decode(Encode(b)) == Ok(b)
  {
    var e := EncodeDigits(b);
    EncodeDigitsShape(b);
    EncodeIsUrlSafeDigits(b);
    UrlSafeDigits(e);
    RestoredPadding(b);
    assert FromUrlSafe(Encode(b)) + Repeat('=', PadLength(|FromUrlSafe(Encode(b))|)) == StdEncode(b);
    AtobOfStdEncode(b);
    BinaryBytesOfBinaryString(b);
  }

  /** The encoding is the URL-safe rewrite of the unpadded digits. */
  lemma EncodeIsUrlSafeDigits(b: seq<byte>)
    ensures Encode(b) == ToUrlSafe(EncodeDigits(b))
  {
    ToUrlSafeAppend(EncodeDigits(b), Padding(|b|));
    assert Padding(|b|) == Repeat('=', |Padding(|b|)|);
    ToUrlSafeDropsPadding(|Padding(|b|)|);
  }

  /** The decoder restores exactly the padding the encoder dropped. */
  lemma RestoredPadding(b: seq<byte>)
    ensures Repeat('=', PadLength(|EncodeDigits(b)|)) == Padding(|b|)
  {
    EncodeDigitsShape(b);
    PadLengthOfDigitCount(|b|);
    PaddingIsRepeat(|b|);
  }

  lemma PadLengthOfDigitCount(n: nat)
    ensures PadLength(4 * (n / 3) + (if n % 3 == 0 then 0 else n % 3 + 1)) == |Padding(n)|
  {
    var q := n / 3;
    assert n == 3 * q + n % 3;
  }

  lemma PaddingIsRepeat(n: nat)
    ensures Padding(n) == Repeat('=', |Padding(n)|)
  {
  }

  /** The encoder's output uses only `A-Z a-z 0-9 - _`: no `+`, `/` or `=`. */
  lemma EncodeAlphabet(b: seq<byte>)
    ensures AllUrl(Encode(b))
    ensures |Encode(b)| == 4 * (|b| / 3) + (if |b| % 3 == 0 then 0 else |b| % 3 + 1)
  {
    var e := EncodeDigits(b);
    EncodeDigitsShape(b);
    ToUrlSafeAppend(e, Padding(|b|));
    assert Padding(|b|) == Repeat('=', |Padding(|b|)|);
    ToUrlSafeDropsPadding(|Padding(|b|)|);
    UrlSafeDigits(e);
  }

  /**
   * On base64url text (no padding, no whitespace) the decoder succeeds
   * exactly when the length is not 1 modulo 4; with length 1 modulo 4 it
   * appends three `=` and `atob` throws.
   */
  lemma DecodeAcceptsIff(s: string)
    requires AllUrl(s)
    ensures Decode(s).Ok? <==> |s| % 4 != 1
    ensures |s| % 4 == 1 ==> Decode(s) == Err(AtobInvalidCharacter)
    ensures |s| % 4 != 1 ==> AllStd(FromUrlSafe(s)) && |FromUrlSafe(s)| == |s| && Decode(s) == Ok(DecodeDigits(FromUrlSafe(s)))
  {
    FromUrlSafeDigits(s);
    var base64 := FromUrlSafe(s);
    ForgivingDecodeOfRestored(base64);
    if |s| % 4 != 1 {
      BinaryBytesOfBinaryString(DecodeDigits(base64));
    }
  }

  /**
   * `atob` on base 64 digits with the restored padding: it fails exactly
   * when the length is 1 modulo 4, and otherwise decodes the digits.
   */
  lemma ForgivingDecodeOfRestored(base64: string)
    requires AllStd(base64)
    ensures var padded := base64 + Repeat('=', PadLength(|base64|));
            ForgivingDecode(padded) == if |base64| % 4 == 1 then None else Some(DecodeDigits(base64))
  {
    var padded := base64 + Repeat('=', PadLength(|base64|));
    assert forall i | 0 <= i < |padded| :: !IsAsciiWhitespace(padded[i]) by {
      forall i | 0 <= i < |padded| ensures !IsAsciiWhitespace(padded[i]) {
        if i < |base64| { assert padded[i] == base64[i]; }
      }
    }
    RemoveWhitespaceNoop(padded);
    DropRestoredPadding(base64);
  }

  lemma DropRestoredPadding(base64: string)
    requires AllStd(base64)
    ensures var d := DropPadding(base64 + Repeat('=', PadLength(|base64|)));
            (|base64| % 4 != 1 ==> d == base64) && (|base64| % 4 == 1 ==> !AllStd(d))
  {
    RestoredPaddingText(|base64|);
    if |base64| % 4 == 0 {
      DropPaddingNone(base64);
    } else if |base64| % 4 == 1 {
      DropPaddingThree(base64);
    } else if |base64| % 4 == 2 {
      DropPaddingTwo(base64);
    } else {
      DropPaddingOne(base64);
    }
  }

  lemma RestoredPaddingText(n: nat)
    ensures Repeat('=', PadLength(n)) ==
            if n % 4 == 0 then "" else if n % 4 == 1 then "===" else if n % 4 == 2 then "==" else "="
  {
  }

  /** Three `=` are one too many: one stays behind, and it is not a digit. */
  lemma DropPaddingThree(e: string)
    requires |e| % 4 == 1
    ensures DropPadding(e + "===") == e + "=" && !AllStd(e + "=")
  {
    var d := e + "===";
    assert d[|d| - 2..] == "==";
    assert d[..|d| - 2] == e + "=";
    assert (e + "=")[|e|] == '=';
  }

  /**
   * A character outside both alphabets that is neither `=` nor ASCII
   * whitespace, such as `!` or `.`, makes the decoder throw, wherever it is.
   */
  lemma DecodeRejectsForeignChar(s: string, i: nat)
    requires i < |s|
    requires !IsUrlChar(s[i]) && !IsStdChar(s[i]) && s[i] != '=' && !IsAsciiWhitespace(s[i])
    ensures Decode(s) == Err(AtobInvalidCharacter)
  {
    var c := s[i];
    var base64 := FromUrlSafe(s);
    FromUrlSafeKeeps(s, i);
    var padded := base64 + Repeat('=', PadLength(|base64|));
    assert padded[i] == c;
    RemoveWhitespaceKeeps(padded, i);
    var d := DropPadding(RemoveWhitespace(padded));
    DropPaddingKeeps(RemoveWhitespace(padded), c);
    var j :| 0 <= j < |d| && d[j] == c;
    assert !AllStd(d);
  }

  /** A character the rewrites do not touch stays at its index. */
  lemma FromUrlSafeKeeps(s: string, i: nat)
    requires i < |s| && s[i] != '-' && s[i] != '_'
    ensures i < |FromUrlSafe(s)| && FromUrlSafe(s)[i] == s[i]
  {
    ReplaceAllKeeps(s, '-', '+', i);
    ReplaceAllKeeps(ReplaceAll(s, '-', "+"), '_', '/', i);
  }

  lemma {:induction false} ReplaceAllKeeps(s: string, from: char, to: char, i: nat)
    requires i < |s| && s[i] != from
    ensures |ReplaceAll(s, from, [to])| == |s| && ReplaceAll(s, from, [to])[i] == s[i]
    decreases |s|
  {
    ReplaceAllLength(s, from, to);
    if i > 0 {
      ReplaceAllKeeps(s[1..], from, to, i - 1);
    }
  }

  lemma {:induction false} ReplaceAllLength(s: string, from: char, to: char)
    ensures |ReplaceAll(s, from, [to])| == |s|
    decreases |s|
  {
    if s != [] {
      ReplaceAllLength(s[1..], from, to);
    }
  }

  /** Removing whitespace keeps every other character. */
  lemma {:induction false} RemoveWhitespaceKeeps(s: string, i: nat)
    requires i < |s| && !IsAsciiWhitespace(s[i])
    ensures s[i] in RemoveWhitespace(s)
    decreases |s|
  {
    if i > 0 {
      RemoveWhitespaceKeeps(s[1..], i - 1);
    }
  }

  /** Dropping the final padding keeps every character that is not `=`. */
  lemma DropPaddingKeeps(d: string, c: char)
    requires c in d && c != '='
    ensures c in DropPadding(d)
  {
    var j :| 0 <= j < |d| && d[j] == c;
    if |d| % 4 == 0 && |d| >= 2 && d[|d| - 2..] == "==" {
      assert d == DropPadding(d) + "==";
      assert j < |d| - 2;
      assert DropPadding(d)[j] == c;
    } else if |d| % 4 == 0 && |d| >= 1 && d[|d| - 1] == '=' {
      assert DropPadding(d)[j] == c;
    }
  }

  /** A `=` before the last digit is not padding: it makes the decoder throw. */
  lemma DecodeRejectsInnerPadding(a: char, b: char, c: char)
    requires IsStdChar(a) && IsUrlChar(a) && IsStdChar(b) && IsUrlChar(b) && IsStdChar(c) && IsUrlChar(c)
    ensures Decode([a, '=', b, c]) == Err(AtobInvalidCharacter)
  {
    var s := [a, '=', b, c];
    ReplaceAllAbsent(s, '-', "+");
    ReplaceAllAbsent(s, '_', "/");
    assert s + Repeat('=', PadLength(|s|)) == s;
    RemoveWhitespaceNoop(s);
    assert DropPadding(s) == s;
    assert !IsStdChar(s[1]);
  }

  /**
   * The decoder is forgiving: it discards the bits left over in the last
   * digit, so distinct texts can decode to the same bytes ("AA" and "AB"
   * both decode to the single byte 0).
   */
  lemma DecodeNotInjective()
    ensures Decode("AA") == Decode("AB") == Ok([0])
  {
    TwoDigitsDecodeToZero('A');
    TwoDigitsDecodeToZero('B');
  }

  /** "A" followed by any digit worth less than 16 decodes to the byte 0. */
  lemma TwoDigitsDecodeToZero(c: char)
    requires 'A' <= c <= 'P'
    ensures Decode(['A', c]) == Ok([0])
  {
    var s := ['A', c];
    ReplaceAllAbsent(s, '-', "+");
    ReplaceAllAbsent(s, '_', "/");
    DigitsDecodeToZero(c);
    ForgivingDecodeOfRestored(s);
    var padded := s + Repeat('=', PadLength(|s|));
    assert Atob(padded) == Ok(BinaryString([0]));
    BinaryBytesOfBinaryString([0]);
  }

  lemma DigitsDecodeToZero(c: char)
    requires 'A' <= c <= 'P'
    ensures AllStd(['A', c]) && DecodeDigits(['A', c]) == [0]
  {
    assert StdValue('A') == 0 && StdValue(c) < 16;
  }
}
