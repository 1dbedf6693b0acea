/** The query string `URLSearchParams.toString()` produces: the application/x-www-form-urlencoded
    serializer of the WHATWG URL Standard. Names and values are UTF-8 encoded; ASCII letters,
    digits and `*-._` stay as they are, a space becomes `+`, every other byte becomes `%XY` with
    upper-case hex digits. A parser is defined beside it so that the serializer can be shown to
    lose nothing. */
module FormUrlEncoded {
  import JsText

  type Byte = b: int | 0 <= b < 256

  /** The UTF-8 encoding of one Unicode scalar value (RFC 3629, section 3). */
  function Utf8(c: char): (bs: seq<Byte>)
    ensures 1 <= |bs| <= 4
  {
    var cp := c as int;
    if cp < 0x80 then [cp]
    else if cp < 0x800 then [0xC0 + cp / 64, 0x80 + cp % 64]
    else if cp < 0x10000 then [0xE0 + cp / 4096, 0x80 + (cp / 64) % 64, 0x80 + cp % 64]
    else [0xF0 + cp / 262144, 0x80 + (cp / 4096) % 64, 0x80 + (cp / 64) % 64, 0x80 + cp % 64]
  }

  function Utf8String(s: string): seq<Byte> {
    if s == [] then [] else Utf8(s[0]) + Utf8String(s[1..])
  }

  /** The length of the sequence a leading byte announces, 0 for a byte that cannot lead. */
  function SequenceLength(b: Byte): nat {
    if b < 0x80 then 1
    else if 0xC0 <= b < 0xE0 then 2
    else if 0xE0 <= b < 0xF0 then 3
    else if 0xF0 <= b < 0xF8 then 4
    else 0
  }

  predicate Continuations(bs: seq<Byte>) {
    forall i :: 0 <= i < |bs| ==> 0x80 <= bs[i] < 0xC0
  }

  /** The code point of a well-formed sequence of 1 to 4 bytes. */
  function CodePoint(bs: seq<Byte>): int
    requires 1 <= |bs| <= 4
  {
    var b: seq<int> := bs;
    if |b| == 1 then b[0]
    else if |b| == 2 then (b[0] - 0xC0) * 64 + (b[1] - 0x80)
    else if |b| == 3 then (b[0] - 0xE0) * 4096 + (b[1] - 0x80) * 64 + (b[2] - 0x80)
    else (b[0] - 0xF0) * 262144 + (b[1] - 0x80) * 4096 + (b[2] - 0x80) * 64 + (b[3] - 0x80)
  }

  const Replacement: char := '\U{FFFD}'

  function ScalarOrReplacement(cp: int): char {
    if 0 <= cp < 0xD800 || 0xE000 <= cp < 0x11_0000 then cp as char else Replacement
  }

  /** UTF-8 decoding; a byte that does not start a complete sequence becomes U+FFFD. */
  function Utf8Decode(bs: seq<Byte>): string
    decreases |bs|
  {
    if bs == [] then []
    else
      var n := SequenceLength(bs[0]);
      if n == 0 || |bs| < n || !Continuations(bs[1..n]) then [Replacement] + Utf8Decode(bs[1..])
      else [ScalarOrReplacement(CodePoint(bs[..n]))] + Utf8Decode(bs[n..])
  }

  /** Decoding the encoding of one character gives that character back, whatever follows. */
  lemma Utf8DecodeChar(c: char, rest: seq<Byte>)
    ensures Utf8Decode(Utf8(c) + rest) == [c] + Utf8Decode(rest)
  {
    var bs := Utf8(c);
    var all := bs + rest;
    var cp := c as int;
    var n := |bs|;
    assert all[..n] == bs && all[n..] == rest;
    if cp < 0x80 {
    } else if cp < 0x800 {
      assert all[1..n] == [bs[1]];
      assert CodePoint(bs) == cp;
    } else if cp < 0x10000 {
      assert all[1..n] == [bs[1], bs[2]];
      var q := cp / 64;
      assert cp / 4096 == q / 64;
      assert CodePoint(bs) == cp;
    } else {
      assert all[1..n] == [bs[1], bs[2], bs[3]];
      var q := cp / 64;
      var q2 := q / 64;
      assert cp / 4096 == q2;
      assert cp / 262144 == q2 / 64;
      assert CodePoint(bs) == cp;
    }
  }

  /** UTF-8 decoding inverts UTF-8 encoding. */
  lemma {:induction false} Utf8RoundTrip(s: string)
    ensures Utf8Decode(Utf8String(s)) == s
  {
    if s != [] {
      Utf8DecodeChar(s[0], Utf8String(s[1..]));
      Utf8RoundTrip(s[1..]);
    }
  }

  /** The bytes the serializer writes as themselves. */
  predicate Unescaped(b: Byte) {
    ('a' as int <= b <= 'z' as int) || ('A' as int <= b <= 'Z' as int) || ('0' as int <= b <= '9' as int)
    || b == '*' as int || b == '-' as int || b == '.' as int || b == '_' as int
  }

  const HexDigits := "0123456789ABCDEF"

  /** How the serializer writes one byte of a name or value. */
  function EncodeByte(b: Byte): (r: string)
    ensures 1 <= |r| <= 3
  {
    if b == 0x20 then "+"
    else if Unescaped(b) then [b as char]
    else ['%', HexDigits[b / 16], HexDigits[b % 16]]
  }

  function EncodeBytes(bs: seq<Byte>): string {
    if bs == [] then "" else EncodeByte(bs[0]) + EncodeBytes(bs[1..])
  }

  /** The serialization of one name or value. */
  function Encode(s: string): string {
    EncodeBytes(Utf8String(s))
  }

  /** The characters the serializer can write. */
  predicate EncodedChar(c: char) {
    c == '+' || c == '%' || (c as int < 256 && Unescaped(c as int))
  }

  lemma {:induction false} EncodeBytesChars(bs: seq<Byte>)
    ensures forall i :: 0 <= i < |EncodeBytes(bs)| ==> EncodedChar(EncodeBytes(bs)[i])
  {
    if bs != [] {
      EncodeBytesChars(bs[1..]);
      var e := EncodeByte(bs[0]);
      assert forall i :: 0 <= i < |e| ==> EncodedChar(e[i]);
      var t := EncodeBytes(bs[1..]);
      assert forall i :: 0 <= i < |e + t| ==> (e + t)[i] == if i < |e| then e[i] else t[i - |e|];
    }
  }

  /** The value of a hexadecimal digit, upper or lower case. */
  function HexValue(c: char): int {
    if '0' <= c <= '9' then c as int - '0' as int
    else if 'A' <= c <= 'F' then c as int - 'A' as int + 10
    else if 'a' <= c <= 'f' then c as int - 'a' as int + 10
    else -1
  }

  /** Percent-decoding: `+` is a space, `%XY` the byte XY, anything else its own UTF-8 bytes. */
  function DecodeBytes(t: string): seq<Byte>
    decreases |t|
  {
    if t == [] then []
    else if t[0] == '+' then [0x20] + DecodeBytes(t[1..])
    else if t[0] == '%' && |t| >= 3 && HexValue(t[1]) >= 0 && HexValue(t[2]) >= 0
    then [HexValue(t[1]) * 16 + HexValue(t[2])] + DecodeBytes(t[3..])
    else Utf8(t[0]) + DecodeBytes(t[1..])
  }

  lemma DecodeByte(b: Byte, rest: string)
    ensures DecodeBytes(EncodeByte(b) + rest) == [b] + DecodeBytes(rest)
  {
    var e := EncodeByte(b);
    var t := e + rest;
    assert t[1..] == (e + rest)[1..];
    if b == 0x20 {
      assert t[1..] == rest;
    } else if Unescaped(b) {
      assert t[0] == b as char && t[1..] == rest;
    } else {
      var hi, lo := b / 16, b % 16;
      assert e == ['%', HexDigits[hi], HexDigits[lo]];
      assert t[3..] == rest && t[1] == HexDigits[hi] && t[2] == HexDigits[lo];
      HexDigitValue(hi);
      HexDigitValue(lo);
      assert hi * 16 + lo == b;
    }
  }

  lemma HexDigitValue(d: int)
    requires 0 <= d < 16
    ensures HexValue(HexDigits[d]) == d
  {
  }

  lemma {:induction false} DecodeEncodeBytes(bs: seq<Byte>)
    ensures DecodeBytes(EncodeBytes(bs)) == bs
  {
    if bs != [] {
      DecodeByte(bs[0], EncodeBytes(bs[1..]));
      DecodeEncodeBytes(bs[1..]);
    }
  }

  /** The decoding of one serialized name or value. */
  function Decode(t: string): string {
    Utf8Decode(DecodeBytes(t))
  }

  /** Decoding undoes the serialization of a name or value, so different names never serialize alike. */
  lemma DecodeEncode(s: string)
    ensures Decode(Encode(s)) == s
  {
    DecodeEncodeBytes(Utf8String(s));
    Utf8RoundTrip(s);
  }

  /** The serialization holds no `&` and no `=`, which leaves those free to delimit pairs. */
  lemma EncodeNoDelimiters(s: string)
    ensures '&' !in Encode(s) && '=' !in Encode(s)
  {
    EncodeBytesChars(Utf8String(s));
  }

  lemma {:induction false} Utf8StringAppend(s: string, t: string)
    ensures Utf8String(s + t) == Utf8String(s) + Utf8String(t)
  {
    if s == [] {
      assert s + t == t;
    } else {
      assert (s + t)[0] == s[0] && (s + t)[1..] == s[1..] + t;
      Utf8StringAppend(s[1..], t);
    }
  }

  /** Serializing distributes over concatenation. */
  lemma EncodeAppend(s: string, t: string)
    ensures Encode(s + t) == Encode(s) + Encode(t)
  {
    Utf8StringAppend(s, t);
    EncodeBytesAppend(Utf8String(s), Utf8String(t));
  }

  lemma {:induction false} EncodeBytesAppend(as_: seq<Byte>, bs: seq<Byte>)
    ensures EncodeBytes(as_ + bs) == EncodeBytes(as_) + EncodeBytes(bs)
  {
    if as_ == [] {
      assert as_ + bs == bs;
    } else {
      assert (as_ + bs)[1..] == as_[1..] + bs;
      EncodeBytesAppend(as_[1..], bs);
    }
  }

  /** A name made of letters, digits and `*-._` is written unchanged. */
  lemma {:induction false} EncodeUnescaped(s: string)
    requires forall i :: 0 <= i < |s| ==> s[i] as int < 0x80 && Unescaped(s[i] as int)
    ensures Encode(s) == s
  {
    if s != [] {
      EncodeUnescaped(s[1..]);
      assert Utf8(s[0]) == [s[0] as int];
      assert EncodeBytes(Utf8String(s)) == EncodeByte(s[0] as int) + EncodeBytes(Utf8String(s[1..])) by {
        EncodeBytesAppend(Utf8(s[0]), Utf8String(s[1..]));
        assert EncodeBytes([s[0] as int]) == EncodeByte(s[0] as int) + EncodeBytes([]);
      }
      assert s == [s[0]] + s[1..];
    }
  }

  /** A character outside ASCII goes out as the percent escapes of its UTF-8 bytes: the three
      characters of the district name 天河区, which serializes as the concatenation of the three
      (`EncodeAppend`). */
  lemma EncodeTian()
    ensures Encode("天") == "%E5%A4%A9"
  {
    EncodeChar3('天', 0xE5, 0xA4, 0xA9);
    EncodeByteEscaped(0xE5, 'E', '5');
    EncodeByteEscaped(0xA4, 'A', '4');
    EncodeByteEscaped(0xA9, 'A', '9');
  }

  lemma EncodeHe()
    ensures Encode("河") == "%E6%B2%B3"
  {
    EncodeChar3('河', 0xE6, 0xB2, 0xB3);
    EncodeByteEscaped(0xE6, 'E', '6');
    EncodeByteEscaped(0xB2, 'B', '2');
    EncodeByteEscaped(0xB3, 'B', '3');
  }

  lemma EncodeQu()
    ensures Encode("区") == "%E5%8C%BA"
  {
    EncodeChar3('区', 0xE5, 0x8C, 0xBA);
    EncodeByteEscaped(0xE5, 'E', '5');
    EncodeByteEscaped(0x8C, '8', 'C');
    EncodeByteEscaped(0xBA, 'B', 'A');
  }

  lemma EncodeByteEscaped(b: Byte, hi: char, lo: char)
    requires 0x80 <= b && HexDigits[b / 16] == hi && HexDigits[b % 16] == lo
    ensures EncodeByte(b) == ['%', hi, lo]
  {
  }

  lemma EncodeChar3(c: char, b0: Byte, b1: Byte, b2: Byte)
    requires Utf8(c) == [b0, b1, b2]
    ensures Encode([c]) == EncodeByte(b0) + EncodeByte(b1) + EncodeByte(b2)
  {
    assert Utf8String([c]) == Utf8(c) + Utf8String([]);
    assert [b0, b1, b2] + [] == [b0, b1, b2];
    assert [b0, b1, b2] == [b0] + [b1, b2] && [b1, b2] == [b1] + [b2];
    EncodeBytesAppend([b0], [b1, b2]);
    EncodeBytesAppend([b1], [b2]);
    assert EncodeBytes([b2]) == EncodeByte(b2) + EncodeBytes([]);
    assert EncodeBytes([b1]) == EncodeByte(b1) + EncodeBytes([]);
    assert EncodeBytes([b0]) == EncodeByte(b0) + EncodeBytes([]);
  }

  /** `URLSearchParams.toString()`: each pair as `name=value`, joined with `&`. */
  function Serialize(pairs: seq<(string, string)>): string {
    JsText.Join("&", seq(|pairs|, i requires 0 <= i < |pairs| => Encode(pairs[i].0) + "=" + Encode(pairs[i].1)))
  }

  /** One pair serializes as `name=value`; more pairs follow it after an `&`. */
  lemma SerializeCons(pairs: seq<(string, string)>)
    requires pairs != []
    ensures |pairs| == 1 ==> Serialize(pairs) == Encode(pairs[0].0) + "=" + Encode(pairs[0].1)
    ensures |pairs| > 1 ==> Serialize(pairs) == Encode(pairs[0].0) + "=" + Encode(pairs[0].1) + "&" + Serialize(pairs[1..])
  {
    var parts := seq(|pairs|, i requires 0 <= i < |pairs| => Encode(pairs[i].0) + "=" + Encode(pairs[i].1));
    var rest := pairs[1..];
    assert parts[1..] == seq(|rest|, i requires 0 <= i < |rest| => Encode(rest[i].0) + "=" + Encode(rest[i].1));
  }

  /** `s.split(sep)`: the pieces between occurrences of `sep`; one piece when there is none. */
  function Split(s: string, sep: char): (parts: seq<string>)
    ensures |parts| >= 1
    decreases |s|
  {
    if s == [] then [[]]
    else if s[0] == sep then [[]] + Split(s[1..], sep)
    else var rest := Split(s[1..], sep); [[s[0]] + rest[0]] + rest[1..]
  }

  lemma {:induction false} SplitPrefix(p: string, t: string, sep: char)
    requires sep !in p
    ensures Split(p + t, sep) == [p + Split(t, sep)[0]] + Split(t, sep)[1..]
  {
    if p != [] {
      assert (p + t)[1..] == p[1..] + t;
      SplitPrefix(p[1..], t, sep);
      assert [p[0]] + (p[1..] + Split(t, sep)[0]) == p + Split(t, sep)[0];
    } else {
      var parts := Split(t, sep);
      assert p + t == t && p + parts[0] == parts[0];
      assert parts == [parts[0]] + parts[1..];
    }
  }

  /** Splitting a join of parts free of the separator gives the parts back. */
  lemma {:induction false} SplitJoin(parts: seq<string>, sep: char)
    requires parts != [] && forall i :: 0 <= i < |parts| ==> sep !in parts[i]
    ensures Split(JsText.Join([sep], parts), sep) == parts
  {
    if |parts| == 1 {
      SplitPrefix(parts[0], [], sep);
      assert parts[0] + [] == parts[0];
    } else {
      var rest := JsText.Join([sep], parts[1..]);
      SplitJoin(parts[1..], sep);
      assert parts[0] + [sep] + rest == parts[0] + ([sep] + rest);
      SplitPrefix(parts[0], [sep] + rest, sep);
      assert ([sep] + rest)[1..] == rest;
      assert Split([sep] + rest, sep) == [[]] + parts[1..];
      assert parts[0] + [] == parts[0];
    }
  }

  /** The position of the first `c` in `s`, or `|s|` when there is none. */
  function FirstIndex(s: string, c: char): (i: nat)
    ensures i <= |s| && c !in s[..i] && (i < |s| ==> s[i] == c)
  {
    if s == [] then 0
    else if s[0] == c then 0
    else
      var i := 1 + FirstIndex(s[1..], c);
      assert s[..i] == [s[0]] + s[1..][..i - 1];
      i
  }

  /** One `name=value` piece; a piece without `=` is a name with an empty value. */
  function ParsePair(piece: string): (string, string) {
    var i := FirstIndex(piece, '=');
    if i == |piece| then (Decode(piece), "") else (Decode(piece[..i]), Decode(piece[i + 1..]))
  }

  /** The application/x-www-form-urlencoded parser, for query strings without empty pieces. */
  function ParseQuery(q: string): seq<(string, string)> {
    if q == [] then []
    else var pieces := Split(q, '&'); seq(|pieces|, i requires 0 <= i < |pieces| => ParsePair(pieces[i]))
  }

  lemma ParseSerializedPair(name: string, value: string)
    ensures ParsePair(Encode(name) + "=" + Encode(value)) == (name, value)
  {
    var en, ev := Encode(name), Encode(value);
    var piece := en + "=" + ev;
    EncodeNoDelimiters(name);
    EncodeNoDelimiters(value);
    var i := FirstIndex(piece, '=');
    assert piece[|en|] == '=';
    assert piece[..|en|] == en;
    assert i == |en|;
    assert piece[i + 1..] == ev;
    DecodeEncode(name);
    DecodeEncode(value);
  }

  /** Parsing the serialization gives every pair back, in order. */
  lemma ParseSerialize(pairs: seq<(string, string)>)
    ensures ParseQuery(Serialize(pairs)) == pairs
  {
    var pieces := seq(|pairs|, i requires 0 <= i < |pairs| => Encode(pairs[i].0) + "=" + Encode(pairs[i].1));
    if pairs != [] {
      forall i | 0 <= i < |pieces| ensures '&' !in pieces[i] {
        EncodeNoDelimiters(pairs[i].0);
        EncodeNoDelimiters(pairs[i].1);
      }
      SplitJoin(pieces, '&');
      assert |Serialize(pairs)| > 0 by {
        if |pairs| == 1 {
          assert Serialize(pairs) == pieces[0];
        } else {
          assert |Serialize(pairs)| >= |pieces[0]|;
        }
      }
      forall i | 0 <= i < |pairs| ensures ParsePair(pieces[i]) == pairs[i] {
        ParseSerializedPair(pairs[i].0, pairs[i].1);
      }
    }
  }
}
