/** Padded standard Base64 (section 4 of RFC 4648) as the image endpoints use it: the length
    validator, decoding, and MIME sniffing from a prefix (controller/promptshot.go). */
module Base64Image {
  import opened Bytes
  import opened Options
  import opened Text

  type Sextet = x: int | 0 <= x < 64

  predicate InAlphabet(c: char) {
    'A' <= c <= 'Z' || 'a' <= c <= 'z' || '0' <= c <= '9' || c == '+' || c == '/'
  }

  predicate AllInAlphabet(s: string) {
    forall i :: 0 <= i < |s| ==> InAlphabet(s[i])
  }

  function SextetOf(c: char): Sextet
    requires InAlphabet(c)
  {
    if 'A' <= c <= 'Z' then c as int - 'A' as int
    else if 'a' <= c <= 'z' then c as int - 'a' as int + 26
    else if '0' <= c <= '9' then c as int - '0' as int + 52
    else if c == '+' then 62
    else 63
  }

  function CharOf(x: Sextet): (c: char)
    ensures InAlphabet(c)
  {
    if x < 26 then (x + 'A' as int) as char
    else if x < 52 then (x - 26 + 'a' as int) as char
    else if x < 62 then (x - 52 + '0' as int) as char
    else if x == 62 then '+'
    else '/'
  }

  lemma SextetRoundTrip(x: Sextet)
    ensures SextetOf(CharOf(x)) == x
  {
  }

  /** The alphabet of section 4 of RFC 4648: A to Z, a to z, 0 to 9, plus and slash, in this order. */
  lemma AlphabetTable(x: Sextet)
    ensures CharOf(0) == 'A' && CharOf(25) == 'Z' && CharOf(26) == 'a' && CharOf(51) == 'z'
    ensures CharOf(52) == '0' && CharOf(61) == '9' && CharOf(62) == '+' && CharOf(63) == '/'
    ensures x < 61 && x != 25 && x != 51 ==> CharOf(x + 1) as int == CharOf(x) as int + 1
    ensures SextetOf(CharOf(x)) == x
  {
  }

  // ----- the reference codec

  /** Three bytes of four alphabet characters. */
  function DecodeQuad(s: string): seq<Byte>
    requires |s| == 4 && AllInAlphabet(s)
  {
    var a, b, c, d := SextetOf(s[0]), SextetOf(s[1]), SextetOf(s[2]), SextetOf(s[3]);
    [a * 4 + b / 16, b % 16 * 16 + c / 4, c % 4 * 64 + d]
  }

  /** The last four characters, possibly padded; unused trailing bits are ignored. */
  function DecodeLast(s: string): Option<seq<Byte>>
    requires |s| == 4
  {
    if AllInAlphabet(s) then Some(DecodeQuad(s))
    else if AllInAlphabet(s[..3]) && s[3] == '=' then
      var a, b, c := SextetOf(s[..3][0]), SextetOf(s[..3][1]), SextetOf(s[..3][2]);
      Some([a * 4 + b / 16, b % 16 * 16 + c / 4])
    else if AllInAlphabet(s[..2]) && s[2] == '=' && s[3] == '=' then
      var a, b := SextetOf(s[..2][0]), SextetOf(s[..2][1]);
      Some([a * 4 + b / 16])
    else None
  }

  /** Padded decoding, four characters at a time; padding only at the very end. */
  function Decode(s: string): Option<seq<Byte>> {
    if |s| == 0 then Some([])
    else if |s| < 4 then None
    else if |s| == 4 then DecodeLast(s)
    else if !AllInAlphabet(s[..4]) then None
    else
      var rest := Decode(s[4..]);
      if rest.None? then None else Some(DecodeQuad(s[..4]) + rest.value)
  }

  function EncodeThree(b: seq<Byte>): (s: string)
    requires |b| == 3
    ensures |s| == 4
  {
    [CharOf(b[0] / 4), CharOf(b[0] % 4 * 16 + b[1] / 16), CharOf(b[1] % 16 * 4 + b[2] / 64), CharOf(b[2] % 64)]
  }

  function EncodeOne(p: Byte): (s: string)
    ensures |s| == 4
  {
    [CharOf(p / 4), CharOf(p % 4 * 16), '=', '=']
  }

  function EncodeTwo(p: Byte, q: Byte): (s: string)
    ensures |s| == 4
  {
    [CharOf(p / 4), CharOf(p % 4 * 16 + q / 16), CharOf(q % 16 * 4), '=']
  }

  function Encode(b: seq<Byte>): string {
    if |b| == 0 then ""
    else if |b| == 1 then EncodeOne(b[0])
    else if |b| == 2 then EncodeTwo(b[0], b[1])
    else EncodeThree(b[..3]) + Encode(b[3..])
  }

  // ----- the shape of a valid string

  /** The number of padding characters of a final group. */
  function Padding(s: string): nat {
    if |s| >= 2 && s[|s| - 1] == '=' && s[|s| - 2] == '=' then 2
    else if |s| >= 1 && s[|s| - 1] == '=' then 1
    else 0
  }

  predicate WellFormed(s: string) {
    |s| % 4 == 0 && |s| >= 4 && AllInAlphabet(s[..|s| - Padding(s)])
  }

  lemma LastMeaning(s: string)
    requires |s| == 4
    ensures DecodeLast(s).Some? <==> AllInAlphabet(s[..4 - Padding(s)])
    ensures DecodeLast(s).Some? ==> |DecodeLast(s).value| == 3 - Padding(s)
  {
    assert s[..4] == s;
    if Padding(s) >= 1 {
      assert !InAlphabet(s[3]);
      assert s[..3][2] == s[2];
    }
  }

  lemma AlphabetConcat(a: string, b: string)
    ensures AllInAlphabet(a + b) <==> AllInAlphabet(a) && AllInAlphabet(b)
  {
    if AllInAlphabet(a + b) {
      forall i | 0 <= i < |a| ensures InAlphabet(a[i]) { assert a[i] == (a + b)[i]; }
      forall i | 0 <= i < |b| ensures InAlphabet(b[i]) { assert b[i] == (a + b)[|a| + i]; }
    }
  }

  /** Decoding succeeds exactly on the well-formed strings, with three bytes for every four
      characters less one for every padding character. */
  lemma {:induction false} DecodeMeaning(s: string)
    requires |s| > 0
    ensures Decode(s).Some? <==> WellFormed(s)
    ensures Decode(s).Some? ==> |Decode(s).value| == |s| / 4 * 3 - Padding(s)
  {
    if |s| == 4 {
      LastMeaning(s);
    } else if |s| > 4 {
      DecodeMeaning(s[4..]);
      HeadAndRest(s);
    }
  }

  /** Beyond the first group, shape and padding are those of the rest. */
  lemma HeadAndRest(s: string)
    requires |s| > 4
    ensures WellFormed(s) <==> AllInAlphabet(s[..4]) && WellFormed(s[4..])
    ensures |s| % 4 == 0 ==> Padding(s) == Padding(s[4..])
  {
    var rest := s[4..];
    if |s| % 4 == 0 {
      assert Padding(s) == Padding(rest);
      var n := |s| - Padding(s);
      assert s[..n] == s[..4] + rest[..n - 4];
      AlphabetConcat(s[..4], rest[..n - 4]);
    }
  }

  // ----- the validator

  /** `strings.IndexByte`. */
  method IndexOf(s: string, c: char) returns (index: int)
    ensures index == -1 ==> c !in s
    ensures index != -1 ==> 0 <= index < |s| && s[index] == c && c !in s[..index]
  {
    for i := 0 to |s|
      invariant c !in s[..i]
    {
      if s[i] == c {
        return i;
      }
    }
    return -1;
  }

  /** The padding part of the validator. */
  method FindPadding(encoded: string) returns (padding: nat, ok: bool)
    requires |encoded| % 4 == 0 && |encoded| >= 4
    ensures ok ==> padding == Padding(encoded)
    ensures !ok ==> !WellFormed(encoded)
  {
    padding := 0;
    var index := IndexOf(encoded, '=');
    if index >= 0 {
      padding := |encoded| - index;
      PaddingAt(encoded, index);
      if padding > 2 || index < |encoded| - 2 || (exists i :: index <= i < |encoded| && encoded[i] != '=') {
        return padding, false;
      }
      if (padding == 1 && index % 4 != 3) || (padding == 2 && index % 4 != 2) {
        return padding, false;
      }
    }
    return padding, true;
  }

  /** `promptShotBase64DecodedLength`: accepts exactly the strings that decode to between one
      and `max` bytes, and returns their number. */
  method DecodedLength(encoded: string, max: int) returns (n: int, ok: bool)
    ensures ok <==> Decode(encoded).Some? && 1 <= |Decode(encoded).value| <= max
    ensures ok ==> n == |Decode(encoded).value|
  {
    if encoded == "" || max <= 0 || |encoded| > (max + 2) / 3 * 4 || |encoded| % 4 != 0 {
      TooLong(encoded, max);
      return 0, false;
    }
    DecodeMeaning(encoded);
    var padding, padded := FindPadding(encoded);
    if !padded {
      return 0, false;
    }
    ghost var body := encoded[..|encoded| - padding];
    for i := 0 to |encoded| - padding
      invariant forall k :: 0 <= k < i ==> InAlphabet(body[k])
    {
      assert body[i] == encoded[i];
      if !InAlphabet(encoded[i]) {
        return 0, false;
      }
    }
    n := |encoded| / 4 * 3 - padding;
    return n, n > 0 && n <= max;
  }

  /** The early length check rejects nothing that decodes to at most `max` bytes. */
  lemma TooLong(encoded: string, max: int)
    requires encoded == "" || max <= 0 || |encoded| > (max + 2) / 3 * 4 || |encoded| % 4 != 0
    ensures !(Decode(encoded).Some? && 1 <= |Decode(encoded).value| <= max)
  {
    if encoded != "" { DecodeMeaning(encoded); }
  }

  /** The first '=' against the padding of a well-formed string. */
  lemma PaddingAt(s: string, index: nat)
    requires |s| % 4 == 0 && |s| >= 4
    requires index < |s| && s[index] == '=' && '=' !in s[..index]
    ensures WellFormed(s) ==> Padding(s) == |s| - index
    ensures |s| - index <= 2 && (forall i :: index <= i < |s| ==> s[i] == '=') ==> Padding(s) == |s| - index
  {
    if WellFormed(s) {
      var n := |s| - Padding(s);
      assert '=' !in s[..n];
      NotBefore(s, '=', index, n);
      NotBefore(s, '=', n, index);
    }
  }

  lemma NotBefore(s: string, c: char, i: nat, n: nat)
    requires i < |s| && n <= |s| && s[i] == c && c !in s[..n]
    ensures n <= i
  {
  }

  // ----- round trip

  /** Two bytes cut into sextets and put together again. */
  lemma Regroup(hi: Byte, lo: Byte, hiBits: int, loBits: int)
    requires (hiBits, loBits) == (4, 16) || (hiBits, loBits) == (16, 4)
    ensures var s := hi % hiBits * loBits + lo / (256 / loBits);
            0 <= s < 64 && s / loBits == hi % hiBits && s % loBits == lo / (256 / loBits)
  {
    if hiBits == 4 {
      assert 0 <= lo / 16 < 16;
    } else {
      assert 0 <= lo / 64 < 4;
    }
  }

  lemma ThreeBytes(p: Byte, q: Byte, r: Byte)
    ensures var x, y := p % 4 * 16 + q / 16, q % 16 * 4 + r / 64;
            && 0 <= x < 64 && 0 <= y < 64
            && p / 4 * 4 + x / 16 == p && x % 16 * 16 + y / 4 == q && y % 4 * 64 + r % 64 == r
  {
    Regroup(p, q, 4, 16);
    Regroup(q, r, 16, 4);
  }

  lemma DecodeSextets(s: string, w: Sextet, x: Sextet, y: Sextet, z: Sextet)
    requires s == [CharOf(w), CharOf(x), CharOf(y), CharOf(z)]
    ensures AllInAlphabet(s) && DecodeQuad(s) == [w * 4 + x / 16, x % 16 * 16 + y / 4, y % 4 * 64 + z]
  {
    SextetRoundTrip(w);
    SextetRoundTrip(x);
    SextetRoundTrip(y);
    SextetRoundTrip(z);
  }

  lemma SextetsOf(p: Byte, q: Byte, r: Byte) returns (w: Sextet, x: Sextet, y: Sextet, z: Sextet)
    ensures EncodeThree([p, q, r]) == [CharOf(w), CharOf(x), CharOf(y), CharOf(z)]
    ensures w * 4 + x / 16 == p && x % 16 * 16 + y / 4 == q && y % 4 * 64 + z == r
  {
    ThreeBytes(p, q, r);
    w, x, y, z := p / 4, p % 4 * 16 + q / 16, q % 16 * 4 + r / 64, r % 64;
  }

  lemma BytesOf(b: seq<Byte>, s: string, w: Sextet, x: Sextet, y: Sextet, z: Sextet)
    requires s == [CharOf(w), CharOf(x), CharOf(y), CharOf(z)]
    requires |b| == 3 && w * 4 + x / 16 == b[0] && x % 16 * 16 + y / 4 == b[1] && y % 4 * 64 + z == b[2]
    ensures AllInAlphabet(s) && DecodeQuad(s) == b
  {
    DecodeSextets(s, w, x, y, z);
  }

  lemma QuadRoundTrip(b: seq<Byte>)
    requires |b| == 3
    ensures AllInAlphabet(EncodeThree(b)) && DecodeQuad(EncodeThree(b)) == b
  {
    assert b == [b[0], b[1], b[2]];
    var w, x, y, z := SextetsOf(b[0], b[1], b[2]);
    BytesOf(b, EncodeThree(b), w, x, y, z);
  }

  lemma OneByteRoundTrip(p: Byte)
    ensures DecodeLast(EncodeOne(p)) == Some([p])
  {
    DecodePadded2(EncodeOne(p), p / 4, p % 4 * 16);
    assert p / 4 * 4 + (p % 4 * 16) / 16 == p;
  }

  lemma DecodePadded2(s: string, x: Sextet, y: Sextet)
    requires s == [CharOf(x), CharOf(y), '=', '=']
    ensures DecodeLast(s) == Some([x * 4 + y / 16])
  {
    SextetRoundTrip(x);
    SextetRoundTrip(y);
    assert !InAlphabet(s[3]) && !InAlphabet(s[..3][2]);
    assert s[..2] == [CharOf(x), CharOf(y)];
  }

  lemma TwoBytes(p: Byte, q: Byte)
    ensures var y := p % 4 * 16 + q / 16;
            0 <= y < 64 && p / 4 * 4 + y / 16 == p && y % 16 * 16 + (q % 16 * 4) / 4 == q
  {
    Regroup(p, q, 4, 16);
  }

  lemma TwoByteRoundTrip(p: Byte, q: Byte)
    ensures DecodeLast(EncodeTwo(p, q)) == Some([p, q])
  {
    TwoBytes(p, q);
    DecodePadded1(EncodeTwo(p, q), p / 4, p % 4 * 16 + q / 16, q % 16 * 4);
  }

  lemma DecodePadded1(s: string, x: Sextet, y: Sextet, z: Sextet)
    requires s == [CharOf(x), CharOf(y), CharOf(z), '=']
    ensures DecodeLast(s) == Some([x * 4 + y / 16, y % 16 * 16 + z / 4])
  {
    SextetRoundTrip(x);
    SextetRoundTrip(y);
    SextetRoundTrip(z);
    assert !InAlphabet(s[3]);
    assert s[..3] == [CharOf(x), CharOf(y), CharOf(z)];
  }

  lemma DecodeFour(s: string, b: seq<Byte>)
    requires |s| == 4 && DecodeLast(s) == Some(b)
    ensures Decode(s) == Some(b)
  {
  }

  lemma OneRoundTrip(p: Byte)
    ensures Decode(EncodeOne(p)) == Some([p])
  {
    OneByteRoundTrip(p);
    DecodeFour(EncodeOne(p), [p]);
  }

  lemma TwoRoundTrip(p: Byte, q: Byte)
    ensures Decode(EncodeTwo(p, q)) == Some([p, q])
  {
    TwoByteRoundTrip(p, q);
    DecodeFour(EncodeTwo(p, q), [p, q]);
  }

  lemma {:induction false} EncodeLong(b: seq<Byte>)
    requires |b| >= 3
    ensures Encode(b) == EncodeThree(b[..3]) + Encode(b[3..])
  {
  }

  lemma {:induction false} LongRoundTrip(b: seq<Byte>)
    requires |b| >= 3 && Decode(Encode(b[3..])) == Some(b[3..])
    ensures Decode(Encode(b)) == Some(b)
  {
    EncodeLong(b);
    QuadRoundTrip(b[..3]);
    DecodeCons(EncodeThree(b[..3]), Encode(b[3..]));
    assert b == b[..3] + b[3..];
  }

  /** Every byte string has a padded encoding that decodes to it, so the validator accepts one
      for every image of 1 to `max` bytes. */
  lemma {:induction false} DecodeEncode(b: seq<Byte>)
    ensures Decode(Encode(b)) == Some(b)
  {
    if |b| == 1 {
      OneRoundTrip(b[0]);
      assert b == [b[0]];
    } else if |b| == 2 {
      TwoRoundTrip(b[0], b[1]);
      assert b == [b[0], b[1]];
    } else if |b| >= 3 {
      DecodeEncode(b[3..]);
      LongRoundTrip(b);
    }
  }

  /** A full group in front adds its three bytes. */
  lemma DecodeCons(head: string, rest: string)
    requires |head| == 4 && AllInAlphabet(head) && Decode(rest).Some?
    ensures Decode(head + rest) == Some(DecodeQuad(head) + Decode(rest).value)
  {
    if rest == "" {
      assert head + rest == head;
      assert DecodeQuad(head) + [] == DecodeQuad(head);
    } else {
      assert (head + rest)[..4] == head && (head + rest)[4..] == rest;
    }
  }

  // ----- sniffing the MIME type

  const MAX_IMAGE_BYTES := 20 * 1024 * 1024
  const SNIFF_BYTES := 12

  /** `promptShotResponseMIME`. */
  function Mime(image: seq<Byte>): string {
    if |image| >= 8 && image[..8] == [0x89, 0x50, 0x4E, 0x47, 0x0D, 0x0A, 0x1A, 0x0A] then "image/png"
    else if |image| >= 3 && image[0] == 0xFF && image[1] == 0xD8 && image[2] == 0xFF then "image/jpeg"
    else if |image| >= 12 && image[..4] == [0x52, 0x49, 0x46, 0x46] && image[8..12] == [0x57, 0x45, 0x42, 0x50] then "image/webp"
    else "image/png"
  }

  /** Whole groups decode on their own to the beginning of the whole. */
  lemma {:induction false} DecodePrefix(s: string, k: nat)
    requires 1 <= k && 4 * k < |s| && Decode(s).Some?
    ensures Decode(s[..4 * k]).Some? && 3 * k <= |Decode(s).value| && Decode(s[..4 * k]).value == Decode(s).value[..3 * k]
  {
    var head, rest := s[..4], s[4..];
    var quad := DecodeQuad(head);
    if k == 1 {
      assert DecodeLast(head) == Some(quad);
    } else {
      DecodePrefix(rest, k - 1);
      var p := s[..4 * k];
      assert p[..4] == head && p[4..] == rest[..4 * (k - 1)];
      assert Decode(p).value == quad + Decode(rest[..4 * (k - 1)]).value;
      assert (quad + Decode(rest).value)[..3 * k] == quad + Decode(rest).value[..3 * k - 3];
    }
  }

  /** JPEG and WebP by their signatures, PNG for everything else. */
  lemma MimeMeaning(image: seq<Byte>)
    ensures Mime(image) == "image/jpeg" <==> [0xFF, 0xD8, 0xFF] <= image
    ensures Mime(image) == "image/webp" <==> |image| >= 12 && image[..4] == [0x52, 0x49, 0x46, 0x46] && image[8..12] == [0x57, 0x45, 0x42, 0x50]
    ensures Mime(image) != "image/jpeg" && Mime(image) != "image/webp" ==> Mime(image) == "image/png"
  {
    assert |"image/jpeg"| == 10 && |"image/webp"| == 10 && |"image/png"| == 9;
    assert "image/jpeg"[6] != "image/webp"[6];
    if |image| >= 8 && image[..8] == [0x89, 0x50, 0x4E, 0x47, 0x0D, 0x0A, 0x1A, 0x0A] {
      assert image[0] == image[..8][0] == 0x89;
      assert image[..4][0] == 0x89;
    }
    if |image| >= 12 && image[..4] == [0x52, 0x49, 0x46, 0x46] {
      assert image[0] == image[..4][0] == 0x52;
    }
    if [0xFF, 0xD8, 0xFF] <= image {
      assert image[0] == 0xFF && image[1] == 0xD8 && image[2] == 0xFF;
    }
    if |image| >= 3 && image[0] == 0xFF && image[1] == 0xD8 && image[2] == 0xFF {
      assert image[..3] == [0xFF, 0xD8, 0xFF];
    }
  }

  lemma MimeFromFirstBytes(image: seq<Byte>)
    requires |image| >= SNIFF_BYTES
    ensures Mime(image[..SNIFF_BYTES]) == Mime(image)
  {
    var p := image[..SNIFF_BYTES];
    assert p[..8] == image[..8] && p[..4] == image[..4] && p[8..12] == image[8..12];
  }

  /** Sniffing the first sixteen characters sees the same type as the whole image. */
  lemma SniffPrefixAgrees(s: string)
    requires Decode(s).Some? && s != ""
    ensures var n := if |s| > 16 then 16 else |s|;
            Decode(s[..n]).Some? && Decode(s[..n]).value != [] && Mime(Decode(s[..n]).value) == Mime(Decode(s).value)
  {
    DecodeMeaning(s);
    if |s| > 16 {
      DecodePrefix(s, 4);
      MimeFromFirstBytes(Decode(s).value);
    } else {
      assert s[..|s|] == s;
    }
  }

  /** The image part of `normalizePromptShotImageResponse`: the type of every acceptable image,
      read off its first characters. */
  method ResponseMime(field: string) returns (mime: Option<string>)
    ensures var s := TrimSpace(field);
            mime == if Decode(s).Some? && 1 <= |Decode(s).value| <= 20 * 1024 * 1024 then Some(Mime(Decode(s).value)) else None
  {
    var s := TrimSpace(field);
    if s == "" || StartsWith(s, "data:") {
      if s != "" { DataUrlRejected(s); }
      return None;
    }
    var _, ok := DecodedLength(s, MAX_IMAGE_BYTES);
    if !ok {
      return None;
    }
    SniffPrefixAgrees(s);
    var sniffLength := |s|;
    var maxSniff := (SNIFF_BYTES + 2) / 3 * 4;
    if sniffLength > maxSniff {
      sniffLength := maxSniff;
    }
    var image := Decode(s[..sniffLength]);
    if image.None? || |image.value| == 0 {
      return None;
    }
    return Some(Mime(image.value));
  }

  /** A data URL is never Base64: the colon is outside the alphabet. */
  lemma DataUrlRejected(s: string)
    requires StartsWith(s, "data:")
    ensures Decode(s).None?
  {
    DecodeMeaning(s);
    assert s[4] == "data:"[4];
    if |s| % 4 == 0 {
      assert s[..|s| - Padding(s)][4] == ':';
    }
  }
}
