/** The two base64 dialects the crypto modules use (RFC 4648):
    - the standard alphabet with `=` padding (section 4), written by `btoa`
      and read by `atob` with the WHATWG "forgiving-base64 decode" rules;
    - the URL and filename safe alphabet without padding (section 5), written
      by `sodium.to_base64` and read strictly by `sodium.from_base64` with
      the variant URLSAFE_NO_PADDING (libsodium's default variant). */
module Base64 {
  import opened Common

  /** Six bits: the value one base64 character stands for. */
  type sextet = v: int | 0 <= v < 64

  datatype Variant = Standard | UrlSafe

  /** The character for `v` in the variant's alphabet; it decodes back to `v`. */
  function CharOf(v: sextet, variant: Variant): char
  {
    if v < 26 then (65 + v) as char
    else if v < 52 then (97 + v - 26) as char
    else if v < 62 then (48 + v - 52) as char
    else if v == 62 then (if variant == Standard then '+' else '-')
    else (if variant == Standard then '/' else '_')
  }

  /** The value of `c` in the variant's alphabet, `None` for any other character
      (including `=`); a character that has a value is the one `CharOf` writes. */
  function ValueOf(c: char, variant: Variant): (r: Option<sextet>)
    ensures r.Some? ==> CharOf(r.value, variant) == c
  {
    if 'A' <= c <= 'Z' then Some(c as int - 65)
    else if 'a' <= c <= 'z' then Some(c as int - 97 + 26)
    else if '0' <= c <= '9' then Some(c as int - 48 + 52)
    else if c == (if variant == Standard then '+' else '-') then Some(62)
    else if c == (if variant == Standard then '/' else '_') then Some(63)
    else None
  }

  /** Every character `CharOf` writes decodes back to its value. */
  lemma ValueOfCharOf(v: sextet, variant: Variant)
    ensures ValueOf(CharOf(v, variant), variant) == Some(v)
  {
  }

  function Chars(vs: seq<sextet>, variant: Variant): (s: string)
    ensures |s| == |vs|
    ensures forall i :: 0 <= i < |vs| ==> s[i] == CharOf(vs[i], variant)
  {
    seq(|vs|, i requires 0 <= i < |vs| => CharOf(vs[i], variant))
  }

  /** The values of the characters of `s`, or `None` when one of them is outside the alphabet. */
  function Sextets(s: string, variant: Variant): (r: Option<seq<sextet>>)
    ensures r.Some? <==> forall i :: 0 <= i < |s| ==> ValueOf(s[i], variant).Some?
    ensures r.Some? ==> |r.value| == |s| && forall i :: 0 <= i < |s| ==> ValueOf(s[i], variant) == Some(r.value[i])
  {
    if s == [] then Some([])
    else match ValueOf(s[0], variant)
      case None => None
      case Some(v) =>
        match Sextets(s[1..], variant)
        case None => None
        case Some(rest) => Some([v] + rest)
  }

  lemma SextetsOfChars(vs: seq<sextet>, variant: Variant)
    ensures Sextets(Chars(vs, variant), variant) == Some(vs)
  {
    var cs := Chars(vs, variant);
    forall i | 0 <= i < |cs| ensures ValueOf(cs[i], variant) == Some(vs[i]) {
      ValueOfCharOf(vs[i], variant);
    }
    var r := Sextets(cs, variant);
    assert r.Some?;
    assert r.value == vs;
  }

  /** The characters of a string the decoder reads are what `Chars` writes for its values. */
  lemma CharsOfSextets(s: string, variant: Variant)
    requires Sextets(s, variant).Some?
    ensures Chars(Sextets(s, variant).value, variant) == s
  {
    var vs := Sextets(s, variant).value;
    forall i | 0 <= i < |s| ensures Chars(vs, variant)[i] == s[i] {
      assert ValueOf(s[i], variant) == Some(vs[i]);
    }
  }

  /** Number of base64 characters (before padding) for `n` bytes. */
  function UnpaddedLength(n: nat): nat {
    4 * (n / 3) + (if n % 3 == 0 then 0 else n % 3 + 1)
  }

  /** The unused low bits of a final partial group are zero. */
  predicate TailZero(vs: seq<sextet>) {
    if |vs| % 4 == 2 then vs[|vs| - 1] % 16 == 0
    else if |vs| % 4 == 3 then vs[|vs| - 1] % 4 == 0
    else true
  }

  /** The characters of a full group of three bytes. */
  function Group3(x: byte, y: byte, z: byte): (g: seq<sextet>)
    ensures |g| == 4
  {
    [x / 4, (x % 4) * 16 + y / 16, (y % 16) * 4 + z / 64, z % 64]
  }

  /** A final byte: two characters, the last with four zero fill bits. */
  function Group1(x: byte): (g: seq<sextet>)
    ensures |g| == 2 && g[1] % 16 == 0
  {
    [x / 4, (x % 4) * 16]
  }

  /** Two final bytes: three characters, the last with two zero fill bits. */
  function Group2(x: byte, y: byte): (g: seq<sextet>)
    ensures |g| == 3 && g[2] % 4 == 0
  {
    [x / 4, (x % 4) * 16 + y / 16, (y % 16) * 4]
  }

  /** Bytes to six-bit groups, three bytes to four characters, a final one or two
      bytes to two or three characters with zero fill bits. */
  function ToSextets(b: seq<byte>): (vs: seq<sextet>)
    ensures |vs| == UnpaddedLength(|b|)
    ensures |vs| % 4 != 1 && TailZero(vs)
    decreases |b|
  {
    if |b| == 0 then []
    else if |b| == 1 then Group1(b[0])
    else if |b| == 2 then Group2(b[0], b[1])
    else
      var rest := ToSextets(b[3..]);
      UnpaddedLengthStep(|b|);
      TailZeroPrepend(Group3(b[0], b[1], b[2]), rest);
      Group3(b[0], b[1], b[2]) + rest
  }

  lemma UnpaddedLengthStep(n: nat)
    requires n >= 3
    ensures UnpaddedLength(n) == 4 + UnpaddedLength(n - 3)
  {
    assert n / 3 == 1 + (n - 3) / 3;
    assert n % 3 == (n - 3) % 3;
  }

  /** A full group in front keeps the length class and the fill bits of the rest. */
  lemma TailZeroPrepend(g: seq<sextet>, rest: seq<sextet>)
    requires |g| == 4 && |rest| % 4 != 1 && TailZero(rest)
    ensures |g + rest| % 4 != 1 && TailZero(g + rest)
  {
    var vs := g + rest;
    assert |vs| % 4 == |rest| % 4;
    if |rest| > 0 { assert vs[|vs| - 1] == rest[|rest| - 1]; }
  }

  /** The three bytes packed in a group of four characters. */
  function First(a: sextet, b: sextet): byte { a * 4 + b / 16 }
  function Second(b: sextet, c: sextet): byte { (b % 16) * 16 + c / 4 }
  function Third(c: sextet, d: sextet): byte { (c % 4) * 64 + d }

  /** Six-bit groups back to bytes; leftover bits of a final partial group are discarded. */
  function FromSextets(vs: seq<sextet>): (b: seq<byte>)
    requires |vs| % 4 != 1
    decreases |vs|
  {
    if |vs| == 0 then []
    else if |vs| == 2 then [First(vs[0], vs[1])]
    else if |vs| == 3 then [First(vs[0], vs[1]), Second(vs[1], vs[2])]
    else [First(vs[0], vs[1]), Second(vs[1], vs[2]), Third(vs[2], vs[3])] + FromSextets(vs[4..])
  }

  /** Unpacking a group of three bytes gives the bytes back. */
  lemma BytesGroup(x: byte, y: byte, z: byte)
    ensures First(x / 4, (x % 4) * 16 + y / 16) == x
    ensures Second((x % 4) * 16 + y / 16, (y % 16) * 4 + z / 64) == y
    ensures Third((y % 16) * 4 + z / 64, z % 64) == z
  {
  }

  /** Unpacking a full group in front of well-formed characters gives its bytes first. */
  lemma GroupFromTo(x: byte, y: byte, z: byte, rest: seq<sextet>)
    requires |rest| % 4 != 1
    ensures |Group3(x, y, z) + rest| % 4 != 1
    ensures FromSextets(Group3(x, y, z) + rest) == [x, y, z] + FromSextets(rest)
  {
    var vs := Group3(x, y, z) + rest;
    assert |vs| % 4 == |rest| % 4;
    assert vs[4..] == rest;
    BytesGroup(x, y, z);
  }

  /** Packing the bytes of a group of four characters gives the characters back. */
  lemma SextetsGroup(a: sextet, b: sextet, c: sextet, d: sextet)
    ensures First(a, b) / 4 == a
    ensures (First(a, b) % 4) * 16 + Second(b, c) / 16 == b
    ensures (Second(b, c) % 16) * 4 + Third(c, d) / 64 == c
    ensures Third(c, d) % 64 == d
  {
  }

  lemma {:induction false} FromToSextets(b: seq<byte>)
    ensures FromSextets(ToSextets(b)) == b
    decreases |b|
  {
    if |b| == 1 {
      BytesGroup(b[0], 0, 0);
    } else if |b| == 2 {
      BytesGroup(b[0], b[1], 0);
    } else if |b| >= 3 {
      var rest := ToSextets(b[3..]);
      FromToSextets(b[3..]);
      GroupFromTo(b[0], b[1], b[2], rest);
      assert b == [b[0], b[1], b[2]] + b[3..];
    }
  }

  lemma {:induction false} ToFromSextets(vs: seq<sextet>)
    requires |vs| % 4 != 1 && TailZero(vs)
    ensures ToSextets(FromSextets(vs)) == vs
    decreases |vs|
  {
    if |vs| == 2 {
      PairToFrom(vs);
    } else if |vs| == 3 {
      TripleToFrom(vs);
    } else if |vs| >= 4 {
      var rest := vs[4..];
      RestWellFormed(vs);
      ToFromSextets(rest);
      GroupToFrom(vs);
    }
  }

  /** A final group of two characters whose fill bits are zero re-encodes to itself. */
  lemma PairToFrom(vs: seq<sextet>)
    requires |vs| == 2 && TailZero(vs)
    ensures ToSextets(FromSextets(vs)) == vs
  {
    SextetsGroup(vs[0], vs[1], 0, 0);
    assert FromSextets(vs) == [First(vs[0], vs[1])];
  }

  /** A final group of three characters whose fill bits are zero re-encodes to itself. */
  lemma TripleToFrom(vs: seq<sextet>)
    requires |vs| == 3 && TailZero(vs)
    ensures ToSextets(FromSextets(vs)) == vs
  {
    SextetsGroup(vs[0], vs[1], vs[2], 0);
    assert FromSextets(vs) == [First(vs[0], vs[1]), Second(vs[1], vs[2])];
  }

  /** Dropping a full group keeps the length class and the zero fill bits. */
  lemma RestWellFormed(vs: seq<sextet>)
    requires |vs| >= 4 && |vs| % 4 != 1 && TailZero(vs)
    ensures |vs[4..]| % 4 != 1 && TailZero(vs[4..])
  {
    var rest := vs[4..];
    assert |rest| % 4 == |vs| % 4;
    if |rest| > 0 { assert rest[|rest| - 1] == vs[|vs| - 1]; }
  }

  /** Re-encoding the bytes of a full group of four characters gives the characters
      back, in front of the re-encoding of the rest. */
  lemma GroupToFrom(vs: seq<sextet>)
    requires |vs| >= 4 && |vs| % 4 != 1
    requires |vs[4..]| % 4 != 1 && ToSextets(FromSextets(vs[4..])) == vs[4..]
    ensures ToSextets(FromSextets(vs)) == vs
  {
    var head := [First(vs[0], vs[1]), Second(vs[1], vs[2]), Third(vs[2], vs[3])];
    var bytes := FromSextets(vs);
    assert bytes == head + FromSextets(vs[4..]);
    assert bytes[3..] == FromSextets(vs[4..]);
    SextetsGroup(vs[0], vs[1], vs[2], vs[3]);
    assert ToSextets(bytes) == Group3(bytes[0], bytes[1], bytes[2]) + vs[4..];
    assert vs == vs[..4] + vs[4..];
  }

  /** `=` characters that make a padded encoding a multiple of four long. */
  function Padding(n: nat): string {
    if n % 3 == 1 then "==" else if n % 3 == 2 then "=" else ""
  }

  /** Standard base64 with padding (RFC 4648 section 4), what `btoa` writes for a binary string. */
  function EncodeStd(b: seq<byte>): (s: string)
    ensures |s| % 4 == 0
    ensures |s| == 4 * ((|b| + 2) / 3)
  {
    PaddedLength(|b|);
    Chars(ToSextets(b), Standard) + Padding(|b|)
  }

  lemma PaddedLength(n: nat)
    ensures UnpaddedLength(n) + |Padding(n)| == 4 * ((n + 2) / 3)
    ensures (4 * ((n + 2) / 3)) % 4 == 0
  {
    var q := n / 3;
    assert n == 3 * q + n % 3;
    if n % 3 == 0 { assert (n + 2) / 3 == q; } else { assert (n + 2) / 3 == q + 1; }
  }

  /** URL-safe base64 without padding (RFC 4648 section 5), what `sodium.to_base64` writes
      with its default variant URLSAFE_NO_PADDING: only URL-safe alphabet characters. */
  function EncodeUrl(b: seq<byte>): (s: string)
    ensures |s| == UnpaddedLength(|b|)
    ensures forall i :: 0 <= i < |s| ==> ValueOf(s[i], UrlSafe).Some?
  {
    Chars(ToSextets(b), UrlSafe)
  }

  /** `sodium.from_base64(s, URLSAFE_NO_PADDING)`: fails ('invalid input') on any character
      outside the URL-safe alphabet (padding included), on a length that leaves six spare
      bits, and on non-zero unused trailing bits. */
  function DecodeUrl(s: string): (r: Option<seq<byte>>)
    ensures r.Some? ==> forall i :: 0 <= i < |s| ==> ValueOf(s[i], UrlSafe).Some?
  {
    match Sextets(s, UrlSafe)
    case None => None
    case Some(vs) => if |vs| % 4 == 1 || !TailZero(vs) then None else Some(FromSextets(vs))
  }

  /** Decoding what was encoded gives the bytes back. */
  lemma {:induction false} DecodeUrlEncodeUrl(b: seq<byte>)
    ensures DecodeUrl(EncodeUrl(b)) == Some(b)
  {
    SextetsOfChars(ToSextets(b), UrlSafe);
    FromToSextets(b);
  }

  /** Bytes encode to a non-empty string, which JavaScript treats as present. */
  lemma EncodeUrlNonEmpty(b: seq<byte>)
    requires |b| > 0
    ensures EncodeUrl(b) != ""
  {
    assert UnpaddedLength(|b|) > 0;
  }

  /** The strict decoder accepts exactly the canonical encodings: a string decodes to `b`
      if and only if it is the encoding of `b`. */
  lemma {:induction false} DecodeUrlExactlyCanonical(s: string, b: seq<byte>)
    ensures DecodeUrl(s) == Some(b) <==> s == EncodeUrl(b)
  {
    if s == EncodeUrl(b) {
      DecodeUrlEncodeUrl(b);
    }
    if DecodeUrl(s) == Some(b) {
      var vs := Sextets(s, UrlSafe).value;
      ToFromSextets(vs);
      CharsOfSextets(s, UrlSafe);
    }
  }

  /** The two alphabets cannot be mixed: a standard `+` or `/`, or a `=` pad, anywhere
      in the input makes the URL-safe decoder refuse it. */
  lemma StandardCharsRefusedByDecodeUrl(s: string)
    requires '=' in s || '+' in s || '/' in s
    ensures DecodeUrl(s) == None
  {
    var i :| 0 <= i < |s| && s[i] in "=+/";
    assert ValueOf(s[i], UrlSafe) == None;
  }

  /** So `btoa` output is never accepted by the URL-safe decoder when the byte count is
      not a multiple of three: it then ends in a `=` pad. */
  lemma StandardPadRefusedByDecodeUrl(b: seq<byte>)
    requires |b| % 3 != 0
    ensures DecodeUrl(EncodeStd(b)) == None
  {
    var s := EncodeStd(b);
    assert s == Chars(ToSextets(b), Standard) + Padding(|b|);
    assert s[|s| - 1] == '=';
    StandardCharsRefusedByDecodeUrl(s);
  }

  /** ASCII whitespace as WHATWG Infra defines it: TAB, LF, FF, CR, SPACE. */
  predicate IsAsciiWhitespace(c: char) {
    c == ' ' || c == '\t' || c == '\n' || c == '\r' || c as int == 12
  }

  function StripWhitespace(s: string): (r: string)
    ensures |r| <= |s|
    ensures forall i :: 0 <= i < |r| ==> !IsAsciiWhitespace(r[i])
    ensures (forall i :: 0 <= i < |s| ==> !IsAsciiWhitespace(s[i])) ==> r == s
  {
    if s == [] then []
    else if IsAsciiWhitespace(s[0]) then StripWhitespace(s[1..])
    else [s[0]] + StripWhitespace(s[1..])
  }

  /** One or two trailing `=` are dropped when the length is a multiple of four. */
  function StripPadding(s: string): string {
    if |s| % 4 == 0 && |s| >= 2 && s[|s| - 2..] == "==" then s[..|s| - 2]
    else if |s| % 4 == 0 && |s| >= 1 && s[|s| - 1] == '=' then s[..|s| - 1]
    else s
  }

  /** The WHATWG forgiving-base64 decode behind `atob`: strip whitespace, drop the padding,
      refuse a length of 1 modulo 4 or a character outside the standard alphabet,
      discard the unused trailing bits. */
  function ForgivingDecode(s: string): (r: Option<seq<byte>>)
  {
    var t := StripPadding(StripWhitespace(s));
    if |t| % 4 == 1 then None
    else match Sextets(t, Standard)
      case None => None
      case Some(vs) => Some(FromSextets(vs))
  }

  /** `atob(btoa(x))` gives back the bytes of `x`. */
  lemma {:induction false} ForgivingDecodeEncodeStd(b: seq<byte>)
    ensures ForgivingDecode(EncodeStd(b)) == Some(b)
  {
    EncodeStdHasNoWhitespace(b);
    StripPaddingOfEncodeStd(b);
    SextetsOfChars(ToSextets(b), Standard);
    FromToSextets(b);
  }

  /** `btoa` writes alphabet characters and `=`, never whitespace. */
  lemma EncodeStdHasNoWhitespace(b: seq<byte>)
    ensures StripWhitespace(EncodeStd(b)) == EncodeStd(b)
  {
    var cs := Chars(ToSextets(b), Standard);
    var s := EncodeStd(b);
    forall i | 0 <= i < |s| ensures !IsAsciiWhitespace(s[i]) {
      if i < |cs| { assert ValueOf(s[i], Standard).Some?; }
    }
  }

  /** Dropping the padding of `btoa`'s output leaves exactly the alphabet characters. */
  lemma StripPaddingOfEncodeStd(b: seq<byte>)
    ensures StripPadding(EncodeStd(b)) == Chars(ToSextets(b), Standard)
    ensures |Chars(ToSextets(b), Standard)| % 4 != 1
  {
    var cs := Chars(ToSextets(b), Standard);
    forall i | 0 <= i < |cs| ensures ValueOf(cs[i], Standard).Some? {
      ValueOfCharOf(ToSextets(b)[i], Standard);
    }
    var s := EncodeStd(b);
    assert s == cs + Padding(|b|);
    assert |s| % 4 == 0;
    StripPaddingAfter(cs, Padding(|b|));
  }

  /** Alphabet characters followed by at most two `=` lose exactly the `=` when the
      whole is a multiple of four long. */
  lemma StripPaddingAfter(cs: string, pad: string)
    requires forall i :: 0 <= i < |cs| ==> ValueOf(cs[i], Standard).Some?
    requires pad == "" || pad == "=" || pad == "=="
    requires |cs + pad| % 4 == 0
    ensures StripPadding(cs + pad) == cs
  {
    var s := cs + pad;
    if pad == "==" {
      assert s[|s| - 2..] == "==";
      assert s[..|s| - 2] == cs;
    } else if pad == "=" {
      assert |cs| >= 1;
      assert s[|s| - 2] == cs[|cs| - 1];
      assert s[|s| - 2..] != "==";
      assert s[..|s| - 1] == cs;
    } else if |s| >= 1 {
      assert s == cs;
      assert s[|s| - 1] != '=';
    }
  }
}
