/** The byte/binary-string helpers `arrayBufferToBase64` and `base64ToUint8Array`
    (identical copies in shareFileKey.js, fileEncryption.js and, for the second,
    Dashboard.jsx), together with the browser's `btoa` and `atob` they call. */
module ByteHelpers {
  import opened Common
  import opened Base64

  /** The "binary string" of `b`: character i is `String.fromCharCode(b[i])`. */
  function BinaryString(b: seq<byte>): (s: string)
    ensures |s| == |b|
    ensures forall i :: 0 <= i < |b| ==> s[i] as int == b[i]
  {
    seq(|b|, i requires 0 <= i < |b| => b[i] as char)
  }

  /** A string every character of which has a code below 256. */
  predicate IsBinary(s: string) {
    forall i :: 0 <= i < |s| ==> s[i] as int < 256
  }

  /** `charCodeAt(i)` for every i of a binary string. */
  function CharCodes(s: string): (b: seq<byte>)
    requires IsBinary(s)
    ensures BinaryString(b) == s
  {
    seq(|s|, i requires 0 <= i < |s| => s[i] as int)
  }

  lemma CharCodesOfBinaryString(b: seq<byte>)
    ensures CharCodes(BinaryString(b)) == b
  {
  }

  /** `btoa`: InvalidCharacterError for a character above U+00FF, otherwise the
      padded standard base64 of the character codes. */
  function Btoa(s: string): (r: Result<string, Error>)
    ensures r.Ok? <==> IsBinary(s)
    ensures r.Err? ==> r.error == InvalidCharacter
  {
    if IsBinary(s) then Ok(EncodeStd(CharCodes(s))) else Err(InvalidCharacter)
  }

  /** `atob`: the forgiving-base64 decode as a binary string, InvalidCharacterError
      (modelled as `InvalidBase64`) when the input is not base64. */
  function Atob(s: string): (r: Result<string, Error>)
    ensures r.Ok? ==> IsBinary(r.value)
    ensures r.Err? <==> ForgivingDecode(s).None?
  {
    match ForgivingDecode(s)
    case None => Err(InvalidBase64)
    case Some(b) => Ok(BinaryString(b))
  }

  /** `atob(btoa(s)) == s` for every binary string. */
  lemma {:induction false} AtobBtoa(s: string)
    requires IsBinary(s)
    ensures Btoa(s).Ok? && Atob(Btoa(s).value) == Ok(s)
  {
    ForgivingDecodeEncodeStd(CharCodes(s));
  }

  /** `arrayBufferToBase64`: the loop appends `String.fromCharCode(bytes[i])` for every
      byte, then `btoa` encodes the binary string; the result is the padded standard
      base64 of the bytes. */
  method ArrayBufferToBase64(bytes: array<byte>) returns (r: string)
    ensures r == EncodeStd(bytes[..])
  {
    var binary := "";
    var i := 0;
    while i < bytes.Length
      invariant 0 <= i <= bytes.Length
      invariant binary == BinaryString(bytes[..i])
    {
      binary := binary + [bytes[i] as char];
      i := i + 1;
    }
    assert bytes[..i] == bytes[..];
    CharCodesOfBinaryString(bytes[..]);
    r := Btoa(binary).value;
  }

  /** `base64ToUint8Array`: `atob`, then a fresh array filled with the character codes;
      it fails exactly when `atob` throws. */
  method Base64ToUint8Array(base64: string) returns (r: Result<array<byte>, Error>)
    ensures r.Ok? <==> ForgivingDecode(base64).Some?
    ensures r.Err? ==> r.error == InvalidBase64
    ensures r.Ok? ==> fresh(r.value) && r.value[..] == ForgivingDecode(base64).value
  {
    var decoded := Atob(base64);
    if decoded.Err? {
      return Err(decoded.error);
    }
    var binary := decoded.value;
    var bytes := new byte[|binary|];
    var i := 0;
    while i < |binary|
      invariant 0 <= i <= |binary|
      invariant forall k :: 0 <= k < i ==> bytes[k] == binary[k] as int
    {
      bytes[i] := binary[i] as int;
      i := i + 1;
    }
    assert bytes[..] == ForgivingDecode(base64).value;
    r := Ok(bytes);
  }

  /** The two helpers are inverse: decoding what `arrayBufferToBase64` wrote gives
      back the same bytes, and character i of the intermediate binary string has code b[i]. */
  lemma {:induction false} HelpersRoundTrip(b: seq<byte>)
    ensures ForgivingDecode(EncodeStd(b)) == Some(b)
    ensures Btoa(BinaryString(b)) == Ok(EncodeStd(b))
    ensures Atob(EncodeStd(b)) == Ok(BinaryString(b))
  {
    ForgivingDecodeEncodeStd(b);
    CharCodesOfBinaryString(b);
  }
}
