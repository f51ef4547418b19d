/** The browser side of push: the VAPID public key, published in the URL-safe
    base 64 alphabet without padding, is turned into the byte array the push
    manager expects. */
module PushKey {
  import opened Schema
  import opened Base64

  /** How many `=` bring a length of `n` to a multiple of four. */
  function PaddingLength(n: nat): (k: nat)
    ensures k < 4 && (n + k) % 4 == 0
    ensures n % 4 == 0 ==> k == 0
  {
    (4 - n % 4) % 4
  }

  /** `k` copies of `c`. */
  function Repeat(c: char, k: nat): (r: string)
    ensures |r| == k && forall i :: 0 <= i < k ==> r[i] == c
  {
    if k == 0 then "" else Repeat(c, k - 1) + [c]
  }

  /** The key followed by its padding. */
  function Padded(s: string): (r: string)
    ensures |r| % 4 == 0 && |s| <= |r| < |s| + 4
    ensures r[..|s|] == s && forall i :: |s| <= i < |r| ==> r[i] == '='
    ensures |s| % 4 == 0 ==> r == s
  {
    s + Repeat('=', PaddingLength(|s|))
  }

  /** Every occurrence of `from` replaced by `to`, as a global regular
      expression replace of a single character does. */
  function ReplaceAll(s: string, from: char, to: char): (r: string)
    ensures |r| == |s|
    ensures forall i :: 0 <= i < |s| && s[i] == from ==> r[i] == to
    ensures forall i :: 0 <= i < |s| && s[i] != from ==> r[i] == s[i]
    ensures from != to ==> from !in r
  {
    if s == [] then ""
    else
      var last := s[|s| - 1];
      ReplaceAll(s[..|s| - 1], from, to) + [if last == from then to else last]
  }

  /** Replacing a character that does not occur changes nothing. */
  lemma {:induction false} ReplaceAbsent(s: string, from: char, to: char)
    requires from !in s
    ensures ReplaceAll(s, from, to) == s
  {
    if s != [] {
      ReplaceAbsent(s[..|s| - 1], from, to);
      assert s == s[..|s| - 1] + [s[|s| - 1]];
    }
  }

  /** `-` becomes `+` and `_` becomes `/`: the RFC 4648 section 5 alphabet
      rewritten in the RFC 4648 section 4 one, everything else left in place. */
  function ToStandardAlphabet(s: string): (r: string)
    ensures AllCounterparts(s, r)
    ensures '-' !in r && '_' !in r
  {
    ReplaceAll(ReplaceAll(s, '-', '+'), '_', '/')
  }

  /** What `atob` is given: the padded key in the standard alphabet. */
  function Normalize(s: string): (r: string)
    ensures |r| % 4 == 0 && |s| <= |r| < |s| + 4
    ensures '-' !in r && '_' !in r
  {
    ToStandardAlphabet(Padded(s))
  }

  /** The conversion: pads the key, rewrites its alphabet, decodes it and
      copies the character codes into a new byte array. `None` stands for the
      exception `atob` raises on input it cannot decode. */
  method UrlBase64ToUint8Array(base64String: string) returns (output: Option<array<Byte>>)
    ensures output.None? <==> Decode(Normalize(base64String)).None?
    ensures output.Some? ==>
      fresh(output.value) && output.value[..] == Decode(Normalize(base64String)).value
  {
    var padding := Repeat('=', PaddingLength(|base64String|));
    var base64 := ReplaceAll(ReplaceAll(base64String + padding, '-', '+'), '_', '/');
    assert base64 == Normalize(base64String);
    var rawData := Atob(base64);
    if rawData.None? {
      return None;
    }
    var outputArray := CharCodes(rawData.value);
    return Some(outputArray);
  }

  /** A new byte array holding the code of each character of `raw`. A
      typed-array store keeps a code modulo 256, which changes nothing here
      because every code is below 256. */
  method CharCodes(raw: string) returns (outputArray: array<Byte>)
    requires forall k :: 0 <= k < |raw| ==> raw[k] as int < 256
    ensures fresh(outputArray)
    ensures outputArray.Length == |raw| && forall k :: 0 <= k < |raw| ==> outputArray[k] == raw[k] as int
  {
    outputArray := new Byte[|raw|];
    for i := 0 to |raw|
      invariant forall k :: 0 <= k < i ==> outputArray[k] == raw[k] as int
    {
      outputArray[i] := (raw[i] as int) % 256;
    }
  }

  /** Two multiples of four less than four apart are equal. */
  lemma SameBlockCount(n: nat, a: nat, b: nat)
    requires a % 4 == 0 && b % 4 == 0 && n <= a < n + 4 && n <= b < n + 4
    ensures a == b
  {
  }

  /** A key published as unpadded URL-safe base 64 becomes, once padded and
      rewritten, the padded standard encoding of the same bytes. */
  lemma NormalizeUrlKey(bs: seq<Byte>)
    ensures Normalize(Encode(bs, UrlSafe)) == EncodePadded(bs)
  {
    var u, e := Encode(bs, UrlSafe), Encode(bs, Standard);
    var padded := Padded(u);
    var n, p := ToStandardAlphabet(padded), EncodePadded(bs);
    EncodeCounterparts(bs);
    EncodePaddedIsPadded(bs);
    SameBlockCount(|e|, |padded|, |p|);
    forall i | 0 <= i < |n| ensures n[i] == p[i] {
      assert Counterparts(padded[i], n[i]);
      if i < |u| {
        assert padded[i] == u[i] && p[i] == e[i];
        assert Counterparts(u[i], e[i]);
      } else {
        assert padded[i] == '=' && p[i] == '=';
      }
    }
  }

  /** The conversion gives back exactly the bytes of a key published as
      unpadded URL-safe base 64. */
  lemma KeyRoundTrip(bs: seq<Byte>)
    ensures Decode(Normalize(Encode(bs, UrlSafe))) == Some(bs)
  {
    NormalizeUrlKey(bs);
    DecodeEncodePadded(bs);
  }

  /** A key that is already padded and in the standard alphabet is passed to
      `atob` unchanged. */
  lemma NormalizeStandardKey(bs: seq<Byte>)
    ensures Normalize(EncodePadded(bs)) == EncodePadded(bs)
  {
    var p := EncodePadded(bs);
    assert Padded(p) == p;
    ReplaceAbsent(p, '-', '+');
    ReplaceAbsent(p, '_', '/');
  }
}
