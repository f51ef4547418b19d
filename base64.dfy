/** Base 64 as defined in RFC 4648: the decoder of RFC 4648 section 4
    (standard alphabet, `=` padding) that a browser's `atob` applies to
    well-formed input, and the encoder that writes a key in either alphabet,
    the URL- and filename-safe one of RFC 4648 section 5 without padding, or
    the standard one. */
module Base64 {
  import opened Schema

  type Byte = x: int | 0 <= x < 256
  type Sextet = x: int | 0 <= x < 64

  /** The two alphabets: RFC 4648 section 4 (`+`, `/`) and RFC 4648 section 5 (`-`, `_`). */
  datatype Alphabet = Standard | UrlSafe

  /** The character that encodes the 6-bit value `v`. */
  function CharOf(v: Sextet, alphabet: Alphabet): (c: char)
    ensures c != '='
    ensures alphabet == UrlSafe ==> c != '+' && c != '/'
    ensures alphabet == Standard ==> c != '-' && c != '_'
  {
    if v < 26 then ('A' as int + v) as char
    else if v < 52 then ('a' as int + v - 26) as char
    else if v < 62 then ('0' as int + v - 52) as char
    else if v == 62 then (if alphabet == Standard then '+' else '-')
    else (if alphabet == Standard then '/' else '_')
  }

  /** The value of a character of the standard alphabet; `None` for any other
      character, `=` included. */
  function StdValue(c: char): Option<Sextet> {
    if 'A' <= c <= 'Z' then Some(c as int - 'A' as int)
    else if 'a' <= c <= 'z' then Some(c as int - 'a' as int + 26)
    else if '0' <= c <= '9' then Some(c as int - '0' as int + 52)
    else if c == '+' then Some(62)
    else if c == '/' then Some(63)
    else None
  }

  /** Reading back the character of a value gives the value. */
  lemma StdValueOfChar(v: Sextet)
    ensures StdValue(CharOf(v, Standard)) == Some(v)
  {
    var c := CharOf(v, Standard);
    if v < 26 {
      assert c as int == 'A' as int + v;
    } else if v < 52 {
      assert c as int == 'a' as int + v - 26;
    } else if v < 62 {
      assert c as int == '0' as int + v - 52;
    }
  }

  /** `e` is `u` with the RFC 4648 section 5 characters `-` and `_` read as
      their RFC 4648 section 4 counterparts `+` and `/`. */
  predicate Counterparts(u: char, e: char) {
    && (u == '-' ==> e == '+')
    && (u == '_' ==> e == '/')
    && (u != '-' && u != '_' ==> e == u)
  }

  /** The two alphabets differ only in the characters for 62 and 63. */
  lemma CharOfCounterparts(v: Sextet)
    ensures Counterparts(CharOf(v, UrlSafe), CharOf(v, Standard))
  {
  }

  /** The four characters of one group, each for six of the 24 bits of `x`, `y`, `z`. */
  function Quad(x: Byte, y: Byte, z: Byte, alphabet: Alphabet): string {
    [CharOf(x / 4, alphabet), CharOf((x % 4) * 16 + y / 16, alphabet),
     CharOf((y % 16) * 4 + z / 64, alphabet), CharOf(z % 64, alphabet)]
  }

  /** Unpadded encoding: 3 bytes per 4 characters; a final 1 or 2 bytes take
      2 or 3 characters, the unused low bits set to zero. */
  function Encode(bs: seq<Byte>, alphabet: Alphabet): (s: string)
    ensures |s| == 4 * (|bs| / 3) + (if |bs| % 3 == 0 then 0 else |bs| % 3 + 1)
    ensures '=' !in s
    ensures alphabet == Standard ==> '-' !in s && '_' !in s
    decreases |bs|
  {
    if |bs| == 0 then ""
    else if |bs| == 1 then
      [CharOf(bs[0] / 4, alphabet), CharOf((bs[0] % 4) * 16, alphabet)]
    else if |bs| == 2 then
      [CharOf(bs[0] / 4, alphabet), CharOf((bs[0] % 4) * 16 + bs[1] / 16, alphabet),
       CharOf((bs[1] % 16) * 4, alphabet)]
    else
      Quad(bs[0], bs[1], bs[2], alphabet) + Encode(bs[3..], alphabet)
  }

  /** The padded encoding of RFC 4648 section 4: the unpadded one, with `==`
      or `=` completing a final group of 2 or 3 characters. */
  function EncodePadded(bs: seq<Byte>): (s: string)
    ensures |s| == 4 * ((|bs| + 2) / 3)
    ensures '-' !in s && '_' !in s
    decreases |bs|
  {
    if |bs| == 0 then ""
    else if |bs| == 1 then Encode(bs, Standard) + "=="
    else if |bs| == 2 then Encode(bs, Standard) + "="
    else Quad(bs[0], bs[1], bs[2], Standard) + EncodePadded(bs[3..])
  }

  /** One group of four characters; only the last group may end in `=` or
      `==`. Bits left over after the last whole byte are discarded. */
  function DecodeGroup(c0: char, c1: char, c2: char, c3: char, last: bool): (r: Option<seq<Byte>>)
    ensures r.Some? ==> 1 <= |r.value| <= 3
    ensures r.Some? && !last ==> |r.value| == 3
  {
    var a, b, c, d := StdValue(c0), StdValue(c1), StdValue(c2), StdValue(c3);
    if a.None? || b.None? then None
    else if last && c2 == '=' && c3 == '=' then
      Some([(a.value * 4 + b.value / 16) as Byte])
    else if last && c3 == '=' then
      if c.None? then None
      else Some([(a.value * 4 + b.value / 16) as Byte, ((b.value % 16) * 16 + c.value / 4) as Byte])
    else if c.None? || d.None? then None
    else
      Some([(a.value * 4 + b.value / 16) as Byte, ((b.value % 16) * 16 + c.value / 4) as Byte,
            ((c.value % 4) * 64 + d.value) as Byte])
  }

  /** Decodes a padded standard-alphabet string group by group; `None` when
      its length is not a multiple of four, a character is outside the
      alphabet, or `=` appears anywhere but at the end of the last group. */
  function Decode(s: string): (r: Option<seq<Byte>>)
    ensures |s| % 4 != 0 ==> r.None?
    ensures r.Some? ==> 4 * |r.value| <= 3 * |s| <= 4 * |r.value| + 8
    decreases |s|
  {
    if |s| == 0 then Some([])
    else if |s| < 4 then None
    else
      match DecodeGroup(s[0], s[1], s[2], s[3], |s| == 4)
      case None => None
      case Some(head) =>
        match Decode(s[4..])
        case None => None
        case Some(tail) => ShiftMod4(|s| - 4); Some(head + tail)
  }

  /** Four more characters leave the remainder modulo four as it was. */
  lemma ShiftMod4(n: nat)
    ensures (n + 4) % 4 == n % 4
  {
  }

  /** `atob`: the decoded bytes as a string of characters with those codes. */
  function Atob(s: string): (r: Option<string>)
    ensures r.Some? <==> Decode(s).Some?
    ensures r.Some? ==>
      && |r.value| == |Decode(s).value|
      && forall i :: 0 <= i < |r.value| ==> r.value[i] as int == Decode(s).value[i]
  {
    match Decode(s)
    case None => None
    case Some(bs) => Some(Latin1(bs))
  }

  /** The string whose i-th character has code `bs[i]`. */
  function Latin1(bs: seq<Byte>): (r: string)
    ensures |r| == |bs|
    ensures forall i :: 0 <= i < |bs| ==> r[i] as int == bs[i]
  {
    if bs == [] then ""
    else Latin1(bs[..|bs| - 1]) + [bs[|bs| - 1] as char]
  }

  /** The 24 bits of three bytes survive their split into four sextets. */
  lemma SplitThree(x: Byte, y: Byte, z: Byte)
    ensures var a, b, c, d := x / 4, (x % 4) * 16 + y / 16, (y % 16) * 4 + z / 64, z % 64;
      && a * 4 + b / 16 == x
      && (b % 16) * 16 + c / 4 == y
      && (c % 4) * 64 + d == z
  {
    var b := (x % 4) * 16 + y / 16;
    var c := (y % 16) * 4 + z / 64;
    assert b / 16 == x % 4 && b % 16 == y / 16;
    assert c / 4 == y % 16 && c % 4 == z / 64;
  }

  /** A final single byte, and a final pair of bytes, survive theirs. */
  lemma SplitTail(x: Byte, y: Byte)
    ensures x / 4 * 4 + ((x % 4) * 16) / 16 == x
    ensures var b, c := (x % 4) * 16 + y / 16, (y % 16) * 4;
      && x / 4 * 4 + b / 16 == x
      && (b % 16) * 16 + c / 4 == y
  {
    var b := (x % 4) * 16 + y / 16;
    assert b / 16 == x % 4 && b % 16 == y / 16;
  }

  /** A whole group decodes to its three bytes, as the last group or not. */
  lemma DecodeQuad(x: Byte, y: Byte, z: Byte, last: bool)
    ensures var q := Quad(x, y, z, Standard);
      DecodeGroup(q[0], q[1], q[2], q[3], last) == Some([x, y, z])
  {
    var a, b, c, d := x / 4, (x % 4) * 16 + y / 16, (y % 16) * 4 + z / 64, z % 64;
    StdValueOfChar(a);
    StdValueOfChar(b);
    StdValueOfChar(c);
    StdValueOfChar(d);
    SplitThree(x, y, z);
  }

  /** A final single byte is written `xx==` and read back. */
  lemma DecodeOne(x: Byte)
    ensures Decode(EncodePadded([x])) == Some([x])
  {
    var s := EncodePadded([x]);
    var a, b := x / 4, (x % 4) * 16;
    StdValueOfChar(a);
    StdValueOfChar(b);
    SplitTail(x, 0);
    assert s == [CharOf(a, Standard), CharOf(b, Standard), '=', '='];
    assert DecodeGroup(s[0], s[1], s[2], s[3], true) == Some([x]);
    assert s[4..] == [];
    assert Decode(s[4..]) == Some([]);
    assert [x] + [] == [x];
  }

  /** A final pair of bytes is written `xxx=` and read back. */
  lemma DecodeTwo(x: Byte, y: Byte)
    ensures Decode(EncodePadded([x, y])) == Some([x, y])
  {
    var s := EncodePadded([x, y]);
    var a, b, c := x / 4, (x % 4) * 16 + y / 16, (y % 16) * 4;
    StdValueOfChar(a);
    StdValueOfChar(b);
    StdValueOfChar(c);
    SplitTail(x, y);
    assert s == [CharOf(a, Standard), CharOf(b, Standard), CharOf(c, Standard), '='];
    assert DecodeGroup(s[0], s[1], s[2], s[3], true) == Some([x, y]);
    assert s[4..] == [];
    assert Decode(s[4..]) == Some([]);
    assert [x, y] + [] == [x, y];
  }

  /** Position by position, `u` and `e` are counterparts. */
  predicate AllCounterparts(u: string, e: string) {
    |u| == |e| && forall i :: 0 <= i < |u| ==> Counterparts(u[i], e[i])
  }

  lemma AppendCounterparts(u1: string, u2: string, e1: string, e2: string)
    requires AllCounterparts(u1, e1) && AllCounterparts(u2, e2)
    ensures AllCounterparts(u1 + u2, e1 + e2)
  {
    forall i | |u1| <= i < |u1 + u2| ensures Counterparts((u1 + u2)[i], (e1 + e2)[i]) {
      assert (u1 + u2)[i] == u2[i - |u1|] && (e1 + e2)[i] == e2[i - |u1|];
    }
  }

  lemma QuadCounterparts(x: Byte, y: Byte, z: Byte)
    ensures AllCounterparts(Quad(x, y, z, UrlSafe), Quad(x, y, z, Standard))
  {
    CharOfCounterparts(x / 4);
    CharOfCounterparts((x % 4) * 16 + y / 16);
    CharOfCounterparts((y % 16) * 4 + z / 64);
    CharOfCounterparts(z % 64);
  }

  /** The URL-safe encoding is the standard one written in the alphabet of
      RFC 4648 section 5: position by position the characters are counterparts. */
  lemma {:induction false} EncodeCounterparts(bs: seq<Byte>)
    ensures AllCounterparts(Encode(bs, UrlSafe), Encode(bs, Standard))
    decreases |bs|
  {
    if |bs| == 1 {
      CharOfCounterparts(bs[0] / 4);
      CharOfCounterparts((bs[0] % 4) * 16);
    } else if |bs| == 2 {
      CharOfCounterparts(bs[0] / 4);
      CharOfCounterparts((bs[0] % 4) * 16 + bs[1] / 16);
      CharOfCounterparts((bs[1] % 16) * 4);
    } else if |bs| > 2 {
      QuadCounterparts(bs[0], bs[1], bs[2]);
      EncodeCounterparts(bs[3..]);
      AppendCounterparts(Quad(bs[0], bs[1], bs[2], UrlSafe), Encode(bs[3..], UrlSafe),
                         Quad(bs[0], bs[1], bs[2], Standard), Encode(bs[3..], Standard));
    }
  }

  /** The padded encoding is the unpadded one followed by the `=` that bring
      its length to a multiple of four. */
  lemma {:induction false} EncodePaddedIsPadded(bs: seq<Byte>)
    ensures var e := Encode(bs, Standard);
      && |EncodePadded(bs)| % 4 == 0 && |e| <= |EncodePadded(bs)| < |e| + 4
      && EncodePadded(bs)[..|e|] == e
      && forall i :: |e| <= i < |EncodePadded(bs)| ==> EncodePadded(bs)[i] == '='
    decreases |bs|
  {
    if 1 <= |bs| <= 2 {
      PaddedTail(bs);
    } else if |bs| > 2 {
      EncodePaddedIsPadded(bs[3..]);
      PaddedStep(bs);
    }
  }

  lemma PaddedTail(bs: seq<Byte>)
    requires 1 <= |bs| <= 2
    ensures var e := Encode(bs, Standard);
      && |EncodePadded(bs)| == 4 && |e| == |bs| + 1
      && EncodePadded(bs)[..|e|] == e
      && forall i :: |e| <= i < 4 ==> EncodePadded(bs)[i] == '='
  {
  }

  lemma PaddedStep(bs: seq<Byte>)
    requires |bs| > 2
    requires var e := Encode(bs[3..], Standard);
      && |EncodePadded(bs[3..])| % 4 == 0 && |e| <= |EncodePadded(bs[3..])| < |e| + 4
      && EncodePadded(bs[3..])[..|e|] == e
      && forall i :: |e| <= i < |EncodePadded(bs[3..])| ==> EncodePadded(bs[3..])[i] == '='
    ensures var e := Encode(bs, Standard);
      && |EncodePadded(bs)| % 4 == 0 && |e| <= |EncodePadded(bs)| < |e| + 4
      && EncodePadded(bs)[..|e|] == e
      && forall i :: |e| <= i < |EncodePadded(bs)| ==> EncodePadded(bs)[i] == '='
  {
    var q := Quad(bs[0], bs[1], bs[2], Standard);
    var p, e := EncodePadded(bs[3..]), Encode(bs[3..], Standard);
    assert EncodePadded(bs) == q + p;
    assert Encode(bs, Standard) == q + e;
    assert |q + p| == |p| + 4 && |q + e| == |e| + 4;
    ShiftMod4(|p|);
    assert (q + p)[..|q + e|] == q + p[..|e|];
    forall i | |q + e| <= i < |q + p| ensures (q + p)[i] == '=' {
      assert (q + p)[i] == p[i - 4];
    }
  }

  /** A group followed by further groups decodes to the group's bytes
      followed by theirs. */
  lemma DecodeFirstGroup(q: string, rest: string, head: seq<Byte>)
    requires |q| == 4
    requires DecodeGroup(q[0], q[1], q[2], q[3], rest == []) == Some(head)
    requires Decode(rest).Some?
    ensures Decode(q + rest) == Some(head + Decode(rest).value)
  {
    var s := q + rest;
    assert s[0] == q[0] && s[1] == q[1] && s[2] == q[2] && s[3] == q[3];
    assert s[4..] == rest;
  }

  /** The RFC 4648 section 4 round trip: decoding the padded encoding of any
      bytes gives those bytes back. */
  lemma {:induction false} DecodeEncodePadded(bs: seq<Byte>)
    ensures Decode(EncodePadded(bs)) == Some(bs)
    decreases |bs|
  {
    if |bs| == 1 {
      assert bs == [bs[0]];
      DecodeOne(bs[0]);
    } else if |bs| == 2 {
      assert bs == [bs[0], bs[1]];
      DecodeTwo(bs[0], bs[1]);
    } else if |bs| > 2 {
      var q := Quad(bs[0], bs[1], bs[2], Standard);
      var rest := EncodePadded(bs[3..]);
      assert EncodePadded(bs) == q + rest;
      DecodeQuad(bs[0], bs[1], bs[2], rest == []);
      DecodeEncodePadded(bs[3..]);
      DecodeFirstGroup(q, rest, [bs[0], bs[1], bs[2]]);
      FirstThree(bs);
    }
  }

  /** A sequence of three or more bytes is its first three followed by the rest. */
  lemma FirstThree(bs: seq<Byte>)
    requires |bs| > 2
    ensures [bs[0], bs[1], bs[2]] + bs[3..] == bs
  {
    assert bs == bs[..3] + bs[3..];
  }
}
