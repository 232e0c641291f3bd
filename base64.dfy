/**
 * Base64 encoding as defined in section 4 of RFC 4648 (standard alphabet,
 * `=` padding), which is what Node's `Buffer.toString("base64")` produces.
 * The relay uses it to inline uploaded files. The decoder is here as the
 * encoder's inverse, so that the encoding can be shown to lose nothing.
 *
 * Both directions go through the sequence of 6-bit values: octets are split
 * into 6-bit values, which are written as alphabet characters, and the
 * encoding is padded with `=` to a multiple of four characters.
 */
module Base64 {
  import opened Wrappers

  /** One octet of an uploaded file. */
  type Byte = b: int | 0 <= b < 256

  /** The 64 characters of the alphabet of section 4 of RFC 4648. */
  predicate IsAlphabetChar(c: char) {
    ('A' <= c <= 'Z') || ('a' <= c <= 'z') || ('0' <= c <= '9') || c == '+' || c == '/'
  }

  /** The character that encodes a 6-bit value (Table 1 of RFC 4648). */
  function SextetChar(v: int): (c: char)
    requires 0 <= v < 64
    ensures IsAlphabetChar(c)
  {
    if v < 26 then ('A' as int + v) as char
    else if v < 52 then ('a' as int + (v - 26)) as char
    else if v < 62 then ('0' as int + (v - 52)) as char
    else if v == 62 then '+'
    else '/'
  }

  /** The 6-bit value a character encodes, if it belongs to the alphabet. */
  function CharSextet(c: char): (r: Option<int>)
    ensures r.Some? <==> IsAlphabetChar(c)
    ensures r.Some? ==> 0 <= r.value < 64 && SextetChar(r.value) == c
  {
    if 'A' <= c <= 'Z' then Some(c as int - 'A' as int)
    else if 'a' <= c <= 'z' then Some(c as int - 'a' as int + 26)
    else if '0' <= c <= '9' then Some(c as int - '0' as int + 52)
    else if c == '+' then Some(62)
    else if c == '/' then Some(63)
    else None
  }

  /** Decoding a character undoes encoding a 6-bit value. */
  lemma SextetRoundTrip(v: int)
    requires 0 <= v < 64
    ensures CharSextet(SextetChar(v)) == Some(v)
  {
    var c := SextetChar(v);
    assert CharSextet(c).Some?;
  }

  /** Every element is a 6-bit value. */
  ghost predicate AllSextets(vs: seq<int>) {
    forall i :: 0 <= i < |vs| ==> 0 <= vs[i] < 64
  }

  /** The four 6-bit values of a full group of three octets. */
  function GroupSextets(b0: Byte, b1: Byte, b2: Byte): (vs: seq<int>)
    ensures |vs| == 4 && AllSextets(vs)
  {
    [b0 / 4, (b0 % 4) * 16 + b1 / 16, (b1 % 16) * 4 + b2 / 64, b2 % 64]
  }

  /**
   * The 6-bit values of an octet sequence, most significant bits first: a full
   * group of three octets gives four values, a final group of one or two
   * octets gives two or three values whose missing low bits are zero.
   */
  function Sextets(bytes: seq<Byte>): (vs: seq<int>)
    ensures |vs| == (4 * |bytes| + 2) / 3
    ensures AllSextets(vs)
    decreases |bytes|
  {
    if |bytes| == 0 then []
    else if |bytes| == 1 then [bytes[0] / 4, (bytes[0] % 4) * 16]
    else if |bytes| == 2 then [bytes[0] / 4, (bytes[0] % 4) * 16 + bytes[1] / 16, (bytes[1] % 16) * 4]
    else GroupSextets(bytes[0], bytes[1], bytes[2]) + Sextets(bytes[3..])
  }

  /** The three octets four 6-bit values stand for. */
  function GroupOctets(v0: int, v1: int, v2: int, v3: int): seq<Byte>
    requires 0 <= v0 < 64 && 0 <= v1 < 64 && 0 <= v2 < 64 && 0 <= v3 < 64
  {
    [v0 * 4 + v1 / 16, (v1 % 16) * 16 + v2 / 4, (v2 % 4) * 64 + v3]
  }

  /**
   * The octets that a sequence of 6-bit values stands for (low leftover bits
   * are dropped): three for each full group of four, and one fewer than the
   * values of a final partial group.
   */
  function Octets(vs: seq<int>): (bs: seq<Byte>)
    requires AllSextets(vs) && |vs| % 4 != 1
    ensures |bs| == 3 * (|vs| / 4) + (if |vs| % 4 == 0 then 0 else |vs| % 4 - 1)
    decreases |vs|
  {
    if |vs| >= 4 then GroupOctets(vs[0], vs[1], vs[2], vs[3]) + Octets(vs[4..])
    else if |vs| == 3 then [vs[0] * 4 + vs[1] / 16, (vs[1] % 16) * 16 + vs[2] / 4]
    else if |vs| == 2 then [vs[0] * 4 + vs[1] / 16]
    else []
  }

  /** The characters for a sequence of 6-bit values, one each. */
  function Chars(vs: seq<int>): (s: string)
    requires AllSextets(vs)
    ensures |s| == |vs|
    ensures forall i :: 0 <= i < |s| ==> s[i] == SextetChar(vs[i])
    decreases |vs|
  {
    if vs == [] then [] else [SextetChar(vs[0])] + Chars(vs[1..])
  }

  /** The 6-bit values of a string of alphabet characters, or `None` if another character occurs. */
  function Values(s: string): (r: Option<seq<int>>)
    ensures r.Some? <==> forall i :: 0 <= i < |s| ==> IsAlphabetChar(s[i])
    ensures r.Some? ==> |r.value| == |s| && AllSextets(r.value)
    decreases |s|
  {
    if s == [] then Some([])
    else
      match (CharSextet(s[0]), Values(s[1..]))
      case (Some(v), Some(rest)) => Some([v] + rest)
      case _ => None
  }

  /** How many `=` characters end the encoding of `n` octets. */
  function PadCount(n: nat): (p: nat)
    ensures p <= 2
    ensures (n + p) % 3 == 0
  {
    if n % 3 == 0 then 0 else 3 - n % 3
  }

  /** `k` padding characters. */
  function Padding(k: nat): (s: string)
    requires k <= 2
    ensures |s| == k && forall i :: 0 <= i < k ==> s[i] == '='
  {
    if k == 0 then "" else if k == 1 then "=" else "=="
  }

  /**
   * The encoding of an octet sequence: its 6-bit values as characters, padded
   * with `=`. Every character is from the alphabet or is `=`, and `=` appears
   * exactly in the last PadCount(n) positions.
   */
  function Encode(bytes: seq<Byte>): (s: string)
    ensures forall i :: 0 <= i < |s| ==> IsAlphabetChar(s[i]) || s[i] == '='
    ensures forall i :: 0 <= i < |s| ==> (s[i] == '=' <==> i >= |s| - PadCount(|bytes|))
  {
    var body := Chars(Sextets(bytes));
    PaddedAlphabet(body, PadCount(|bytes|));
    body + Padding(PadCount(|bytes|))
  }

  /** Alphabet characters followed by `p` padding characters hold `=` exactly in the last `p` places. */
  lemma PaddedAlphabet(body: string, p: nat)
    requires p <= 2
    requires forall i :: 0 <= i < |body| ==> IsAlphabetChar(body[i])
    ensures forall i :: 0 <= i < |body + Padding(p)| ==>
              IsAlphabetChar((body + Padding(p))[i]) || (body + Padding(p))[i] == '='
    ensures forall i :: 0 <= i < |body + Padding(p)| ==>
              ((body + Padding(p))[i] == '=' <==> i >= |body + Padding(p)| - p)
  {
    var s := body + Padding(p);
    forall i | 0 <= i < |s|
      ensures IsAlphabetChar(s[i]) || s[i] == '='
      ensures s[i] == '=' <==> i >= |s| - p
    {
      if i < |body| {
        assert s[i] == body[i];
      } else {
        assert s[i] == Padding(p)[i - |body|];
      }
    }
  }

  /** How many `=` characters (at most two) end the string. */
  function TrailingPad(s: string): (p: nat)
    ensures p <= 2 && p <= |s|
  {
    if |s| >= 2 && s[|s| - 1] == '=' && s[|s| - 2] == '=' then 2
    else if |s| >= 1 && s[|s| - 1] == '=' then 1
    else 0
  }

  /** The octets a string of alphabet characters stands for, when its length is possible. */
  function DecodeBody(t: string): Option<seq<Byte>> {
    match Values(t)
    case Some(vs) => if |vs| % 4 == 1 then None else Some(Octets(vs))
    case None => None
  }

  /**
   * The octets a padded encoding stands for, or `None` when its length is not
   * a multiple of four, a character other than the final padding is outside
   * the alphabet, or the number of characters before the padding is impossible.
   */
  function Decode(s: string): (r: Option<seq<Byte>>)
    ensures |s| % 4 != 0 ==> r.None?
    ensures r.Some? ==> forall i :: 0 <= i < |s| - TrailingPad(s) ==> IsAlphabetChar(s[i])
    ensures r.Some? ==> |r.value| == 3 * (|s| / 4) - TrailingPad(s)
  {
    if |s| % 4 != 0 then None
    else
      var p := TrailingPad(s);
      var t := s[..|s| - p];
      assert forall i :: 0 <= i < |t| ==> t[i] == s[i];
      if p == 0 then DecodeBody(t)
      else
        Split4(|t|, |s| / 4 - 1, 4 - p);
        DecodeBody(t)
  }

  /** The encoding has four characters for every started group of three octets. */
  lemma EncodeLength(bytes: seq<Byte>)
    ensures |Encode(bytes)| == 4 * ((|bytes| + 2) / 3)
    ensures |Encode(bytes)| % 4 == 0
  {
    var n, q := |bytes|, |bytes| / 3;
    if n % 3 == 0 {
      Split3(4 * n + 2, 4 * q, 2);
      Split3(n + 2, q, 2);
    } else if n % 3 == 1 {
      Split3(4 * n + 2, 4 * q + 2, 0);
      Split3(n + 2, q + 1, 0);
    } else {
      Split3(4 * n + 2, 4 * q + 3, 1);
      Split3(n + 2, q + 1, 1);
    }
  }

  /** A value built from a quotient and a remainder by 3 splits back into them. */
  lemma Split3(x: int, q: int, r: int)
    requires 0 <= r < 3 && x == q * 3 + r
    ensures x / 3 == q && x % 3 == r
  {
  }

  /** Reading the characters back gives the 6-bit values. */
  lemma {:induction false} ValuesOfChars(vs: seq<int>)
    requires AllSextets(vs)
    ensures Values(Chars(vs)) == Some(vs)
    decreases |vs|
  {
    if vs != [] {
      var v, rest := vs[0], vs[1..];
      var c, t := SextetChar(v), Chars(rest);
      ValuesOfChars(rest);
      SextetRoundTrip(v);
      ValuesCons(c, t, v, rest);
      assert Chars(vs) == [c] + t;
      assert vs == [v] + rest;
    }
  }

  /** Values of a string read its first character, then the rest. */
  lemma ValuesCons(c: char, s: string, v: int, rest: seq<int>)
    requires CharSextet(c) == Some(v) && Values(s) == Some(rest)
    ensures Values([c] + s) == Some([v] + rest)
  {
    assert ([c] + s)[1..] == s;
  }

  /** A value built from a quotient and a remainder by 16 splits back into them. */
  lemma Split16(x: int, q: int, r: int)
    requires 0 <= r < 16 && x == q * 16 + r
    ensures x / 16 == q && x % 16 == r
  {
  }

  /** A value built from a quotient and a remainder by 4 splits back into them. */
  lemma Split4(x: int, q: int, r: int)
    requires 0 <= r < 4 && x == q * 4 + r
    ensures x / 4 == q && x % 4 == r
  {
  }

  /** The 6-bit values of one full group recombine into its three octets. */
  lemma GroupRoundTrip(b0: Byte, b1: Byte, b2: Byte)
    ensures var vs := GroupSextets(b0, b1, b2); GroupOctets(vs[0], vs[1], vs[2], vs[3]) == [b0, b1, b2]
  {
    Split16((b0 % 4) * 16 + b1 / 16, b0 % 4, b1 / 16);
    Split4((b1 % 16) * 4 + b2 / 64, b1 % 16, b2 / 64);
  }

  /** Recombining a full group in front of further values. */
  lemma OctetsCons(head: seq<int>, rest: seq<int>)
    requires |head| == 4 && AllSextets(head) && AllSextets(rest) && |rest| % 4 != 1
    ensures AllSextets(head + rest) && |head + rest| % 4 != 1
    ensures Octets(head + rest) == GroupOctets(head[0], head[1], head[2], head[3]) + Octets(rest)
  {
    assert (head + rest)[4..] == rest;
  }

  /** Recombining the 6-bit values gives back the octets. */
  lemma {:induction false} OctetsOfSextets(bytes: seq<Byte>)
    ensures |Sextets(bytes)| % 4 != 1
    ensures Octets(Sextets(bytes)) == bytes
    decreases |bytes|
  {
    var n := |bytes|;
    if n == 1 {
      Split16((bytes[0] % 4) * 16, bytes[0] % 4, 0);
    } else if n == 2 {
      Split16((bytes[0] % 4) * 16 + bytes[1] / 16, bytes[0] % 4, bytes[1] / 16);
      Split4((bytes[1] % 16) * 4, bytes[1] % 16, 0);
    } else if n > 2 {
      OctetsOfSextets(bytes[3..]);
      GroupRoundTrip(bytes[0], bytes[1], bytes[2]);
      OctetsCons(GroupSextets(bytes[0], bytes[1], bytes[2]), Sextets(bytes[3..]));
      assert bytes == [bytes[0], bytes[1], bytes[2]] + bytes[3..];
    }
  }

  /** The padding at the end of an encoding is exactly the padding it was given. */
  lemma TrailingPadOfEncode(bytes: seq<Byte>)
    ensures TrailingPad(Encode(bytes)) == PadCount(|bytes|)
    ensures Encode(bytes)[..|Encode(bytes)| - PadCount(|bytes|)] == Chars(Sextets(bytes))
  {
    var body, p := Chars(Sextets(bytes)), PadCount(|bytes|);
    assert p >= 1 ==> |body| >= 2;
    TrailingPadAfterBody(body, p);
  }

  /** Alphabet characters followed by `p` padding characters end in exactly `p` of them. */
  lemma TrailingPadAfterBody(body: string, p: nat)
    requires p <= 2 && (p >= 1 ==> |body| >= 2)
    requires forall i :: 0 <= i < |body| ==> IsAlphabetChar(body[i])
    ensures TrailingPad(body + Padding(p)) == p
    ensures (body + Padding(p))[..|body|] == body
  {
    var s := body + Padding(p);
    if p == 0 {
      assert s == body;
      assert |s| >= 1 ==> IsAlphabetChar(body[|body| - 1]);
    } else if p == 1 {
      assert s[|s| - 2] == body[|body| - 1];
    }
  }

  /** Decoding the characters of 6-bit values gives their octets. */
  lemma DecodeBodyOfChars(vs: seq<int>)
    requires AllSextets(vs) && |vs| % 4 != 1
    ensures DecodeBody(Chars(vs)) == Some(Octets(vs))
  {
    ValuesOfChars(vs);
  }

  /** A string of a good length decodes to what the part before its padding decodes to. */
  lemma DecodePadded(s: string, body: string, bytes: seq<Byte>)
    requires |s| % 4 == 0 && TrailingPad(s) <= |s|
    requires s[..|s| - TrailingPad(s)] == body && DecodeBody(body) == Some(bytes)
    ensures Decode(s) == Some(bytes)
  {
  }

  /** Test vector of section 10 of RFC 4648: the empty input encodes as the empty string. */
  lemma TestVectorEmpty()
    ensures Encode([]) == ""
  {
  }

  /** Test vector of section 10 of RFC 4648: "f" encodes as "Zg==". */
  lemma TestVectorF()
    ensures Encode([102]) == "Zg=="
  {
  }

  /** Test vector of section 10 of RFC 4648: "fo" encodes as "Zm8=". */
  lemma TestVectorFo()
    ensures Encode([102, 111]) == "Zm8="
  {
  }

  /** Test vector of section 10 of RFC 4648: "foo" encodes as "Zm9v". */
  lemma TestVectorFoo()
    ensures Encode([102, 111, 111]) == "Zm9v"
  {
    var bytes: seq<Byte> := [102, 111, 111];
    assert bytes[3..] == [];
    assert Sextets(bytes) == [25, 38, 61, 47];
    assert Chars([25, 38, 61, 47]) == "Zm9v";
  }

  /** Decoding undoes encoding: the attachment reaches the provider intact. */
  lemma RoundTrip(bytes: seq<Byte>)
    ensures Decode(Encode(bytes)) == Some(bytes)
  {
    var vs := Sextets(bytes);
    EncodeLength(bytes);
    TrailingPadOfEncode(bytes);
    OctetsOfSextets(bytes);
    DecodeBodyOfChars(vs);
    DecodePadded(Encode(bytes), Chars(vs), bytes);
  }
}
