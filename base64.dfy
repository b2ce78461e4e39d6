/**
 * Base 64 encoding with padding, as in section 4 of RFC 4648 (what
 * `Buffer.prototype.toString('base64')` produces), and its decoder.
 */
module Base64 {
  import opened Wrappers

  /** A 6-bit group. */
  type index = x: int | 0 <= x < 64

  const Pad := '='

  /** The character for a 6-bit value, from the alphabet of Table 1 of RFC 4648. */
  function Digit(x: index): (c: char)
    ensures IsDigit(c)
  {
    if x < 26 then ('A' as int + x) as char
    else if x < 52 then ('a' as int + (x - 26)) as char
    else if x < 62 then ('0' as int + (x - 52)) as char
    else if x == 62 then '+'
    else '/'
  }

  predicate IsDigit(c: char)
  {
    ('A' <= c <= 'Z') || ('a' <= c <= 'z') || ('0' <= c <= '9') || c == '+' || c == '/'
  }

  /** The value of an alphabet character. */
  function ValueOf(c: char): (x: index)
    requires IsDigit(c)
    ensures Digit(x) == c
  {
    if 'A' <= c <= 'Z' then c as int - 'A' as int
    else if 'a' <= c <= 'z' then c as int - 'a' as int + 26
    else if '0' <= c <= '9' then c as int - '0' as int + 52
    else if c == '+' then 62
    else 63
  }

  lemma ValueOfDigit(x: index)
    ensures ValueOf(Digit(x)) == x
  {
  }

  /** Three octets as four characters. */
  function EncodeGroup(a: uint8, b: uint8, c: uint8): string
  {
    [Digit(a / 4), Digit((a % 4) * 16 + b / 16), Digit((b % 16) * 4 + c / 64), Digit(c % 64)]
  }

  /**
   * The encoding of `b`: full groups of three octets, then a final group of
   * one or two octets padded with "==" or "=".
   */
  function Encode(b: seq<uint8>): (s: string)
    ensures |s| == 4 * ((|b| + 2) / 3) && |s| % 4 == 0
    decreases |b|
  {
    if |b| == 0 then ""
    else if |b| == 1 then [Digit(b[0] / 4), Digit((b[0] % 4) * 16), Pad, Pad]
    else if |b| == 2 then [Digit(b[0] / 4), Digit((b[0] % 4) * 16 + b[1] / 16), Digit((b[1] % 16) * 4), Pad]
    else
      assert (|b| - 3 + 2) / 3 + 1 == (|b| + 2) / 3;
      EncodeGroup(b[0], b[1], b[2]) + Encode(b[3..])
  }

  /** Every character of an encoding is from the alphabet, except for padding in the last two places. */
  lemma {:induction false} EncodeAlphabet(b: seq<uint8>)
    ensures forall i :: 0 <= i < |Encode(b)| ==> IsDigit(Encode(b)[i]) || (Encode(b)[i] == Pad && i >= |Encode(b)| - 2)
    decreases |b|
  {
    if |b| >= 3 {
      EncodeAlphabet(b[3..]);
      var g, t := EncodeGroup(b[0], b[1], b[2]), Encode(b[3..]);
      var s := Encode(b);
      assert s == g + t;
      forall i | 0 <= i < |s| ensures IsDigit(s[i]) || (s[i] == Pad && i >= |s| - 2) {
        if i < 4 {
          assert s[i] == g[i];
        } else {
          assert s[i] == t[i - 4];
        }
      }
    } else if |b| == 1 {
      assert Encode(b) == [Digit(b[0] / 4), Digit((b[0] % 4) * 16), Pad, Pad];
    } else if |b| == 2 {
      assert Encode(b) == [Digit(b[0] / 4), Digit((b[0] % 4) * 16 + b[1] / 16), Digit((b[1] % 16) * 4), Pad];
    }
  }

  /** Four alphabet characters as three octets. */
  function DecodeGroup(c0: char, c1: char, c2: char, c3: char): seq<uint8>
    requires IsDigit(c0) && IsDigit(c1) && IsDigit(c2) && IsDigit(c3)
  {
    var x0, x1, x2, x3 := ValueOf(c0), ValueOf(c1), ValueOf(c2), ValueOf(c3);
    [x0 * 4 + x1 / 16, (x1 % 16) * 16 + x2 / 4, (x2 % 4) * 64 + x3]
  }

  /**
   * The last group of four characters, which may end in "==" or "=". The bits
   * a padded group leaves unused must be zero (section 3.5 of RFC 4648), so that
   * every octet sequence has exactly one encoding that decodes to it.
   */
  function DecodeFinal(q: string): Option<seq<uint8>>
    requires |q| == 4
  {
    if !IsDigit(q[0]) || !IsDigit(q[1]) then None
    else
      var x0, x1 := ValueOf(q[0]), ValueOf(q[1]);
      if q[2] == Pad && q[3] == Pad then
        if x1 % 16 == 0 then Some([x0 * 4 + x1 / 16]) else None
      else if IsDigit(q[2]) && q[3] == Pad then
        if ValueOf(q[2]) % 4 == 0 then Some([x0 * 4 + x1 / 16, (x1 % 16) * 16 + ValueOf(q[2]) / 4]) else None
      else if IsDigit(q[2]) && IsDigit(q[3]) then Some(DecodeGroup(q[0], q[1], q[2], q[3]))
      else None
  }

  /** Decodes padded base 64; None when the length is not a multiple of four or a character is misplaced. */
  function Decode(s: string): Option<seq<uint8>>
    decreases |s|
  {
    if |s| == 0 then Some([])
    else if |s| < 4 then None
    else if |s| == 4 then DecodeFinal(s)
    else if IsDigit(s[0]) && IsDigit(s[1]) && IsDigit(s[2]) && IsDigit(s[3]) then
      match Decode(s[4..])
      case None => None
      case Some(rest) => Some(DecodeGroup(s[0], s[1], s[2], s[3]) + rest)
    else None
  }

  /** The middle digits of a group carry the low bits of one octet and the high bits of the next. */
  lemma SplitDigit(hi: int, lo: int, loBits: nat, hiBits: nat)
    requires 0 <= hi < hiBits && 0 <= lo < loBits && hiBits * loBits == 64 && loBits in {4, 16}
    ensures hiBits == 4 ==> (hi * 16 + lo) / 16 == hi && (hi * 16 + lo) % 16 == lo
    ensures hiBits == 16 ==> (hi * 4 + lo) / 4 == hi && (hi * 4 + lo) % 4 == lo
  {
  }

  lemma DecodeEncodeGroup(a: uint8, b: uint8, c: uint8)
    ensures var q := EncodeGroup(a, b, c);
      IsDigit(q[0]) && IsDigit(q[1]) && IsDigit(q[2]) && IsDigit(q[3])
      && DecodeGroup(q[0], q[1], q[2], q[3]) == [a, b, c]
  {
    var x0, x1, x2, x3 := a / 4, (a % 4) * 16 + b / 16, (b % 16) * 4 + c / 64, c % 64;
    ValueOfDigit(x0);
    ValueOfDigit(x1);
    ValueOfDigit(x2);
    ValueOfDigit(x3);
    SplitDigit(a % 4, b / 16, 16, 4);
    SplitDigit(b % 16, c / 64, 4, 16);
    assert x0 * 4 + x1 / 16 == a;
    assert (x1 % 16) * 16 + x2 / 4 == b;
    assert (x2 % 4) * 64 + x3 == c;
  }

  lemma DecodeEncodeSingle(a: uint8)
    ensures Decode(Encode([a])) == Some([a])
  {
    var x0, x1 := a / 4, (a % 4) * 16;
    ValueOfDigit(x0);
    ValueOfDigit(x1);
    assert x1 / 16 == a % 4;
    var s := Encode([a]);
    assert s == [Digit(x0), Digit(x1), Pad, Pad];
    assert DecodeFinal(s) == Some([x0 * 4 + x1 / 16]);
  }

  lemma DecodeEncodeOne(b: seq<uint8>)
    requires |b| == 1
    ensures Decode(Encode(b)) == Some(b)
  {
    DecodeEncodeSingle(b[0]);
    assert b == [b[0]];
  }

  lemma DecodeEncodePair(a: uint8, b: uint8)
    ensures Decode(Encode([a, b])) == Some([a, b])
  {
    var x1, x2 := (a % 4) * 16 + b / 16, (b % 16) * 4;
    ValueOfDigit(a / 4);
    ValueOfDigit(x1);
    ValueOfDigit(x2);
    assert x1 / 16 == a % 4 && x1 % 16 == b / 16 && x2 / 4 == b % 16;
    var s := Encode([a, b]);
    assert s == [Digit(a / 4), Digit(x1), Digit(x2), Pad];
    assert DecodeFinal(s) == Some([a, b]);
  }

  lemma DecodeEncodeTwo(b: seq<uint8>)
    requires |b| == 2
    ensures Decode(Encode(b)) == Some(b)
  {
    DecodeEncodePair(b[0], b[1]);
    assert b == [b[0], b[1]];
  }

  lemma DecodeEncodeThree(b: seq<uint8>)
    requires |b| == 3
    ensures Decode(Encode(b)) == Some(b)
  {
    DecodeEncodeGroup(b[0], b[1], b[2]);
    var q := EncodeGroup(b[0], b[1], b[2]);
    assert b[3..] == [];
    assert Encode(b) == q + "" == q;
    assert DecodeFinal(q) == Some(DecodeGroup(q[0], q[1], q[2], q[3]));
    assert b == [b[0], b[1], b[2]];
  }

  /** Encoding more than three octets: the first group, then the encoding of the rest. */
  lemma EncodeSplit(b: seq<uint8>)
    requires |b| > 3
    ensures Encode(b) == EncodeGroup(b[0], b[1], b[2]) + Encode(b[3..])
    ensures |Encode(b[3..])| > 0
  {
  }

  /** Decoding a full group followed by more: the group's octets, then the rest's. */
  lemma DecodeGroupThen(b: seq<uint8>, t: string, rest: seq<uint8>)
    requires |b| >= 3 && |t| > 0 && Decode(t) == Some(rest)
    ensures Decode(EncodeGroup(b[0], b[1], b[2]) + t) == Some(b[..3] + rest)
  {
    var g := EncodeGroup(b[0], b[1], b[2]);
    DecodeEncodeGroup(b[0], b[1], b[2]);
    assert b[..3] == [b[0], b[1], b[2]];
    var s := g + t;
    assert s[..4] == g && s[4..] == t;
  }

  /** Decoding undoes encoding: the attachment holds exactly the bytes it was made from. */
  lemma {:induction false} DecodeEncode(b: seq<uint8>)
    ensures Decode(Encode(b)) == Some(b)
    decreases |b|, 1
  {
    if |b| == 1 {
      DecodeEncodeOne(b);
    } else if |b| == 2 {
      DecodeEncodeTwo(b);
    } else if |b| == 3 {
      DecodeEncodeThree(b);
    } else if |b| > 3 {
      DecodeEncodeLong(b);
    }
  }

  lemma {:induction false} DecodeEncodeLong(b: seq<uint8>)
    requires |b| > 3
    ensures Decode(Encode(b)) == Some(b)
    decreases |b|, 0
  {
    EncodeSplit(b);
    DecodeEncode(b[3..]);
    DecodeGroupThen(b, Encode(b[3..]), b[3..]);
    assert b[..3] + b[3..] == b;
  }

  /** Joining a high part and a low part below `k` splits back into the two parts. */
  lemma JoinSplit(hi: int, lo: int, k: int)
    requires 0 <= hi && 0 <= lo < k && k in {4, 16, 64}
    ensures (hi * k + lo) / k == hi && (hi * k + lo) % k == lo
  {
    if k == 4 {
      assert (hi * 4 + lo) / 4 == hi && (hi * 4 + lo) % 4 == lo;
    } else if k == 16 {
      assert (hi * 16 + lo) / 16 == hi && (hi * 16 + lo) % 16 == lo;
    } else {
      assert (hi * 64 + lo) / 64 == hi && (hi * 64 + lo) % 64 == lo;
    }
  }

  /** The three octets assembled from four 6-bit values split back into those values. */
  lemma RegroupDigits(x0: int, x1: int, x2: int, x3: int)
    requires 0 <= x0 < 64 && 0 <= x1 < 64 && 0 <= x2 < 64 && 0 <= x3 < 64
    ensures (x0 * 4 + x1 / 16) / 4 == x0
    ensures ((x0 * 4 + x1 / 16) % 4) * 16 + ((x1 % 16) * 16 + x2 / 4) / 16 == x1
    ensures (((x1 % 16) * 16 + x2 / 4) % 16) * 4 + ((x2 % 4) * 64 + x3) / 64 == x2
    ensures ((x2 % 4) * 64 + x3) % 64 == x3
  {
    JoinSplit(x0, x1 / 16, 4);
    JoinSplit(x1 % 16, x2 / 4, 16);
    JoinSplit(x2 % 4, x3, 64);
  }

  /** The octets assembled from four 6-bit values encode as those values' characters. */
  lemma EncodeRegrouped(x0: int, x1: int, x2: int, x3: int)
    requires 0 <= x0 < 64 && 0 <= x1 < 64 && 0 <= x2 < 64 && 0 <= x3 < 64
    ensures var a, b, c := x0 * 4 + x1 / 16, (x1 % 16) * 16 + x2 / 4, (x2 % 4) * 64 + x3;
      0 <= a < 256 && 0 <= b < 256 && 0 <= c < 256
      && EncodeGroup(a, b, c) == [Digit(x0), Digit(x1), Digit(x2), Digit(x3)]
  {
    RegroupDigits(x0, x1, x2, x3);
  }

  /** Four alphabet characters are the encoding of the three octets they decode to. */
  lemma EncodeDecodeGroup(c0: char, c1: char, c2: char, c3: char)
    requires IsDigit(c0) && IsDigit(c1) && IsDigit(c2) && IsDigit(c3)
    ensures var x0, x1, x2, x3: int := ValueOf(c0), ValueOf(c1), ValueOf(c2), ValueOf(c3);
      var a, b, c := x0 * 4 + x1 / 16, (x1 % 16) * 16 + x2 / 4, (x2 % 4) * 64 + x3;
      && 0 <= a < 256 && 0 <= b < 256 && 0 <= c < 256
      && DecodeGroup(c0, c1, c2, c3) == [a, b, c]
      && EncodeGroup(a, b, c) == [c0, c1, c2, c3]
  {
    EncodeRegrouped(ValueOf(c0), ValueOf(c1), ValueOf(c2), ValueOf(c3));
  }

  /** The octet assembled from two 6-bit values, the second with four zero low bits, encodes as those values and "==". */
  lemma EncodeOneDigit(x0: index, x1: index)
    requires x1 % 16 == 0
    ensures var a := x0 * 4 + x1 / 16;
      0 <= a < 256 && Encode([a]) == [Digit(x0), Digit(x1), Pad, Pad]
  {
    var a := x0 * 4 + x1 / 16;
    JoinSplit(x0, x1 / 16, 4);
    assert Encode([a]) == [Digit(a / 4), Digit((a % 4) * 16), Pad, Pad];
  }

  /** A final group padded with "==" is the encoding of the octet it decodes to. */
  lemma EncodeDecodeSingle(q: string)
    requires |q| == 4 && IsDigit(q[0]) && IsDigit(q[1]) && q[2] == Pad && q[3] == Pad
    requires DecodeFinal(q).Some?
    ensures Encode(DecodeFinal(q).value) == q
  {
    var x0, x1 := ValueOf(q[0]), ValueOf(q[1]);
    assert q == [Digit(x0), Digit(x1), Pad, Pad];
    assert DecodeFinal(q).value == [x0 as int * 4 + x1 / 16];
    EncodeOneDigit(x0, x1);
  }

  /** Two octets assembled from three 6-bit values, the last with two zero low bits, encode as those values and "=". */
  lemma EncodeTwoDigits(x0: index, x1: index, x2: index)
    requires x2 % 4 == 0
    ensures var a, b := x0 * 4 + x1 / 16, (x1 % 16) * 16 + x2 / 4;
      0 <= a < 256 && 0 <= b < 256 && Encode([a, b]) == [Digit(x0), Digit(x1), Digit(x2), Pad]
  {
    var a, b := x0 * 4 + x1 / 16, (x1 % 16) * 16 + x2 / 4;
    RegroupDigits(x0, x1, x2, 0);
    assert (b % 16) * 4 == x2;
    assert Encode([a, b]) == [Digit(a / 4), Digit((a % 4) * 16 + b / 16), Digit((b % 16) * 4), Pad];
  }

  /** A final group padded with "=" is the encoding of the two octets it decodes to. */
  lemma EncodeDecodePair(q: string)
    requires |q| == 4 && IsDigit(q[0]) && IsDigit(q[1]) && IsDigit(q[2]) && q[3] == Pad
    requires DecodeFinal(q).Some?
    ensures Encode(DecodeFinal(q).value) == q
  {
    var x0, x1, x2 := ValueOf(q[0]), ValueOf(q[1]), ValueOf(q[2]);
    assert q == [Digit(x0), Digit(x1), Digit(x2), Pad];
    assert DecodeFinal(q).value == [x0 as int * 4 + x1 / 16, (x1 as int % 16) * 16 + x2 / 4];
    EncodeTwoDigits(x0, x1, x2);
  }

  /** Three octets in front of `rest` encode as their group followed by the encoding of `rest`. */
  lemma EncodeCons(a: uint8, b: uint8, c: uint8, rest: seq<uint8>)
    ensures Encode([a, b, c] + rest) == EncodeGroup(a, b, c) + Encode(rest)
  {
    var s := [a, b, c] + rest;
    assert s[0] == a && s[1] == b && s[2] == c && s[3..] == rest;
  }

  /** The octets a full group decodes to, named. */
  lemma GroupOctets(q: string) returns (a: uint8, b: uint8, c: uint8)
    requires |q| == 4 && IsDigit(q[0]) && IsDigit(q[1]) && IsDigit(q[2]) && IsDigit(q[3])
    ensures DecodeGroup(q[0], q[1], q[2], q[3]) == [a, b, c] && EncodeGroup(a, b, c) == q
  {
    assert q == [q[0], q[1], q[2], q[3]];
    var x0, x1, x2, x3: int := ValueOf(q[0]), ValueOf(q[1]), ValueOf(q[2]), ValueOf(q[3]);
    EncodeDecodeGroup(q[0], q[1], q[2], q[3]);
    a, b, c := x0 * 4 + x1 / 16, (x1 % 16) * 16 + x2 / 4, (x2 % 4) * 64 + x3;
  }

  /** A final group without padding is the encoding of the three octets it decodes to. */
  lemma EncodeDecodeTriple(q: string)
    requires |q| == 4 && IsDigit(q[0]) && IsDigit(q[1]) && IsDigit(q[2]) && IsDigit(q[3])
    ensures Encode(DecodeFinal(q).value) == q
  {
    var a, b, c := GroupOctets(q);
    assert DecodeFinal(q).value == [a, b, c] == [a, b, c] + [];
    EncodeCons(a, b, c, []);
  }

  lemma EncodeDecodeFinal(q: string)
    requires |q| == 4 && DecodeFinal(q).Some?
    ensures Encode(DecodeFinal(q).value) == q
  {
    if q[2] == Pad && q[3] == Pad {
      EncodeDecodeSingle(q);
    } else if q[3] == Pad {
      EncodeDecodePair(q);
    } else {
      EncodeDecodeTriple(q);
    }
  }

  /** A full group decoded in front of `rest` encodes back to the group followed by the encoding of `rest`. */
  lemma EncodeDecodeThen(q: string, rest: seq<uint8>)
    requires |q| == 4 && IsDigit(q[0]) && IsDigit(q[1]) && IsDigit(q[2]) && IsDigit(q[3])
    ensures Encode(DecodeGroup(q[0], q[1], q[2], q[3]) + rest) == q + Encode(rest)
  {
    var a, b, c := GroupOctets(q);
    EncodeCons(a, b, c, rest);
  }

  /** Whatever decodes is the encoding of what it decodes to: padded base 64 has no second spelling. */
  lemma {:induction false} EncodeDecode(s: string)
    ensures Decode(s).Some? ==> Encode(Decode(s).value) == s
    decreases |s|
  {
    if |s| == 4 && Decode(s).Some? {
      EncodeDecodeFinal(s);
    } else if |s| > 4 && Decode(s).Some? {
      var t := s[4..];
      EncodeDecode(t);
      var rest := Decode(t).value;
      assert Decode(s).value == DecodeGroup(s[0], s[1], s[2], s[3]) + rest;
      EncodeDecodeThen(s[..4], rest);
      assert s[..4] + t == s;
    }
  }

  /** Decoding to `b` and being the encoding of `b` are the same thing. */
  lemma DecodeIff(s: string, b: seq<uint8>)
    ensures Decode(s) == Some(b) <==> Encode(b) == s
  {
    EncodeDecode(s);
    DecodeEncode(b);
  }
}
