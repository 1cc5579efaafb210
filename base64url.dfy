/**
 * Base64 with the URL- and filename-safe alphabet of section 5 of RFC 4648
 * ("A"-"Z", "a"-"z", "0"-"9", "-", "_") and "=" padding, as Python's
 * base64.urlsafe_b64encode / urlsafe_b64decode use it.
 *
 * The decoder here is strict where Python's is lenient: "+" or "/", any
 * other character outside the alphabet, or padding anywhere but the end of
 * the last quartet makes it fail.  Python reads "+" and "/" as 62 and 63,
 * skips other characters outside the alphabet, and stops at the first
 * padding that completes a quartet.
 * Like Python, it ignores the unused low bits of a padded final quartet.
 */
module Base64Url {
  import opened Wrappers

  type byte = x: int | 0 <= x < 256

  const Pad: char := '='

  /** The character that stands for a 6-bit value (the table in section 5
      of RFC 4648). */
  function SextetChar(v: int): (c: char)
    requires 0 <= v < 64
    ensures v < 26 <==> 'A' <= c <= 'Z'
    ensures 26 <= v < 52 <==> 'a' <= c <= 'z'
    ensures 52 <= v < 62 <==> '0' <= c <= '9'
    ensures v == 62 <==> c == '-'
    ensures v == 63 <==> c == '_'
    ensures c != Pad
  {
    if v < 26 then ('A' as int + v) as char
    else if v < 52 then ('a' as int + (v - 26)) as char
    else if v < 62 then ('0' as int + (v - 52)) as char
    else if v == 62 then '-'
    else '_'
  }

  /** The 6-bit value a character stands for, if it is in the alphabet. */
  function SextetValue(c: char): (r: Option<int>)
    ensures r.Some? ==> 0 <= r.value < 64 && SextetChar(r.value) == c
  {
    if 'A' <= c <= 'Z' then Some(c as int - 'A' as int)
    else if 'a' <= c <= 'z' then Some(c as int - 'a' as int + 26)
    else if '0' <= c <= '9' then Some(c as int - '0' as int + 52)
    else if c == '-' then Some(62)
    else if c == '_' then Some(63)
    else None
  }

  lemma SextetRoundTrip(v: int)
    requires 0 <= v < 64
    ensures SextetValue(SextetChar(v)) == Some(v)
  {
  }

  predicate InAlphabet(c: char) {
    SextetValue(c).Some?
  }

  /** Three bytes as four characters. */
  function EncodeTriple(x: byte, y: byte, z: byte): (q: string)
    ensures |q| == 4 && forall i :: 0 <= i < 4 ==> InAlphabet(q[i])
  {
    SextetRoundTrip(x / 4);
    SextetRoundTrip(x % 4 * 16 + y / 16);
    SextetRoundTrip(y % 16 * 4 + z / 64);
    SextetRoundTrip(z % 64);
    [SextetChar(x / 4), SextetChar(x % 4 * 16 + y / 16), SextetChar(y % 16 * 4 + z / 64), SextetChar(z % 64)]
  }

  /** The last one or two bytes as a padded quartet. */
  function EncodeTail(b: seq<byte>): (q: string)
    requires 1 <= |b| <= 2
    ensures |q| == 4 && q[3] == Pad && (|b| == 1 ==> q[2] == Pad)
    ensures InAlphabet(q[0]) && InAlphabet(q[1]) && (|b| == 2 ==> InAlphabet(q[2]))
  {
    SextetRoundTrip(b[0] / 4);
    if |b| == 1 then
      SextetRoundTrip(b[0] % 4 * 16);
      [SextetChar(b[0] / 4), SextetChar(b[0] % 4 * 16), Pad, Pad]
    else
      SextetRoundTrip(b[0] % 4 * 16 + b[1] / 16);
      SextetRoundTrip(b[1] % 16 * 4);
      [SextetChar(b[0] / 4), SextetChar(b[0] % 4 * 16 + b[1] / 16), SextetChar(b[1] % 16 * 4), Pad]
  }

  /** The number of "=" characters Encode appends for n input bytes. */
  function PadCount(n: nat): nat {
    if n % 3 == 0 then 0 else 3 - n % 3
  }

  /** base64.urlsafe_b64encode. */
  function Encode(b: seq<byte>): (s: string)
    ensures |s| == 4 * ((|b| + 2) / 3) && |s| % 4 == 0
  {
    if |b| == 0 then []
    else if |b| <= 2 then EncodeTail(b)
    else EncodeTriple(b[0], b[1], b[2]) + Encode(b[3..])
  }

  /** s ends in p padding characters and has only alphabet characters
      before them. */
  predicate PaddedWith(s: string, p: nat) {
    && p <= |s|
    && (forall i :: 0 <= i < |s| - p ==> InAlphabet(s[i]))
    && (forall i :: 0 <= i < |s| && |s| - p <= i ==> s[i] == Pad)
  }

  /** A full quartet in front keeps the padding at the end. */
  lemma PrependQuartet(q: string, rest: string, p: nat)
    requires |q| == 4 && InAlphabet(q[0]) && InAlphabet(q[1]) && InAlphabet(q[2]) && InAlphabet(q[3])
    requires PaddedWith(rest, p)
    ensures PaddedWith(q + rest, p)
  {
    forall i | 0 <= i < |q + rest| - p ensures InAlphabet((q + rest)[i]) {
      if i >= 4 {
        assert (q + rest)[i] == rest[i - 4];
      }
    }
  }

  /** Three more bytes need no more padding. */
  lemma PadCountStep(n: nat)
    ensures PadCount(n + 3) == PadCount(n)
  {
    assert (n + 3) % 3 == n % 3;
  }

  /** The output is alphabet characters followed by as many padding
      characters as the last group of bytes calls for. */
  lemma {:induction false} EncodeShape(b: seq<byte>)
    ensures PaddedWith(Encode(b), PadCount(|b|))
  {
    if |b| > 2 {
      EncodeShape(b[3..]);
      assert Encode(b) == EncodeTriple(b[0], b[1], b[2]) + Encode(b[3..]);
      PadCountStep(|b[3..]|);
      PrependQuartet(EncodeTriple(b[0], b[1], b[2]), Encode(b[3..]), PadCount(|b|));
    } else if |b| > 0 {
      assert Encode(b) == EncodeTail(b);
      assert PadCount(|b|) == 3 - |b|;
    }
  }


  /** A quartet of four alphabet characters as three bytes. */
  function DecodeQuartet(q: string): (r: Option<seq<byte>>)
    requires |q| == 4
    ensures r.Some? ==> |r.value| == 3
  {
    match (SextetValue(q[0]), SextetValue(q[1]), SextetValue(q[2]), SextetValue(q[3]))
    case (Some(a), Some(b), Some(c), Some(d)) =>
      Some([a * 4 + b / 16, b % 16 * 16 + c / 4, c % 4 * 64 + d])
    case _ => None
  }

  /** The last quartet, which may end in "==" (one byte) or "=" (two bytes). */
  function DecodeLastQuartet(q: string): (r: Option<seq<byte>>)
    requires |q| == 4
    ensures r.Some? ==> 1 <= |r.value| <= 3
  {
    if q[2] == Pad && q[3] == Pad then
      match (SextetValue(q[0]), SextetValue(q[1]))
      case (Some(a), Some(b)) => Some([a * 4 + b / 16])
      case _ => None
    else if q[3] == Pad then
      match (SextetValue(q[0]), SextetValue(q[1]), SextetValue(q[2]))
      case (Some(a), Some(b), Some(c)) => Some([a * 4 + b / 16, b % 16 * 16 + c / 4])
      case _ => None
    else DecodeQuartet(q)
  }

  /** base64.urlsafe_b64decode, strict (see the module comment). */
  function Decode(s: string): (r: Option<seq<byte>>)
    ensures r.Some? ==> |s| % 4 == 0 && |r.value| <= |s| / 4 * 3
    decreases |s|
  {
    if |s| == 0 then Some([])
    else if |s| < 4 then None
    else if |s| == 4 then DecodeLastQuartet(s)
    else match (DecodeQuartet(s[..4]), Decode(s[4..]))
      case (Some(head), Some(rest)) => Some(head + rest)
      case _ => None
  }

  lemma TripleRoundTrip(x: byte, y: byte, z: byte)
    ensures DecodeQuartet(EncodeTriple(x, y, z)) == Some([x, y, z])
    ensures DecodeLastQuartet(EncodeTriple(x, y, z)) == Some([x, y, z])
  {
    var a, b, c, d := x / 4, x % 4 * 16 + y / 16, y % 16 * 4 + z / 64, z % 64;
    SextetRoundTrip(a);
    SextetRoundTrip(b);
    SextetRoundTrip(c);
    SextetRoundTrip(d);
    var q := EncodeTriple(x, y, z);
    assert SextetValue(q[0]) == Some(a) && SextetValue(q[1]) == Some(b);
    assert SextetValue(q[2]) == Some(c) && SextetValue(q[3]) == Some(d);
    assert a * 4 + b / 16 == x && b % 16 * 16 + c / 4 == y && c % 4 * 64 + d == z;
  }

  lemma TailRoundTrip(b: seq<byte>)
    requires 1 <= |b| <= 2
    ensures DecodeLastQuartet(EncodeTail(b)) == Some(b)
  {
    if |b| == 1 {
      OneByteRoundTrip(b[0]);
      assert [b[0]] == b;
    } else {
      TwoBytesRoundTrip(b[0], b[1]);
      assert [b[0], b[1]] == b;
    }
  }

  lemma OneByteRoundTrip(x: byte)
    ensures DecodeLastQuartet(EncodeTail([x])) == Some([x])
  {
    var a, b := x / 4, x % 4 * 16;
    SextetRoundTrip(a);
    SextetRoundTrip(b);
    var q := EncodeTail([x]);
    assert q == [SextetChar(a), SextetChar(b), Pad, Pad];
    assert a * 4 + b / 16 == x;
  }

  lemma TwoBytesRoundTrip(x: byte, y: byte)
    ensures DecodeLastQuartet(EncodeTail([x, y])) == Some([x, y])
  {
    var a, b, c := x / 4, x % 4 * 16 + y / 16, y % 16 * 4;
    SextetRoundTrip(a);
    SextetRoundTrip(b);
    SextetRoundTrip(c);
    var q := EncodeTail([x, y]);
    assert q == [SextetChar(a), SextetChar(b), SextetChar(c), Pad];
    assert SextetChar(c) != Pad;
    assert a * 4 + b / 16 == x && b % 16 * 16 + c / 4 == y;
  }


  /** A full quartet in front of a non-empty decodable rest. */
  lemma DecodeCons(q: string, rest: string)
    requires |q| == 4 && DecodeQuartet(q).Some? && rest != [] && Decode(rest).Some?
    ensures Decode(q + rest) == Some(DecodeQuartet(q).value + Decode(rest).value)
  {
    var s := q + rest;
    assert s[..4] == q && s[4..] == rest;
  }

  /** Encode peels off the first three bytes. */
  lemma EncodeUnfold(b: seq<byte>)
    requires |b| >= 3
    ensures Encode(b) == EncodeTriple(b[0], b[1], b[2]) + Encode(b[3..])
    ensures |b| == 3 ==> Encode(b) == EncodeTriple(b[0], b[1], b[2])
  {
    if |b| == 3 {
      assert Encode(b[3..]) == [];
    }
  }

  lemma SplitThree(b: seq<byte>)
    requires |b| >= 3
    ensures b == [b[0], b[1], b[2]] + b[3..]
  {
  }

  /** Decoding undoes encoding, for every byte sequence. */
  lemma {:induction false} DecodeEncode(b: seq<byte>)
    ensures Decode(Encode(b)) == Some(b)
  {
    if |b| == 0 {
    } else if |b| <= 2 {
      TailRoundTrip(b);
    } else {
      EncodeUnfold(b);
      TripleRoundTrip(b[0], b[1], b[2]);
      SplitThree(b);
      if |b| > 3 {
        var h, r := EncodeTriple(b[0], b[1], b[2]), Encode(b[3..]);
        DecodeEncode(b[3..]);
        assert |r| > 0;
        DecodeCons(h, r);
        var front: seq<byte> := [b[0], b[1], b[2]];
        assert Decode(h + r) == Some(front + b[3..]);
        assert front + b[3..] == b;
      } else {
        var front: seq<byte> := [b[0], b[1], b[2]];
        assert front == b;
      }
    }
  }

  /** Every character Encode produces is in the alphabet or is "=". */
  lemma EncodeIsUrlSafe(b: seq<byte>)
    ensures forall i :: 0 <= i < |Encode(b)| ==> InAlphabet(Encode(b)[i]) || Encode(b)[i] == Pad
  {
    EncodeShape(b);
  }

  /** Encode produces the empty string exactly for the empty input. */
  lemma EncodeEmptyIff(b: seq<byte>)
    ensures Encode(b) == [] <==> b == []
  {
  }
}
