/** What decoding as UTF-8 accepts: the encodings of sequences of code points. */
module Utf8 {
  import opened Bytes

  /** The code points that UTF-8 encodes: all but the surrogates. */
  predicate Scalar(n: int) {
    0 <= n < 0xD800 || 0xE000 <= n < 0x110000
  }

  /** Six bits in each byte but the first. */
  function EncodePoint(n: int): (r: seq<Byte>)
    requires Scalar(n)
    ensures r != []
  {
    if n < 0x80 then [n]
    else if n < 0x800 then [0xC0 + n / 0x40, 0x80 + n % 0x40]
    else if n < 0x10000 then [0xE0 + n / 0x1000, 0x80 + n / 0x40 % 0x40, 0x80 + n % 0x40]
    else [0xF0 + n / 0x40000, 0x80 + n / 0x1000 % 0x40, 0x80 + n / 0x40 % 0x40, 0x80 + n % 0x40]
  }

  function EncodeAll(points: seq<int>): seq<Byte>
    requires forall i | 0 <= i < |points| :: Scalar(points[i])
  {
    if points == [] then [] else EncodePoint(points[0]) + EncodeAll(points[1..])
  }

  /** The code point whose encoding stands at the front. */
  function FrontPoint(s: seq<Byte>): int
    requires s != []
  {
    match Utf8Length(s)
    case 1 => s[0]
    case 2 => FromTwo(s[0], s[1])
    case 3 => FromThree(s[0], s[1], s[2])
    case 4 => FromFour(s[0], s[1], s[2], s[3])
    case _ => -1
  }

  function FromTwo(a: int, b: int): int { (a - 0xC0) * 0x40 + (b - 0x80) }

  function FromThree(a: int, b: int, c: int): int { (a - 0xE0) * 0x1000 + (b - 0x80) * 0x40 + (c - 0x80) }

  function FromFour(a: int, b: int, c: int, d: int): int {
    (a - 0xF0) * 0x40000 + (b - 0x80) * 0x1000 + (c - 0x80) * 0x40 + (d - 0x80)
  }

  lemma TwoBytes(a: int, b: int)
    requires 0xC2 <= a <= 0xDF && 0x80 <= b <= 0xBF
    ensures var n := FromTwo(a, b); 0x80 <= n < 0x800 && 0xC0 + n / 0x40 == a && 0x80 + n % 0x40 == b
  {
  }

  lemma ThreeBytes(a: int, b: int, c: int)
    requires 0xE0 <= a <= 0xEF && 0x80 <= b <= 0xBF && 0x80 <= c <= 0xBF
    requires (a == 0xE0 ==> 0xA0 <= b) && (a == 0xED ==> b <= 0x9F)
    ensures var n := FromThree(a, b, c);
            && 0x800 <= n < 0x10000 && Scalar(n)
            && 0xE0 + n / 0x1000 == a && 0x80 + n / 0x40 % 0x40 == b && 0x80 + n % 0x40 == c
  {
    assert FromThree(a, b, c) / 0x40 == (a - 0xE0) * 0x40 + (b - 0x80);
  }

  lemma FourBytes(a: int, b: int, c: int, d: int)
    requires 0xF0 <= a <= 0xF4 && 0x80 <= b <= 0xBF && 0x80 <= c <= 0xBF && 0x80 <= d <= 0xBF
    requires (a == 0xF0 ==> 0x90 <= b) && (a == 0xF4 ==> b <= 0x8F)
    ensures var n := FromFour(a, b, c, d);
            && 0x10000 <= n < 0x110000
            && 0xF0 + n / 0x40000 == a && 0x80 + n / 0x1000 % 0x40 == b
            && 0x80 + n / 0x40 % 0x40 == c && 0x80 + n % 0x40 == d
  {
    assert FromFour(a, b, c, d) / 0x40 == (a - 0xF0) * 0x1000 + (b - 0x80) * 0x40 + (c - 0x80);
    assert FromFour(a, b, c, d) / 0x1000 == (a - 0xF0) * 0x40 + (b - 0x80);
  }

  lemma FrontEncoded(s: seq<Byte>)
    requires s != [] && Utf8Length(s) > 0
    ensures Scalar(FrontPoint(s)) && EncodePoint(FrontPoint(s)) == s[..Utf8Length(s)]
  {
    hide FromTwo, FromThree, FromFour;
    var k := Utf8Length(s);
    if k == 1 {
      assert s[..1] == [s[0]];
    } else if k == 2 {
      TwoBytes(s[0], s[1]);
      assert s[..2] == [s[0], s[1]];
    } else if k == 3 {
      ThreeBytes(s[0], s[1], s[2]);
      assert s[..3] == [s[0], s[1], s[2]];
    } else {
      FourBytes(s[0], s[1], s[2], s[3]);
      assert s[..4] == [s[0], s[1], s[2], s[3]];
    }
  }

  lemma EncodedFront(n: int, rest: seq<Byte>)
    requires Scalar(n)
    ensures Utf8Length(EncodePoint(n) + rest) == |EncodePoint(n)|
  {
  }

  /** Decoding succeeds exactly for the encodings of sequences of code points. */
  lemma {:induction false} Utf8Exactly(s: seq<Byte>)
    ensures IsUtf8(s)
            <==> exists points: seq<int> |
                   (forall i | 0 <= i < |points| :: Scalar(points[i])) :: s == EncodeAll(points)
  {
    if IsUtf8(s) {
      var points := PointsOf(s);
    }
    if points: seq<int> :| (forall i | 0 <= i < |points| :: Scalar(points[i])) && s == EncodeAll(points) {
      EncodedIsUtf8(points);
    }
  }

  lemma {:induction false} PointsOf(s: seq<Byte>) returns (points: seq<int>)
    requires IsUtf8(s)
    ensures (forall i | 0 <= i < |points| :: Scalar(points[i])) && s == EncodeAll(points)
    decreases |s|
  {
    points := [];
    if s != [] {
      var k := Utf8Length(s);
      FrontEncoded(s);
      var rest := PointsOf(s[k..]);
      points := [FrontPoint(s)] + rest;
      assert points[1..] == rest && s == s[..k] + s[k..];
    }
  }

  lemma {:induction false} EncodedIsUtf8(points: seq<int>)
    requires forall i | 0 <= i < |points| :: Scalar(points[i])
    ensures IsUtf8(EncodeAll(points))
  {
    if points != [] {
      var first, rest := EncodePoint(points[0]), EncodeAll(points[1..]);
      EncodedIsUtf8(points[1..]);
      EncodedFront(points[0], rest);
      assert (first + rest)[|first|..] == rest;
    }
  }
}
