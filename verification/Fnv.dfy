/**
  The 8-way unrolled 64-bit FNV-1a hash. The unrolled part goes byte by byte; what is left over (fewer
  than eight bytes) is ranged over as a Go string, that is, rune by rune after UTF-8 decoding.
 */
module Fnv {

  const OFFSET64: bv64 := 14695981039346656037
  const RUNE_ERROR: bv64 := 0xFFFD

  /** One FNV-1a round, modulo 2^64, with the 64-bit FNV prime. */
  function Mix(h: bv64, c: bv64): bv64 {
    (h ^ c) * 1099511628211
  }

  function Widen(b: bv8): bv64 {
    b as bv64
  }

  function Fold(h: bv64, units: seq<bv64>): bv64
    decreases |units|
  {
    if units == [] then h else Fold(Mix(h, units[0]), units[1..])
  }

  function Bytes(s: seq<bv8>): (r: seq<bv64>)
    ensures |r| == |s|
  {
    seq(|s|, i requires 0 <= i < |s| => Widen(s[i]))
  }

  /** FNV-1a as section 2 of draft-eastlake-fnv defines it. */
  function Fnv1a(s: seq<bv8>): bv64 {
    if s == [] then 14695981039346656037
    else Mix(Fnv1a(s[..|s| - 1]), Widen(s[|s| - 1]))
  }

  // ---------------------------------------------------------------- ranging over a string

  predicate Continuation(b: bv8) {
    0x80 <= b <= 0xBF
  }

  /** The bytes a leading byte b admits in second place. */
  predicate SecondOk(b: bv8, second: bv8) {
    if b == 0xE0 then 0xA0 <= second <= 0xBF
    else if b == 0xED then 0x80 <= second <= 0x9F
    else if b == 0xF0 then 0x90 <= second <= 0xBF
    else if b == 0xF4 then 0x80 <= second <= 0x8F
    else Continuation(second)
  }

  function Low6(b: bv8): bv64 {
    Widen(b & 0x3F)
  }

  /** Six more bits at the low end. */
  function Join(high: bv64, low: bv64): bv64 {
    (high << 6) | low
  }

  /** The first rune of s and the number of bytes it takes. */
  function DecodeRune(s: seq<bv8>): (r: (bv64, nat))
    requires s != []
    ensures 1 <= r.1 <= |s|
    ensures s[0] < 0x80 ==> r == (Widen(s[0]), 1)
  {
    var b := s[0];
    if b < 0x80 then (Widen(b), 1)
    else if 0xC2 <= b <= 0xDF && |s| >= 2 && SecondOk(b, s[1]) then
      (Join(Widen(b & 0x1F), Low6(s[1])), 2)
    else if 0xE0 <= b <= 0xEF && |s| >= 3 && SecondOk(b, s[1]) && Continuation(s[2]) then
      (Join(Join(Widen(b & 0x0F), Low6(s[1])), Low6(s[2])), 3)
    else if 0xF0 <= b <= 0xF4 && |s| >= 4 && SecondOk(b, s[1]) && Continuation(s[2]) && Continuation(s[3]) then
      (Join(Join(Join(Widen(b & 0x07), Low6(s[1])), Low6(s[2])), Low6(s[3])), 4)
    else (RUNE_ERROR, 1)
  }

  // ---------------------------------------------------------------- UTF-8, the other way

  /** The Unicode scalar values, which are what UTF-8 encodes. */
  predicate Scalar(r: bv64) {
    r < 0xD800 || 0xE000 <= r <= 0x10FFFF
  }

  /** A byte of marker bits and bits of a rune. */
  function Unit(mark: bv8, x: bv64): bv8
    requires x < 0x80
  {
    mark | (x as bv8)
  }

  function High(r: bv64): bv64 {
    r >> 6
  }

  function Low(r: bv64): (x: bv64)
    ensures x < 0x40
  {
    r & 0x3F
  }

  /** UTF-8 as section 3 of RFC 3629 defines it: six bits of the rune in every byte but the first. */
  function EncodeRune(r: bv64): seq<bv8>
    requires Scalar(r)
  {
    Shifted(r);
    if r < 0x80 then [Unit(0, r)]
    else if r < 0x800 then [Unit(0xC0, High(r)), Unit(0x80, Low(r))]
    else if r < 0x1_0000 then [Unit(0xE0, High(High(r))), Unit(0x80, Low(High(r))), Unit(0x80, Low(r))]
    else [Unit(0xF0, High(High(High(r)))), Unit(0x80, Low(High(High(r)))), Unit(0x80, Low(High(r))), Unit(0x80, Low(r))]
  }

  /** The ranges of what is left of a rune after one, two and three shifts. */
  lemma Shifted(r: bv64)
    requires Scalar(r)
    ensures 0x80 <= r < 0x800 ==> 2 <= High(r) < 0x20
    ensures 0x800 <= r < 0x1_0000 ==> 0x20 <= High(r) < 0x400 && !(0x360 <= High(r) < 0x380) && High(High(r)) < 0x10
    ensures 0x1_0000 <= r ==> 0x10 <= High(High(r)) < 0x110 && High(High(High(r))) <= 4
  {
  }

  lemma SplitRune(r: bv64)
    ensures Join(High(r), Low(r)) == r
  {
  }

  lemma JoinParts(high: bv64, low: bv64)
    requires high < 0x1_0000 && low < 0x40
    ensures High(Join(high, low)) == high && Low(Join(high, low)) == low
  {
  }

  lemma JoinRange(high: bv64, low: bv64)
    requires high < 0x1_0000 && low < 0x40
    ensures 2 <= high < 0x20 ==> 0x80 <= Join(high, low) < 0x800
    ensures 0x20 <= high < 0x400 ==> 0x800 <= Join(high, low) < 0x1_0000
    ensures high < 0x360 || 0x380 <= high < 0x400 ==> Join(high, low) < 0xD800 || 0xE000 <= Join(high, low)
    ensures 0x10 <= high < 0x110 ==> 0x400 <= Join(high, low) < 0x4400
    ensures 0x400 <= high < 0x4400 ==> 0x1_0000 <= Join(high, low) <= 0x10FFFF
  {
  }

  lemma ContinuationIs(x: bv64)
    requires x < 0x40
    ensures Continuation(Unit(0x80, x)) && Low6(Unit(0x80, x)) == x
  {
  }

  lemma ContinuationHas(b: bv8)
    requires Continuation(b)
    ensures Low6(b) < 0x40 && Unit(0x80, Low6(b)) == b
  {
  }

  lemma SecondContinues(a: bv8, b: bv8)
    requires SecondOk(a, b)
    ensures Continuation(b)
  {
  }

  /** The leading byte and the second byte, from the bits they hold. */
  lemma LeadTwo(x: bv64, second: bv8)
    requires 2 <= x < 0x20 && Continuation(second)
    ensures var a := Unit(0xC0, x);
            0xC2 <= a <= 0xDF && SecondOk(a, second) && Widen(a & 0x1F) == x
  {
  }

  lemma LeadThree(x: bv64)
    requires 0x20 <= x < 0x400 && !(0x360 <= x < 0x380)
    ensures High(x) < 0x10
    ensures var a := Unit(0xE0, High(x));
            0xE0 <= a <= 0xEF && SecondOk(a, Unit(0x80, Low(x))) && Widen(a & 0x0F) == High(x)
  {
  }

  lemma LeadFour(x: bv64)
    requires 0x10 <= x < 0x110
    ensures High(x) <= 4
    ensures var a := Unit(0xF0, High(x));
            0xF0 <= a <= 0xF4 && SecondOk(a, Unit(0x80, Low(x))) && Widen(a & 0x07) == High(x)
  {
  }

  /** Decoding undoes encoding, whatever follows. */
  lemma DecodeEncoded(r: bv64, tail: seq<bv8>)
    requires Scalar(r)
    ensures DecodeRune(EncodeRune(r) + tail) == (r, |EncodeRune(r)|)
  {
    hide Unit, Low6, SecondOk, Continuation, Join, High, Low;
    Shifted(r);
    SplitRune(r);
    SplitRune(High(r));
    SplitRune(High(High(r)));
    ContinuationIs(Low(r));
    ContinuationIs(Low(High(r)));
    ContinuationIs(Low(High(High(r))));
    if r < 0x80 {
      DecodeOne(r);
    } else if r < 0x800 {
      LeadTwo(High(r), Unit(0x80, Low(r)));
    } else if r < 0x1_0000 {
      LeadThree(High(r));
    } else {
      LeadFour(High(High(r)));
    }
  }

  lemma DecodeOne(r: bv64)
    requires r < 0x80
    ensures Unit(0, r) < 0x80 && Widen(Unit(0, r)) == r
  {
  }

  lemma EncodeOne(a: bv8)
    requires a < 0x80
    ensures Widen(a) < 0x80 && EncodeRune(Widen(a)) == [a]
  {
  }

  lemma LeadOfTwo(a: bv8)
    requires 0xC2 <= a <= 0xDF
    ensures 2 <= Widen(a & 0x1F) < 0x20 && Unit(0xC0, Widen(a & 0x1F)) == a
  {
  }

  lemma LeadOfThree(a: bv8, b: bv8)
    requires 0xE0 <= a <= 0xEF && SecondOk(a, b)
    ensures Widen(a & 0x0F) < 0x10 && Unit(0xE0, Widen(a & 0x0F)) == a
    ensures var x := Join(Widen(a & 0x0F), Low6(b)); 0x20 <= x < 0x400 && !(0x360 <= x < 0x380)
  {
  }

  lemma LeadOfFour(a: bv8, b: bv8)
    requires 0xF0 <= a <= 0xF4 && SecondOk(a, b)
    ensures Widen(a & 0x07) <= 4 && Unit(0xF0, Widen(a & 0x07)) == a
    ensures 0x10 <= Join(Widen(a & 0x07), Low6(b)) < 0x110
  {
  }

  lemma EncodeTwo(a: bv8, b: bv8)
    requires 0xC2 <= a <= 0xDF && SecondOk(a, b)
    ensures var r := Join(Widen(a & 0x1F), Low6(b));
            0x80 <= r < 0x800 && EncodeRune(r) == [a, b]
  {
    SecondContinues(a, b);
    ContinuationHas(b);
    LeadOfTwo(a);
    hide Unit, Low6, SecondOk, Continuation, Join, High, Low;
    JoinParts(Widen(a & 0x1F), Low6(b));
    JoinRange(Widen(a & 0x1F), Low6(b));
  }

  lemma EncodeThree(a: bv8, b: bv8, c: bv8)
    requires 0xE0 <= a <= 0xEF && SecondOk(a, b) && Continuation(c)
    ensures var r := Join(Join(Widen(a & 0x0F), Low6(b)), Low6(c));
            Scalar(r) && EncodeRune(r) == [a, b, c]
  {
    SecondContinues(a, b);
    ContinuationHas(b);
    ContinuationHas(c);
    LeadOfThree(a, b);
    hide Unit, Low6, SecondOk, Continuation, Join, High, Low;
    var x := Join(Widen(a & 0x0F), Low6(b));
    JoinParts(Widen(a & 0x0F), Low6(b));
    JoinParts(x, Low6(c));
    JoinRange(x, Low6(c));
  }

  lemma EncodeFour(a: bv8, b: bv8, c: bv8, d: bv8)
    requires 0xF0 <= a <= 0xF4 && SecondOk(a, b) && Continuation(c) && Continuation(d)
    ensures var r := Join(Join(Join(Widen(a & 0x07), Low6(b)), Low6(c)), Low6(d));
            Scalar(r) && EncodeRune(r) == [a, b, c, d]
  {
    SecondContinues(a, b);
    ContinuationHas(b);
    ContinuationHas(c);
    ContinuationHas(d);
    LeadOfFour(a, b);
    hide Unit, Low6, SecondOk, Continuation, Join, High, Low;
    var x := Join(Widen(a & 0x07), Low6(b));
    var y := Join(x, Low6(c));
    JoinParts(Widen(a & 0x07), Low6(b));
    JoinParts(x, Low6(c));
    JoinRange(x, Low6(c));
    JoinParts(y, Low6(d));
    JoinRange(y, Low6(d));
  }

  /** And encoding undoes decoding, unless the bytes were no UTF-8 and one of them was replaced. */
  lemma EncodeDecoded(s: seq<bv8>)
    requires s != []
    ensures var (r, width) := DecodeRune(s);
            (r == 0xFFFD && width == 1 && s[0] >= 0x80) || (Scalar(r) && EncodeRune(r) == s[..width])
  {
    hide Unit, Low6, SecondOk, Continuation, Join, EncodeRune;
    var a, width := s[0], DecodeRune(s).1;
    if a < 0x80 {
      EncodeOne(a);
    } else if width == 2 {
      EncodeTwo(a, s[1]);
    } else if width == 3 {
      EncodeThree(a, s[1], s[2]);
    } else if width == 4 {
      EncodeFour(a, s[1], s[2], s[3]);
    }
  }

  /** So a byte is replaced if and only if no encoding of a scalar value starts there. */
  lemma ReplacedIff(s: seq<bv8>)
    requires s != []
    ensures DecodeRune(s) == (0xFFFD, 1) <==> !exists r :: Scalar(r) && EncodeRune(r) <= s
  {
    hide DecodeRune, EncodeRune;
    EncodeDecoded(s);
    if r :| Scalar(r) && EncodeRune(r) <= s {
      DecodeEncoded(r, s[|EncodeRune(r)|..]);
      assert EncodeRune(r) + s[|EncodeRune(r)|..] == s;
      ReplacementIsLong(r);
    } else {
      var (r, width) := DecodeRune(s);
      assert s[..width] <= s;
    }
  }

  lemma ReplacementIsLong(r: bv64)
    requires Scalar(r)
    ensures r == 0xFFFD ==> |EncodeRune(r)| == 3
  {
  }

  function Runes(s: seq<bv8>): seq<bv64>
    decreases |s|
  {
    if s == [] then []
    else var (rune, width) := DecodeRune(s); [rune] + Runes(s[width..])
  }

  /** Where the unrolled loop stops. */
  function Unrolled(s: seq<bv8>): (n: nat)
    ensures n <= |s| < n + 8 && n % 8 == 0
  {
    |s| / 8 * 8
  }

  /** What Hash hashes, for every string: bytes, then runes. */
  function Units(s: seq<bv8>): seq<bv64> {
    Bytes(s[..Unrolled(s)]) + Runes(s[Unrolled(s)..])
  }

  predicate Ascii(s: seq<bv8>) {
    forall i :: 0 <= i < |s| ==> s[i] < 0x80
  }

  // ---------------------------------------------------------------- the code

  lemma {:induction false} FoldConcat(h: bv64, a: seq<bv64>, b: seq<bv64>)
    ensures Fold(h, a + b) == Fold(Fold(h, a), b)
    decreases |a|
  {
    if a == [] {
      assert a + b == b;
    } else {
      assert (a + b)[1..] == a[1..] + b;
      FoldConcat(Mix(h, a[0]), a[1..], b);
    }
  }

  lemma FoldOne(h: bv64, c: bv64)
    ensures Fold(h, [c]) == Mix(h, c)
  {
  }

  /** Eight rounds, as unrolled. */
  method Round8(hash: bv64, str: seq<bv8>, offset: nat) returns (r: bv64)
    requires offset + 8 <= |str|
    ensures r == Fold(hash, Bytes(str[offset..offset + 8]))
  {
    ghost var u := Bytes(str[offset..offset + 8]);
    hide Mix;
    assert u == [u[0], u[1], u[2], u[3]] + [u[4], u[5], u[6], u[7]];
    FoldConcat(hash, [u[0], u[1], u[2], u[3]], [u[4], u[5], u[6], u[7]]);
    r := Mix(hash, Widen(str[offset]));
    r := Mix(r, Widen(str[offset + 1]));
    r := Mix(r, Widen(str[offset + 2]));
    r := Mix(r, Widen(str[offset + 3]));
    Fold4(hash, u[0], u[1], u[2], u[3]);
    ghost var half := r;
    r := Mix(r, Widen(str[offset + 4]));
    r := Mix(r, Widen(str[offset + 5]));
    r := Mix(r, Widen(str[offset + 6]));
    r := Mix(r, Widen(str[offset + 7]));
    Fold4(half, u[4], u[5], u[6], u[7]);
  }

  lemma Fold4(h: bv64, a: bv64, b: bv64, c: bv64, d: bv64)
    ensures Fold(h, [a, b, c, d]) == Mix(Mix(Mix(Mix(h, a), b), c), d)
  {
    hide Mix;
    assert [a, b, c, d] == [a, b] + [c, d];
    FoldConcat(h, [a, b], [c, d]);
    assert [a, b][1..] == [b] && [c, d][1..] == [d];
    FoldOne(Mix(h, a), b);
    FoldOne(Mix(Mix(Mix(h, a), b), c), d);
  }

  /** Ranging over the rest of the string. */
  method HashRunes(start: bv64, str: seq<bv8>) returns (hash: bv64)
    ensures hash == Fold(start, Runes(str))
  {
    hide Mix, DecodeRune;
    hash := start;
    var tail := str;
    while tail != []
      invariant Fold(hash, Runes(tail)) == Fold(start, Runes(str))
      decreases |tail|
    {
      var (c, width) := DecodeRune(tail);
      assert ([c] + Runes(tail[width..]))[1..] == Runes(tail[width..]);
      hash := Mix(hash, c);
      tail := tail[width..];
    }
  }

  method Hash(str: seq<bv8>) returns (hash: bv64)
    ensures hash == Fold(OFFSET64, Units(str))
  {
    hide Mix, Runes;
    var n := |str| / 8 * 8;
    var offset := 0;
    hash := OFFSET64;
    while offset < n
      invariant offset <= n && offset % 8 == 0
      invariant hash == Fold(OFFSET64, Bytes(str[..offset]))
    {
      FoldConcat(OFFSET64, Bytes(str[..offset]), Bytes(str[offset..offset + 8]));
      assert Bytes(str[..offset]) + Bytes(str[offset..offset + 8]) == Bytes(str[..offset + 8]);
      hash := Round8(hash, str, offset);
      offset := offset + 8;
    }
    FoldConcat(OFFSET64, Bytes(str[..offset]), Runes(str[offset..]));
    hash := HashRunes(hash, str[offset..]);
  }

  // ---------------------------------------------------------------- what it computes

  lemma {:induction false} AsciiRunes(s: seq<bv8>)
    requires Ascii(s)
    ensures Runes(s) == Bytes(s)
  {
    if s != [] {
      AsciiRunes(s[1..]);
      assert DecodeRune(s) == (Widen(s[0]), 1);
      hide DecodeRune;
      assert Bytes(s) == [Widen(s[0])] + Bytes(s[1..]);
    }
  }

  lemma {:induction false} RunesNoLonger(s: seq<bv8>)
    ensures |Runes(s)| <= |s|
    decreases |s|
  {
    if s != [] {
      var (_, width) := DecodeRune(s);
      RunesNoLonger(s[width..]);
    }
  }

  /** A byte that is not ASCII is never read as itself: it is part of a rune, or replaced. */
  lemma NonAsciiByte(s: seq<bv8>)
    requires s != [] && s[0] >= 0x80
    ensures DecodeRune(s).1 > 1 || DecodeRune(s).0 != Widen(s[0])
  {
  }

  lemma {:induction false} RunesAreBytes(s: seq<bv8>)
    requires Runes(s) == Bytes(s)
    ensures Ascii(s)
    decreases |s|
  {
    if s != [] {
      var (rune, width) := DecodeRune(s);
      RunesNoLonger(s[width..]);
      assert Bytes(s) == [Widen(s[0])] + Bytes(s[1..]);
      assert Runes(s)[0] == rune && Runes(s)[1..] == Runes(s[width..]);
      if s[0] >= 0x80 {
        NonAsciiByte(s);
      }
      hide DecodeRune;
      assert width == 1 && Bytes(s)[1..] == Bytes(s[1..]);
      RunesAreBytes(s[1..]);
    }
  }

  /**
    Hash goes through the rounds of FNV-1a if and only if the bytes after the last full block of eight
    are ASCII; otherwise it mixes in something else than the bytes.
   */
  lemma SameRoundsIff(s: seq<bv8>)
    ensures Units(s) == Bytes(s) <==> Ascii(s[Unrolled(s)..])
  {
    var n := Unrolled(s);
    assert Bytes(s) == Bytes(s[..n]) + Bytes(s[n..]);
    if Ascii(s[n..]) {
      AsciiRunes(s[n..]);
    }
    if Units(s) == Bytes(s) {
      assert Runes(s[n..]) == Units(s)[n..] == Bytes(s)[n..] == Bytes(s[n..]);
      RunesAreBytes(s[n..]);
    }
  }

  /** Rounds over the bytes from the left are FNV-1a, byte after byte. */
  lemma {:induction false} FoldIsFnv1a(s: seq<bv8>)
    ensures Fold(OFFSET64, Bytes(s)) == Fnv1a(s)
  {
    hide Mix;
    if s != [] {
      var n := |s| - 1;
      FoldIsFnv1a(s[..n]);
      assert Bytes(s) == Bytes(s[..n]) + [Widen(s[n])];
      FoldConcat(OFFSET64, Bytes(s[..n]), [Widen(s[n])]);
      FoldOne(Fold(OFFSET64, Bytes(s[..n])), Widen(s[n]));
    }
  }

  /** If the bytes after the last full block of eight are ASCII, Hash is FNV-1a. */
  lemma HashIsFnv1a(s: seq<bv8>)
    requires Ascii(s[Unrolled(s)..])
    ensures Fold(OFFSET64, Units(s)) == Fnv1a(s)
  {
    SameRoundsIff(s);
    FoldIsFnv1a(s);
    hide Units, Fold, Fnv1a;
  }

  /** Otherwise it need not be: the two bytes of U+00E9 are hashed as one unit. */
  lemma NonAsciiTailDiffers()
    ensures var s: seq<bv8> := [0xC3, 0xA9];
            Units(s) == [0xE9] && Fold(OFFSET64, Units(s)) != Fnv1a(s)
  {
    var s: seq<bv8> := [0xC3, 0xA9];
    assert s[..0] == [] && s[0..] == s;
    assert DecodeRune(s) == (0xE9, 2) && s[2..] == [];
    assert Runes(s) == [0xE9] && Bytes(s[..0]) == [];
    assert Units(s) == [0xE9];
    FoldOne(OFFSET64, 0xE9);
    var b: seq<bv64> := [0xC3, 0xA9];
    assert Bytes(s) == b && b[1..] == [0xA9];
    FoldIsFnv1a(s);
    FoldOne(Mix(OFFSET64, 0xC3), 0xA9);
    LowBitsDiffer();
  }

  lemma LowBitsDiffer()
    ensures Mix(OFFSET64, 0xE9) != Mix(Mix(OFFSET64, 0xC3), 0xA9)
  {
  }

  // ---------------------------------------------------------------- collisions

  /** The prime is invertible modulo 2^64, so a round can be undone. */
  lemma PrimeInvertible(x: bv64)
    ensures x * 1099511628211 * 0xce965057aff6957b == x
  {
  }

  lemma XorTwice(h: bv64, c: bv64)
    ensures (h ^ c) ^ c == h && (h ^ c) ^ h == c
  {
  }

  function Unmix(m: bv64, c: bv64): bv64 {
    (m * 0xce965057aff6957b) ^ c
  }

  lemma UnmixMix(h: bv64, c: bv64)
    ensures Unmix(Mix(h, c), c) == h && Unmix(Mix(h, c), h) == c
  {
    PrimeInvertible(h ^ c);
    XorTwice(h, c);
  }

  /** One round is a bijection of the state, and distinguishes any two bytes. */
  lemma MixInjective(h: bv64, h': bv64, c: bv64, c': bv64)
    ensures Mix(h, c) == Mix(h', c) ==> h == h'
    ensures Mix(h, c) == Mix(h, c') ==> c == c'
  {
    hide Mix, Unmix;
    UnmixMix(h, c);
    UnmixMix(h', c);
    UnmixMix(h, c');
  }

  lemma {:induction false} FoldInjective(h: bv64, h': bv64, units: seq<bv64>)
    requires h != h'
    ensures Fold(h, units) != Fold(h', units)
    decreases |units|
  {
    hide Mix;
    if units != [] {
      MixInjective(h, h', units[0], units[0]);
      FoldInjective(Mix(h, units[0]), Mix(h', units[0]), units[1..]);
    }
  }

  /** Sequences of units that differ in exactly one place never collide. */
  lemma OneUnitDiffers(h: bv64, u: seq<bv64>, i: nat, c: bv64)
    requires i < |u| && c != u[i]
    ensures Fold(h, u) != Fold(h, u[i := c])
  {
    hide Mix;
    var pre, post := u[..i], u[i + 1..];
    assert u == pre + ([u[i]] + post) && u[i := c] == pre + ([c] + post);
    FoldConcat(h, pre, [u[i]] + post);
    FoldConcat(h, pre, [c] + post);
    var g := Fold(h, pre);
    FoldConcat(g, [u[i]], post);
    FoldConcat(g, [c], post);
    FoldOne(g, u[i]);
    FoldOne(g, c);
    MixInjective(g, g, u[i], c);
    FoldInjective(Mix(g, u[i]), Mix(g, c), post);
  }

  /**
    Two strings of equal length that differ in exactly one byte never collide if that byte is in a full
    block of eight, or else if the bytes after the last full block are ASCII in both.
   */
  lemma NoOneByteCollision(s: seq<bv8>, i: nat, b: bv8)
    requires i < |s| && b != s[i]
    requires i < Unrolled(s) || (Ascii(s[Unrolled(s)..]) && Ascii(s[i := b][Unrolled(s)..]))
    ensures Fold(OFFSET64, Units(s)) != Fold(OFFSET64, Units(s[i := b]))
  {
    var n := Unrolled(s);
    WidenInjective(s[i], b);
    if i < n {
      assert s[i := b][n..] == s[n..] && s[i := b][..n] == s[..n][i := b];
      hide Runes;
      assert Bytes(s[..n][i := b]) == Bytes(s[..n])[i := Widen(b)];
      assert Units(s[i := b]) == Units(s)[i := Widen(b)];
      OneUnitDiffers(OFFSET64, Units(s), i, Widen(b));
    } else {
      SameRoundsIff(s);
      SameRoundsIff(s[i := b]);
      hide Units, Fold;
      assert Bytes(s[i := b]) == Bytes(s)[i := Widen(b)];
      OneUnitDiffers(OFFSET64, Bytes(s), i, Widen(b));
    }
  }

  /** Ranging over a string loses nothing where no byte was replaced. */
  lemma {:induction false} RunesInjective(s: seq<bv8>, t: seq<bv8>)
    requires Runes(s) == Runes(t) && RUNE_ERROR !in Runes(s)
    ensures s == t
    decreases |s|
  {
    hide DecodeRune, EncodeRune, Scalar;
    if s != [] && t != [] {
      var (r, v) := DecodeRune(s);
      var (r', w) := DecodeRune(t);
      assert Runes(s)[0] == r && Runes(t)[0] == r' && r in Runes(s);
      assert Runes(s[v..]) == Runes(s)[1..] == Runes(t)[1..] == Runes(t[w..]);
      EncodeDecoded(s);
      EncodeDecoded(t);
      RunesInjective(s[v..], t[w..]);
      assert s == s[..v] + s[v..] && t == t[..w] + t[w..];
    }
  }

  /** So different strings of one length are hashed from the same units only if some byte was replaced. */
  lemma UnitsInjective(s: seq<bv8>, t: seq<bv8>)
    requires |s| == |t| && Units(s) == Units(t) && RUNE_ERROR !in Runes(s[Unrolled(s)..])
    ensures s == t
  {
    var n := Unrolled(s);
    hide Runes;
    assert Bytes(s[..n]) == Units(s)[..n] == Units(t)[..n] == Bytes(t[..n]);
    assert Runes(s[n..]) == Units(s)[n..] == Units(t)[n..] == Runes(t[n..]);
    RunesInjective(s[n..], t[n..]);
    forall i | 0 <= i < n
      ensures s[i] == t[i]
    {
      assert Bytes(s[..n])[i] == Widen(s[i]) && Bytes(t[..n])[i] == Widen(t[i]);
      WidenInjective(s[i], t[i]);
    }
    assert s == s[..n] + s[n..] && t == t[..n] + t[n..];
  }

  /** Otherwise they may: bytes that are no UTF-8 all decode to U+FFFD. */
  lemma OneByteCollision()
    ensures var s: seq<bv8>, t: seq<bv8> := [0x80], [0x81];
            Units(s) == Units(t) && Fold(OFFSET64, Units(s)) == Fold(OFFSET64, Units(t))
  {
    var s: seq<bv8>, t: seq<bv8> := [0x80], [0x81];
    assert s[..0] == [] && s[0..] == s && t[..0] == [] && t[0..] == t;
    assert DecodeRune(s) == (0xFFFD, 1) && s[1..] == [];
    assert DecodeRune(t) == (0xFFFD, 1) && t[1..] == [];
    assert Runes(s) == [0xFFFD] && Runes(t) == [0xFFFD];
  }

  lemma WidenInjective(a: bv8, b: bv8)
    ensures Widen(a) == Widen(b) ==> a == b
  {
  }
}
