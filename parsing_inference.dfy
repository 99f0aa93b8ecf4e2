/**
 * The colour palette used to render a parsing map (`_get_palette`) and the
 * per-dataset settings table (`dataset_settings`).
 *
 * `_get_palette(n)` gives class j the colour whose red, green and blue bytes
 * collect the bits 0, 3, 6, ..., 1, 4, 7, ... and 2, 5, 8, ... of j, most
 * significant first. Python integers do not overflow, but a shift by a
 * negative count raises ValueError: a class index with a bit at position 24
 * or above makes the loop reach `<< (7 - 8)`.
 */
module ParsingInference {
  import opened Wrappers
  import Labels

  // ------------------------------------------------------------------
  // Bits of a class index.
  // ------------------------------------------------------------------

  /** `x >> k` on non-negative integers. */
  function Shr(x: nat, k: nat): nat {
    if k == 0 then x else Shr(x / 2, k - 1)
  }

  /** `(x >> k) & 1`. */
  function Bit(x: nat, k: nat): nat {
    Shr(x, k) % 2
  }

  function Pow2(k: nat): (p: nat)
    ensures p >= 1
  {
    if k == 0 then 1 else 2 * Pow2(k - 1)
  }

  /** The number of class indices that get a colour: 2^24. */
  const ColourLimit: nat := 0x100_0000


  lemma {:induction false} ShrShr(x: nat, a: nat, b: nat)
    ensures Shr(Shr(x, a), b) == Shr(x, a + b)
  {
    if a > 0 {
      ShrShr(x / 2, a - 1, b);
    }
  }

  lemma {:induction false} ShrHalf(x: nat, k: nat)
    ensures Shr(x, k) / 2 == Shr(x, k + 1)
  {
    if k > 0 {
      ShrHalf(x / 2, k - 1);
    }
  }

  /** `lab >>= 3` moves on by three bit positions. */
  lemma {:induction false} ShrThree(x: nat, k: nat)
    ensures Shr(x, k) / 8 == Shr(x, k + 3)
  {
    ShrHalf(x, k);
    ShrHalf(x, k + 1);
    ShrHalf(x, k + 2);
  }

  lemma {:induction false} ShrZero(k: nat)
    ensures Shr(0, k) == 0
  {
    if k > 0 {
      ShrZero(k - 1);
    }
  }

  /** Shifting right by k leaves nothing exactly when x has fewer than k bits. */
  lemma {:induction false} ShrVanishes(x: nat, k: nat)
    ensures Shr(x, k) == 0 <==> x < Pow2(k)
  {
    if k > 0 {
      ShrVanishes(x / 2, k - 1);
    }
  }

  /** A class index is below the limit exactly when it has no bit at 24 or above. */
  lemma {:induction false} BelowColourLimit(x: nat)
    ensures Shr(x, 24) == 0 <==> x < ColourLimit
  {
    ShrVanishes(x, 24);
    assert Pow2(8) == 256;
    assert Pow2(16) == 256 * Pow2(8);
  }

  /** A number with no bit at n or above is determined by its n lowest bits. */
  lemma {:induction false} BitsDetermine(a: nat, b: nat, n: nat)
    requires Shr(a, n) == 0 && Shr(b, n) == 0
    requires forall k :: 0 <= k < n ==> Bit(a, k) == Bit(b, k)
    ensures a == b
  {
    if n > 0 {
      assert Bit(a, 0) == Bit(b, 0);
      forall k | 0 <= k < n - 1
        ensures Bit(a / 2, k) == Bit(b / 2, k)
      {
        assert Bit(a, k + 1) == Bit(b, k + 1);
      }
      BitsDetermine(a / 2, b / 2, n - 1);
    }
  }

  /** Bits beyond the highest set bit stay clear. */
  lemma {:induction false} ShrBeyond(x: nat, a: nat, b: nat)
    requires Shr(x, a) == 0 && a <= b
    ensures Shr(x, b) == 0
  {
    ShrShr(x, a, b - a);
    ShrZero(b - a);
  }

  lemma {:induction false} Parity(b: nat, y: nat)
    requires b <= 1
    ensures (b + 2 * y) % 2 == b && (b + 2 * y) / 2 == y
  {
  }

  /** `x << k` for a non-negative shift count. */
  function Shl(x: nat, k: nat): nat {
    if k == 0 then x else 2 * Shl(x, k - 1)
  }

  /** Shifting left then right by the same count gives the value back. */
  lemma {:induction false} ShrOfShl(x: nat, k: nat)
    ensures Shr(Shl(x, k), k) == x
  {
    if k > 0 {
      ShrOfShl(x, k - 1);
      assert Shl(x, k) / 2 == Shl(x, k - 1);
    }
  }

  lemma {:induction false} ShlAdd(a: nat, b: nat, k: nat)
    ensures Shl(a + b, k) == Shl(a, k) + Shl(b, k)
  {
    if k > 0 {
      ShlAdd(a, b, k - 1);
    }
  }

  lemma {:induction false} ShlTwice(a: nat, k: nat)
    ensures Shl(2 * a, k) == Shl(a, k + 1)
  {
    if k > 0 {
      ShlTwice(a, k - 1);
    }
  }

  /** Python's `a | b` on non-negative integers, one bit at a time from the lowest. */
  function Or(a: nat, b: nat): nat
    decreases a + b
  {
    if a == 0 && b == 0 then 0
    else 2 * Or(a / 2, b / 2) + (if a % 2 == 1 || b % 2 == 1 then 1 else 0)
  }

  /** Or is bitwise: a bit of `a | b` is set exactly when it is set in a or in b. */
  lemma {:induction false} OrBits(a: nat, b: nat, k: nat)
    ensures Bit(Or(a, b), k) == 1 <==> Bit(a, k) == 1 || Bit(b, k) == 1
    decreases k
  {
    if a == 0 && b == 0 {
      ShrZero(k);
    } else if k > 0 {
      OrBits(a / 2, b / 2, k - 1);
      assert Or(a, b) / 2 == Or(a / 2, b / 2);
    }
  }

  lemma {:induction false} OrZero(a: nat)
    ensures Or(a, 0) == a
    decreases a
  {
    if a > 0 {
      OrZero(a / 2);
    }
  }

  /** Or of numbers with no set bit in common is their sum. */
  lemma {:induction false} OrDisjoint(m: nat, b: nat, k: nat)
    requires b <= 1
    ensures Or(Shl(m, k + 1), Shl(b, k)) == Shl(m, k + 1) + Shl(b, k)
    decreases k
  {
    if k == 0 {
      OrZero(m);
      var a := Shl(m, 1);
      assert a == 2 * m && Shl(b, 0) == b;
      Parity(0, m);
      Parity(b, 0);
      assert Or(a, b) == 2 * Or(m, 0) + b;
    } else {
      OrDisjoint(m, b, k - 1);
      var a, d := Shl(m, k + 1), Shl(b, k);
      Parity(0, Shl(m, k));
      Parity(0, Shl(b, k - 1));
      assert a / 2 == Shl(m, k) && a % 2 == 0 && d / 2 == Shl(b, k - 1) && d % 2 == 0;
      if a != 0 || d != 0 {
        assert Or(a, d) == 2 * Or(a / 2, d / 2);
      }
    }
  }

  // ------------------------------------------------------------------
  // The colour of a class.
  // ------------------------------------------------------------------

  /**
   * Channel c (0 red, 1 green, 2 blue) of the colour of class j, from bit p
   * upwards and shifted down by p: bit q of the channel, for q < 8, is bit
   * 3(7-q)+c of j, and the channel has no bit at 8 or above.
   */
  function ChannelFrom(j: nat, c: nat, p: nat): nat
    decreases 8 - p
  {
    if p >= 8 then 0 else Bit(j, 21 - 3 * p + c) + 2 * ChannelFrom(j, c, p + 1)
  }

  function Channel(j: nat, c: nat): (ch: nat)
    ensures ch < 256
  {
    ChannelFromBound(j, c, 0);
    ChannelFrom(j, c, 0)
  }

  /** The lowest bit of ChannelFrom(j, c, p) and the rest. */
  lemma {:induction false} ChannelFromSplit(j: nat, c: nat, p: nat)
    requires p < 8
    ensures ChannelFrom(j, c, p) % 2 == Bit(j, 21 - 3 * p + c)
    ensures ChannelFrom(j, c, p) / 2 == ChannelFrom(j, c, p + 1)
  {
    Parity(Bit(j, 21 - 3 * p + c), ChannelFrom(j, c, p + 1));
  }

  lemma {:induction false} ChannelFromBound(j: nat, c: nat, p: nat)
    requires p <= 8
    ensures ChannelFrom(j, c, p) < Pow2(8 - p)
    decreases 8 - p
  {
    if p < 8 {
      ChannelFromBound(j, c, p + 1);
    }
  }

  /** Bit q of ChannelFrom(j, c, p) is bit 3(7-p-q)+c of j, written linearly. */
  lemma {:induction false} ChannelFromBit(j: nat, c: nat, p: nat, q: nat)
    requires p + q < 8
    ensures Bit(ChannelFrom(j, c, p), q) == Bit(j, 21 - 3 * (p + q) + c)
    decreases q
  {
    var x := ChannelFrom(j, c, p);
    ChannelFromSplit(j, c, p);
    if q > 0 {
      ChannelFromBit(j, c, p + 1, q - 1);
      BitOfHalf(x, q);
    }
  }

  /** Bit q of x is bit q-1 of x / 2. */
  lemma BitOfHalf(x: nat, q: nat)
    requires q > 0
    ensures Bit(x, q) == Bit(x / 2, q - 1)
  {
  }

  /**
   * The interleaving: for each round i < 8, bit 7-i of channel c of class j
   * is bit 3i+c of j.
   */
  lemma {:induction false} ChannelBit(j: nat, c: nat, i: nat)
    requires i < 8
    ensures Bit(Channel(j, c), 7 - i) == Bit(j, 3 * i + c)
  {
    ChannelFromBit(j, c, 0, 7 - i);
    assert 21 - 3 * (7 - i) + c == 3 * i + c;
  }

  /** Class 0 is black. */
  lemma {:induction false} BackgroundIsBlack(c: nat, p: nat)
    ensures ChannelFrom(0, c, p) == 0
    decreases 8 - p
  {
    if p < 8 {
      ShrZero(21 - 3 * p + c);
      BackgroundIsBlack(c, p + 1);
    }
  }

  // ------------------------------------------------------------------
  // _get_palette.
  // ------------------------------------------------------------------

  /** The message of the ValueError Python raises for a shift by `7 - i = -1`, whatever the shifted bit. */
  const NegativeShift := "negative shift count"

  /** `range(0, n)` is empty for n <= 0, and so is `[0] * (n * 3)`. */
  function Classes(n: int): nat {
    if n > 0 then n else 0
  }

  /** x with its k lowest bits cleared. */
  function High(x: nat, k: nat): nat {
    Shl(Shr(x, k), k)
  }

  /** High(x, k) is High(x, k+1) plus bit k of x in place. */
  lemma {:induction false} HighStep(x: nat, k: nat)
    ensures High(x, k) == Shl(Shr(x, k + 1), k + 1) + Shl(Bit(x, k), k)
  {
    ShrHalf(x, k);
    assert Shr(x, k) == 2 * Shr(x, k + 1) + Bit(x, k);
    ShlAdd(2 * Shr(x, k + 1), Bit(x, k), k);
    ShlTwice(Shr(x, k + 1), k);
  }

  /** A number whose k lowest bits are clear is its own High(., k). */
  lemma {:induction false} HighOfClear(x: nat, k: nat)
    requires forall q :: 0 <= q < k ==> Bit(x, q) == 0
    ensures High(x, k) == x
    decreases k
  {
    if k > 0 {
      assert Bit(x, 0) == 0;
      forall q | 0 <= q < k - 1
        ensures Bit(x / 2, q) == 0
      {
        assert Bit(x, q + 1) == 0;
      }
      HighOfClear(x / 2, k - 1);
      assert High(x, k) == 2 * High(x / 2, k - 1);
    }
  }

  /** Round i of the `while lab` loop reads bit 3i+c of j. */
  function RoundBit(j: nat, c: nat, i: nat): nat {
    Bit(j, 3 * i + c)
  }

  /**
   * ch is a byte whose bit 7-i is the bit of j that round i reads for
   * channel c, for each of the eight rounds: what the loop builds.
   */
  ghost predicate IsChannel(j: nat, c: nat, ch: nat) {
    ch < 256 && forall i :: 0 <= i < 8 ==> Bit(ch, 7 - i) == RoundBit(j, c, i)
  }

  /** Channel is the byte the loop builds. */
  lemma {:induction false} ChannelIsChannel(j: nat, c: nat)
    ensures IsChannel(j, c, Channel(j, c))
  {
    forall i | 0 <= i < 8
      ensures Bit(Channel(j, c), 7 - i) == RoundBit(j, c, i)
    {
      ChannelBit(j, c, i);
    }
  }

  /** Classes below 2^24 whose loops build the same three bytes are equal. */
  lemma {:induction false} SameBytesSameClass(j1: nat, j2: nat, r: nat, g: nat, b: nat)
    requires j1 < ColourLimit && j2 < ColourLimit
    requires IsChannel(j1, 0, r) && IsChannel(j1, 1, g) && IsChannel(j1, 2, b)
    requires IsChannel(j2, 0, r) && IsChannel(j2, 1, g) && IsChannel(j2, 2, b)
    ensures j1 == j2
  {
    forall k | 0 <= k < 24
      ensures Bit(j1, k) == Bit(j2, k)
    {
      var i, c := k / 3, k % 3;
      assert k == 3 * i + c;
      var ch := if c == 0 then r else if c == 1 then g else b;
      assert Bit(ch, 7 - i) == RoundBit(j1, c, i) == RoundBit(j2, c, i);
    }
    BelowColourLimit(j1);
    BelowColourLimit(j2);
    BitsDetermine(j1, j2, 24);
  }

  /** Distinct classes below 2^24 get distinct colours. */
  lemma {:induction false} ColoursDistinct(j1: nat, j2: nat)
    requires j1 < ColourLimit && j2 < ColourLimit && j1 != j2
    ensures Channel(j1, 0) != Channel(j2, 0) || Channel(j1, 1) != Channel(j2, 1) || Channel(j1, 2) != Channel(j2, 2)
  {
    ChannelIsChannel(j1, 0);
    ChannelIsChannel(j1, 1);
    ChannelIsChannel(j1, 2);
    ChannelIsChannel(j2, 0);
    ChannelIsChannel(j2, 1);
    ChannelIsChannel(j2, 2);
    if Channel(j1, 0) == Channel(j2, 0) && Channel(j1, 1) == Channel(j2, 1) && Channel(j1, 2) == Channel(j2, 2) {
      SameBytesSameClass(j1, j2, Channel(j1, 0), Channel(j1, 1), Channel(j1, 2));
    }
  }

  /**
   * One round of the inner loop, while `lab` holds the bits of j from 3i
   * upwards, sets bit 7-i of channel c in the palette entry.
   */
  lemma {:induction false} RoundStep(j: nat, c: nat, ch: nat, i: nat, lab: nat)
    requires IsChannel(j, c, ch) && i < 8 && lab == Shr(j, 3 * i)
    ensures Or(High(ch, 8 - i), Shl(Bit(lab, c), 7 - i)) == High(ch, 7 - i)
  {
    ShrShr(j, 3 * i, c);
    assert Bit(ch, 7 - i) == RoundBit(j, c, i);
    HighStep(ch, 7 - i);
    OrDisjoint(Shr(ch, 8 - i), Bit(lab, c), 7 - i);
  }

  /** Before the first round the entry is empty. */
  lemma {:induction false} HighOfByte(ch: nat)
    requires ch < 256
    ensures High(ch, 8) == 0
  {
    ShrVanishes(ch, 8);
    assert Pow2(8) == 256;
  }

  /** Once the rest of j is zero, the rounds still to come read only zero bits. */
  lemma {:induction false} LowBitsClear(j: nat, c: nat, ch: nat, i: nat)
    requires IsChannel(j, c, ch) && i <= 8 && Shr(j, 3 * i) == 0
    ensures forall q :: 0 <= q < 8 - i ==> Bit(ch, q) == 0
  {
    forall q | 0 <= q < 8 - i
      ensures Bit(ch, q) == 0
    {
      assert Bit(ch, 7 - (7 - q)) == RoundBit(j, c, 7 - q);
      ShrBeyond(j, 3 * i, 3 * (7 - q) + c);
    }
  }

  /** Once the rest of j is zero, the remaining rounds would add nothing. */
  lemma {:induction false} HighIsWhole(j: nat, c: nat, ch: nat, i: nat)
    requires IsChannel(j, c, ch) && i <= 8 && Shr(j, 3 * i) == 0
    ensures High(ch, 8 - i) == ch
  {
    LowBitsClear(j, c, ch, i);
    HighOfClear(ch, 8 - i);
  }

  lemma {:induction false} ShlIsMul(x: nat, k: nat)
    ensures Shl(x, k) == x * Pow2(k)
  {
    if k > 0 {
      ShlIsMul(x, k - 1);
    }
  }

  lemma {:induction false} ShlSeven(x: nat)
    ensures Shl(x, 7) == 128 * x
  {
    ShlIsMul(x, 7);
    assert Pow2(7) == 128;
  }

  /** For a class below 8 only round 0 reads a set bit: the top bit of the byte. */
  lemma {:induction false} CornerByte(j: nat, c: nat, ch: nat)
    requires IsChannel(j, c, ch) && j < 8
    ensures ch == 128 * Bit(j, c)
  {
    assert Pow2(3) == 8;
    ShrVanishes(j, 3);
    HighIsWhole(j, c, ch, 1);
    HighOfByte(ch);
    ShrHalf(ch, 7);
    assert Bit(ch, 7 - 0) == RoundBit(j, c, 0);
    ShlSeven(Shr(ch, 7));
  }

  /**
   * Classes 0 to 7 use only the top bit of each channel: class j gets 128
   * in the channels whose bit of j is set and 0 elsewhere.
   */
  lemma {:induction false} CornerColours(j: nat, c: nat)
    requires j < 8
    ensures Channel(j, c) == 128 * Bit(j, c)
  {
    ChannelIsChannel(j, c);
    CornerByte(j, c, Channel(j, c));
  }

  /**
   * The `while lab` loop of `_get_palette` for class j, over the three
   * cleared entries from base on; r, g and b are the channels it builds.
   * It stops with false where Python raises ValueError: when a bit of j at
   * position 24 or above makes the shift count `7 - i` negative.
   */
  method PaintRounds(palette: array<int>, base: nat, j: nat, ghost r: nat, ghost g: nat, ghost b: nat)
    returns (ok: bool)
    requires base + 3 <= palette.Length
    requires IsChannel(j, 0, r) && IsChannel(j, 1, g) && IsChannel(j, 2, b)
    requires palette[base] == 0 && palette[base + 1] == 0 && palette[base + 2] == 0
    modifies palette
    ensures ok <==> Shr(j, 24) == 0
    ensures ok ==> palette[base] == r && palette[base + 1] == g && palette[base + 2] == b
    ensures forall k :: 0 <= k < palette.Length && (k < base || base + 3 <= k) ==> palette[k] == old(palette[k])
  {
    HighOfByte(r);
    HighOfByte(g);
    HighOfByte(b);
    var lab := j;
    var i := 0;
    while lab != 0
      invariant 0 <= i <= 8
      invariant lab == Shr(j, 3 * i)
      invariant palette[base] == High(r, 8 - i)
      invariant palette[base + 1] == High(g, 8 - i)
      invariant palette[base + 2] == High(b, 8 - i)
      invariant forall k :: 0 <= k < palette.Length && (k < base || base + 3 <= k) ==> palette[k] == old(palette[k])
      decreases lab
    {
      if i > 7 {
        return false;
      }
      RoundStep(j, 0, r, i, lab);
      RoundStep(j, 1, g, i, lab);
      RoundStep(j, 2, b, i, lab);
      palette[base + 0] := Or(palette[base + 0], Shl(Bit(lab, 0), 7 - i));
      palette[base + 1] := Or(palette[base + 1], Shl(Bit(lab, 1), 7 - i));
      palette[base + 2] := Or(palette[base + 2], Shl(Bit(lab, 2), 7 - i));
      i := i + 1;
      ShrThree(j, 3 * (i - 1));
      lab := lab / 8;
    }
    ShrBeyond(j, 3 * i, 24);
    HighIsWhole(j, 0, r, i);
    HighIsWhole(j, 1, g, i);
    HighIsWhole(j, 2, b, i);
    return true;
  }

  /**
   * One pass of the `for j` loop of `_get_palette`: clears the three entries
   * of class j and runs the `while lab` loop over them. It reports false
   * where Python raises ValueError, which happens exactly when j reaches 2^24.
   */
  method PaintClass(palette: array<int>, j: nat) returns (ok: bool)
    requires 3 * j + 3 <= palette.Length
    modifies palette
    ensures ok <==> j < ColourLimit
    ensures ok ==> forall c :: 0 <= c < 3 ==> palette[3 * j + c] == Channel(j, c)
    ensures forall k :: 0 <= k < palette.Length && (k < 3 * j || 3 * j + 3 <= k) ==> palette[k] == old(palette[k])
  {
    var base := 3 * j;
    palette[base + 0] := 0;
    palette[base + 1] := 0;
    palette[base + 2] := 0;
    ChannelIsChannel(j, 0);
    ChannelIsChannel(j, 1);
    ChannelIsChannel(j, 2);
    ok := PaintRounds(palette, base, j, Channel(j, 0), Channel(j, 1), Channel(j, 2));
    BelowColourLimit(j);
  }

  /**
   * `_get_palette(num_cls)`: the flat list R0, G0, B0, R1, G1, B1, ... of
   * the colours of classes 0 .. num_cls-1, or the ValueError raised once a
   * class index reaches 2^24.
   */
  method GetPalette(numCls: int) returns (r: Result<seq<int>, string>)
    ensures r.Failure? <==> numCls > ColourLimit
    ensures r.Failure? ==> r.error == NegativeShift
    ensures r.Success? ==> |r.value| == 3 * Classes(numCls)
    ensures r.Success? ==>
      forall j, c :: 0 <= j < Classes(numCls) && 0 <= c < 3 ==> r.value[3 * j + c] == Channel(j, c)
  {
    var n := numCls;
    var palette := new int[3 * Classes(n)](_ => 0);
    var j := 0;
    while j < n
      invariant 0 <= j <= Classes(n) && j <= ColourLimit
      invariant forall j', c :: 0 <= j' < j && 0 <= c < 3 ==> palette[3 * j' + c] == Channel(j', c)
    {
      var ok := PaintClass(palette, j);
      if !ok {
        return Failure(NegativeShift);
      }
      j := j + 1;
    }
    return Success(palette[..]);
  }

  // ------------------------------------------------------------------
  // dataset_settings.
  // ------------------------------------------------------------------

  datatype DatasetSetting = DatasetSetting(inputSize: (nat, nat), numClasses: nat, labels: seq<string>)

  const Lip := DatasetSetting((473, 473), 20, [
    "Background", "Hat", "Hair", "Glove", "Sunglasses", "Upper-clothes", "Dress", "Coat",
    "Socks", "Pants", "Jumpsuits", "Scarf", "Skirt", "Face", "Left-arm", "Right-arm",
    "Left-leg", "Right-leg", "Left-shoe", "Right-shoe"])

  const Atr := DatasetSetting((512, 512), 18, [
    "Background", "Hat", "Hair", "Sunglasses", "Upper-clothes", "Skirt", "Pants", "Dress", "Belt",
    "Left-shoe", "Right-shoe", "Face", "Left-leg", "Right-leg", "Left-arm", "Right-arm", "Bag", "Scarf"])

  const Pascal := DatasetSetting((512, 512), 7, [
    "Background", "Head", "Torso", "Upper Arms", "Lower Arms", "Upper Legs", "Lower Legs"])

  /**
   * `dataset_settings[name]`; a name that is not a key raises KeyError.
   * Every dataset has a square input and class 0 is the background.
   */
  function Settings(name: string): (r: Option<DatasetSetting>)
    ensures r.Some? <==> name in {"lip", "atr", "pascal"}
    ensures r.Some? ==> r.value.inputSize.0 == r.value.inputSize.1
    ensures r.Some? ==> |r.value.labels| > 0 && r.value.labels[0] == "Background"
  {
    if name == "lip" then Some(Lip)
    else if name == "atr" then Some(Atr)
    else if name == "pascal" then Some(Pascal)
    else None
  }

  /** Every dataset declares as many classes as it names. */
  lemma {:induction false} ClassCountsMatchLabels(name: string)
    requires Settings(name).Some?
    ensures Settings(name).value.numClasses == |Settings(name).value.labels|
    ensures Settings(name).value.numClasses in {20, 18, 7}
  {
  }

  /**
   * The ATR label list names the classes in the order of the label ids
   * used by mask generation.
   */
  lemma {:induction false} AtrMatchesTaxonomy()
    ensures |Atr.labels| == |Labels.AtrIds|
    ensures Atr.labels[Labels.Background] == "Background" && Atr.labels[Labels.Hat] == "Hat"
    ensures Atr.labels[Labels.Hair] == "Hair" && Atr.labels[Labels.Sunglasses] == "Sunglasses"
    ensures Atr.labels[Labels.UpperClothes] == "Upper-clothes" && Atr.labels[Labels.Skirt] == "Skirt"
    ensures Atr.labels[Labels.Pants] == "Pants" && Atr.labels[Labels.Dress] == "Dress"
    ensures Atr.labels[Labels.Belt] == "Belt" && Atr.labels[Labels.LeftShoe] == "Left-shoe"
    ensures Atr.labels[Labels.RightShoe] == "Right-shoe" && Atr.labels[Labels.Face] == "Face"
    ensures Atr.labels[Labels.LeftLeg] == "Left-leg" && Atr.labels[Labels.RightLeg] == "Right-leg"
    ensures Atr.labels[Labels.LeftArm] == "Left-arm" && Atr.labels[Labels.RightArm] == "Right-arm"
    ensures Atr.labels[Labels.Bag] == "Bag" && Atr.labels[Labels.Scarf] == "Scarf"
  {
  }
}
