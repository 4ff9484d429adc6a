/**
 * Decimal output of integers (`Fmt::render` and `compute_required_decimal_places`
 * in `kernel/fmt.cc`), on fully defined values.
 */
module FmtDecimals {
  import opened Bits
  import opened FmtTexts

  function Magnitude(n: int): nat {
    if n < 0 then -n else n
  }

  /** A value in decimal, with a minus sign if it has one. */
  function ValueText(v: Bv, signed: bool): string {
    (if Value(v, signed) < 0 then "-" else "") + Decimal(Magnitude(Value(v, signed)))
  }

  // -------------------------------------------------- how wide a value can be

  lemma {:induction false} DecimalMonotone(m: nat, n: nat)
    requires m <= n
    ensures |Decimal(m)| <= |Decimal(n)|
    decreases n
  {
    if m >= 10 {
      DecimalMonotone(m / 10, n / 10);
    }
  }

  /** Only a round number has more digits than its predecessor. */
  lemma {:induction false} NotRound(n: nat)
    requires n > 0 && n % 10 != 0
    ensures |Decimal(n)| == |Decimal(n - 1)|
  {
    if n >= 10 {
      assert n / 10 == (n - 1) / 10;
    }
  }

  lemma {:induction false} Pow2NotRound(n: nat)
    ensures Pow2(n) % 5 != 0
  {
    if n > 0 {
      Pow2NotRound(n - 1);
    }
  }

  /** The text of every value fits the places, and that of some value fills them. */
  ghost predicate Tight(places: nat, size: nat, signed: bool) {
    && (forall v: Bv | |v| == size :: |ValueText(v, signed)| <= places)
    && (exists v: Bv | |v| == size :: |ValueText(v, signed)| == places)
  }

  lemma {:induction false} UnsignedPlaces(size: nat)
    ensures Tight(|Decimal(Pow2(size))|, size, false)
  {
    forall v: Bv | |v| == size ensures |ValueText(v, false)| <= |Decimal(Pow2(size))| {
      DecimalMonotone(ToNat(v), Pow2(size));
    }
    Pow2NotRound(size);
    assert Pow2(size) % 10 != 0;
    NotRound(Pow2(size));
    var v := FromInt(Pow2(size) - 1, size);
    Small(Pow2(size) - 1, size);
    assert |ValueText(v, false)| == |Decimal(Pow2(size))|;
  }

  lemma {:induction false} SignedPlaces(size: nat)
    requires size > 0
    ensures Tight(|Decimal(Pow2(size - 1))| + 1, size, true)
  {
    forall v: Bv | |v| == size ensures |ValueText(v, true)| <= |Decimal(Pow2(size - 1))| + 1 {
      ValueRange(v);
      DecimalMonotone(Magnitude(Value(v, true)), Pow2(size - 1));
    }
    var v := FromInt(-Pow2(size - 1), size);
    SmallSigned(-Pow2(size - 1), size);
    assert |ValueText(v, true)| == |Decimal(Pow2(size - 1))| + 1;
  }

  function DigitsLeft(n: nat): nat {
    if n == 0 then 0 else |Decimal(n)|
  }

  /** `compute_required_decimal_places`. */
  method RequiredDecimalPlaces(size: nat, signed: bool) returns (places: nat)
    requires signed ==> size > 0
    ensures Tight(places, size, signed)
  {
    var max: nat := if signed then Pow2(size - 1) else Pow2(size);
    ghost var start := max;
    places := 0;
    while max > 0
      invariant places + DigitsLeft(max) == |Decimal(start)|
    {
      places := places + 1;
      max := max / 10;
    }
    if signed {
      places := places + 1;
      SignedPlaces(size);
    } else {
      UnsignedPlaces(size);
    }
  }

  // ------------------------------------------------------------- rendering

  /** Where digit k from the right stands from the right, if an underscore precedes each group of three. */
  function Position(k: nat, group: bool): nat {
    if group then k + k / 3 else k
  }

  /** The digits of n, grouped or not; the text is given from its right end. */
  predicate Renders(buf: string, n: nat, group: bool) {
    var digits := Decimal(n);
    && |buf| == Position(|digits| - 1, group) + 1
    && (forall k | 0 <= k < |digits| :: DigitAt(buf, digits, k, group))
    && (group ==> forall j | 0 <= j < |buf| && j % 4 == 3 :: buf[j] == '_')
  }

  predicate DigitAt(buf: string, digits: string, k: nat, group: bool)
    requires k < |digits|
  {
    Position(k, group) < |buf| && buf[Position(k, group)] == digits[|digits| - 1 - k]
  }

  /** Ungrouped, that is just the digits. */
  lemma {:induction false} RendersPlain(buf: string, n: nat)
    requires Renders(buf, n, false)
    ensures Reversed(buf) == Decimal(n)
  {
    var digits := Decimal(n);
    forall i | 0 <= i < |digits| ensures Reversed(buf)[i] == digits[i] {
      assert DigitAt(buf, digits, |digits| - 1 - i, false);
    }
  }

  function Reversed(s: string): (r: string)
    ensures |r| == |s|
  {
    seq(|s|, i requires 0 <= i < |s| => s[|s| - 1 - i])
  }

  /** The negative of a value fits one more bit, even for the most negative value. */
  lemma {:induction false} NegatedMagnitude(v: Bv)
    requires v != [] && Value(v, true) < 0
    ensures ToNat(FromInt(-Value(v, true), |v| + 1)) == Magnitude(Value(v, true))
  {
    ValueRange(v);
    Pow2Monotone(|v| - 1, |v| + 1);
    Small(-Value(v, true), |v| + 1);
  }

  lemma {:induction false} NegativeHasTopBit(v: Bv)
    ensures v != [] && v[|v| - 1] <==> Value(v, true) < 0
  {
    if v != [] {
      ValueRange(v);
    }
  }

  /** The digits of n before and behind the point the loop has reached. */
  ghost predicate Split3(n: nat, value: nat, tail: string) {
    Decimal(n) == (if value == 0 then "" else Decimal(value)) + tail
  }

  lemma {:induction false} SplitNext(n: nat, value: nat, tail: string)
    requires value > 0 && Split3(n, value, tail)
    ensures Split3(n, value / 10, [DigitChar(value % 10)] + tail)
  {
    var d := [DigitChar(value % 10)];
    if value < 10 {
      assert "" + (d + tail) == d + tail;
    } else {
      assert Decimal(value / 10) + d + tail == Decimal(value / 10) + (d + tail);
    }
  }

  /** Digits that the loop has written, from the right. */
  predicate Written(buf: string, tail: string, group: bool) {
    && |buf| == (if tail == "" then 0 else Position(|tail| - 1, group) + 1)
    && (forall k | 0 <= k < |tail| :: DigitAt(buf, tail, k, group))
    && (group ==> forall j | 0 <= j < |buf| && j % 4 == 3 :: buf[j] == '_')
  }

  lemma {:induction false} WriteDigit(buf: string, tail: string, group: bool, c: char)
    requires Written(buf, tail, group)
    ensures Written(buf + (if group && |tail| > 0 && |tail| % 3 == 0 then "_" else "") + [c], [c] + tail, group)
  {
    var buf' := buf + (if group && |tail| > 0 && |tail| % 3 == 0 then "_" else "") + [c];
    var tail' := [c] + tail;
    forall k | 0 <= k < |tail'| ensures DigitAt(buf', tail', k, group) {
      if k < |tail| {
        assert DigitAt(buf, tail, k, group);
      }
    }
  }

  /** The decimal branch of `render`: sign and digits of one part, before padding. */
  method RenderDecimal(v: Bv, signed: bool, group: bool) returns (prefix: string, text: string)
    ensures prefix == if Value(v, signed) < 0 then "-" else ""
    ensures Renders(Reversed(text), Magnitude(Value(v, signed)), group)
    ensures !group ==> prefix + text == ValueText(v, signed)
  {
    prefix := "";
    var value := ToNat(v);
    NegativeHasTopBit(v);
    if signed && v != [] && v[|v| - 1] {
      prefix := "-";
      NegatedMagnitude(v);
      value := ToNat(FromInt(-Value(v, true), |v| + 1));
    }
    var buf := RenderDigits(value, group);
    text := Reversed(buf);
    assert Reversed(text) == buf;
    if !group {
      RendersPlain(buf, Magnitude(Value(v, signed)));
    }
  }

  method RenderDigits(n: nat, group: bool) returns (buf: string)
    ensures Renders(buf, n, group)
  {
    buf := "";
    if n == 0 {
      buf := buf + "0";
      assert Decimal(0) == "0" && DigitAt(buf, "0", 0, group);
      return;
    }
    var value, index := n, 0;
    ghost var tail := "";
    assert Decimal(n) + "" == Decimal(n);
    while value > 0
      invariant |tail| == index && Split3(n, value, tail) && Written(buf, tail, group)
      invariant tail == "" ==> value == n
    {
      ghost var before := buf;
      if group && index > 0 && index % 3 == 0 {
        buf := buf + "_";
      } else {
        assert buf + "" == buf;
      }
      WriteDigit(before, tail, group, DigitChar(value % 10));
      SplitNext(n, value, tail);
      tail := [DigitChar(value % 10)] + tail;
      buf := buf + [DigitChar(value % 10)];
      value := value / 10;
      index := index + 1;
    }
    assert "" + tail == tail;
  }
}
