/** The `Int` extensions of the Extensions playground page: the in-place
    `square()`, the decimal-digit subscript, the nested `Kind` classification
    and the `printIntegerKinds` routine that renders a list of kinds. */
module Extensions {

  import opened SwiftInt

  datatype Option<T> = None | Some(value: T)

  // ---------------------------------------------------------------------------
  // mutating func square()

  /** A Swift `var` of type `Int`, the receiver of the mutating method. */
  class IntVariable {
    var value: Int64

    constructor (initial: Int64)
      ensures value == initial
    {
      value := initial;
    }

    /** Replaces the value by its square; Swift traps when the square does not
        fit in an `Int`, so the caller must keep it in range. */
    method Square()
      requires InRange(value as int * value as int)
      modifies this
      ensures value as int == old(value as int) * old(value as int)
      ensures value >= 0
    {
      value := value * value;
    }
  }

  /** `var someInt = 3; someInt.square()` leaves `someInt` at 9. */
  method SquareThree() returns (someInt: Int64)
    ensures someInt == 9
  {
    var v := new IntVariable(3);
    v.Square();
    someInt := v.value;
  }

  /** `square()` traps exactly when the magnitude of the value exceeds
      3037000499, the integer square root of `Int.max`. */
  lemma SquareNoOverflow(x: int)
    ensures InRange(x * x) <==> -3_037_000_499 <= x <= 3_037_000_499
  {
    var root := 3_037_000_499;
    assert root * root <= MAX < (root + 1) * (root + 1);
    if -root <= x <= root {
      MulMonotone(Abs(x), root);
      assert x * x == Abs(x) * Abs(x);
    } else {
      MulMonotone(root + 1, Abs(x));
      assert x * x == Abs(x) * Abs(x);
    }
  }

  lemma MulMonotone(a: nat, b: nat)
    requires a <= b
    ensures a * a <= b * b
  {
  }

  // ---------------------------------------------------------------------------
  // subscript(digitIndex:)

  /** What the subscript returns: Swift's truncating `(n / 10^k) % 10`. */
  function Digit(n: int, k: nat): int {
    Rem(Quot(n, Pow10(k)), 10)
  }

  /** The loop multiplies `decimalBase` up to 10^digitIndex, then divides.
      `0..<digitIndex` traps for a negative index and `decimalBase *= 10` traps
      past 10^18 (see SwiftInt.Pow10FitsInt64), hence the bounds. */
  method Subscript(self: Int64, digitIndex: Int64) returns (d: Int64)
    requires 0 <= digitIndex <= 18
    ensures d as int == Digit(self as int, digitIndex as int)
    ensures self >= 0 ==> 0 <= d <= 9
    ensures self <= 0 ==> -9 <= d <= 0
  {
    var decimalBase: Int64 := 1;
    var i: Int64 := 0;
    while i < digitIndex
      invariant 0 <= i <= digitIndex
      invariant decimalBase as int == Pow10(i as int)
    {
      Pow10Monotone(i as int + 1, 18);
      Pow10FitsInt64(18);
      decimalBase := decimalBase * 10;
      i := i + 1;
    }
    DigitRange(self as int, digitIndex as int);
    d := Rem(Quot(self as int, decimalBase as int), 10) as Int64;
  }

  /** A digit of a non-negative number lies in 0..9; of a non-positive one, in
      -9..0 (the remainder keeps the dividend's sign). */
  lemma DigitRange(n: int, k: nat)
    ensures n >= 0 ==> 0 <= Digit(n, k) <= 9
    ensures n <= 0 ==> -9 <= Digit(n, k) <= 0
  {
    TruncatedDivision(Quot(n, Pow10(k)), 10);
  }

  /** The subscript of `-n` is the negated subscript of `n`. */
  lemma DigitOfNegation(n: int, k: nat)
    ensures Digit(-n, k) == -Digit(n, k)
  {
    QuotRemOfNegation(n, Pow10(k));
    QuotRemOfNegation(Quot(n, Pow10(k)), 10);
  }

  /** Digit `k + 1` of `n` is digit `k` of `n / 10`: the index counts places
      from the right. */
  lemma DigitShift(n: int, k: nat)
    ensures Digit(n, k + 1) == Digit(Quot(n, 10), k)
  {
    if n >= 0 {
      DigitShiftNonNegative(n, k);
    } else {
      DigitShiftNonNegative(-n, k);
      DigitOfNegation(n, k + 1);
      QuotRemOfNegation(n, 10);
      DigitOfNegation(Quot(n, 10), k);
    }
  }

  lemma DigitShiftNonNegative(n: nat, k: nat)
    ensures Digit(n, k + 1) == Digit(Quot(n, 10), k)
  {
    DivDiv(n, 10, Pow10(k));
    QuotRemNonNegative(n, Pow10(k + 1));
    QuotRemNonNegative(n, 10);
    QuotRemNonNegative(n / 10, Pow10(k));
  }

  /** The decimal expansion of `n`, least significant digit first, without
      leading zeros (zero itself is the single digit 0). */
  function DecimalDigits(n: nat): (ds: seq<int>)
    ensures |ds| >= 1
    ensures forall i :: 0 <= i < |ds| ==> 0 <= ds[i] <= 9
    ensures n > 0 ==> ds[|ds| - 1] != 0
  {
    if n < 10 then [n] else [n % 10] + DecimalDigits(n / 10)
  }

  /** The number a least-significant-first digit sequence stands for. */
  function ValueOf(ds: seq<int>): int {
    if ds == [] then 0 else ds[0] + 10 * ValueOf(ds[1..])
  }

  lemma {:induction false} DecimalDigitsRoundTrip(n: nat)
    ensures ValueOf(DecimalDigits(n)) == n
  {
    if n >= 10 {
      DecimalDigitsRoundTrip(n / 10);
      assert DecimalDigits(n)[1..] == DecimalDigits(n / 10);
    }
  }

  /** For a non-negative receiver the subscript is the decimal digit `k` places
      in from the right, and 0 past the most significant digit. */
  lemma {:induction false} DigitIsDecimalDigit(n: nat, k: nat)
    ensures Digit(n, k) == if k < |DecimalDigits(n)| then DecimalDigits(n)[k] else 0
  {
    QuotRemNonNegative(n, 10);
    if k == 0 {
      QuotRemNonNegative(n, 1);
    } else {
      DigitShift(n, k - 1);
      if n < 10 {
        assert Quot(n, 10) == 0;
        assert Quot(0, Pow10(k - 1)) == 0;
      } else {
        DigitIsDecimalDigit(n / 10, k - 1);
      }
    }
  }

  /** The values worked out in the page's comments and its index ruler. */
  lemma SubscriptExamples()
    ensures Digit(123456789, 0) == 9 && Digit(123456789, 1) == 8
    ensures Digit(746381295, 0) == 5 && Digit(746381295, 1) == 9
    ensures Digit(746381295, 2) == 2 && Digit(746381295, 8) == 7
  {
  }

  // ---------------------------------------------------------------------------
  // enum Kind / var kind

  datatype Kind = Negative | Zero | Positive

  /** The sign of an `Int`: every value falls in exactly one case. */
  function KindOf(n: Int64): (k: Kind)
    ensures k == Zero <==> n == 0
    ensures k == Positive <==> n > 0
    ensures k == Negative <==> n < 0
  {
    if n == 0 then Zero
    else if n > 0 then Positive
    else Negative
  }

  /** A squared value is never `.negative`; it is `.zero` only for zero. */
  lemma SquareKind(x: Int64)
    requires InRange(x as int * x as int)
    ensures KindOf(x * x) == if x == 0 then Zero else Positive
  {
  }

  // ---------------------------------------------------------------------------
  // printIntegerKinds(_:)

  /** The token printed for one kind. */
  function Glyph(k: Kind): (s: string)
    ensures |s| == 2 && s[1] == ' '
  {
    match k
    case Negative => "- "
    case Zero => "0 "
    case Positive => "+ "
  }

  function Kinds(numbers: seq<Int64>): (ks: seq<Kind>)
    ensures |ks| == |numbers|
    ensures forall i :: 0 <= i < |numbers| ==> ks[i] == KindOf(numbers[i])
  {
    if numbers == [] then [] else [KindOf(numbers[0])] + Kinds(numbers[1..])
  }

  /** One two-character token per kind, in order. */
  function Glyphs(ks: seq<Kind>): (s: string)
    ensures |s| == 2 * |ks|
  {
    if ks == [] then "" else Glyph(ks[0]) + Glyphs(ks[1..])
  }

  lemma {:induction false} GlyphsAt(ks: seq<Kind>, i: nat)
    requires i < |ks|
    ensures Glyphs(ks)[2 * i..2 * i + 2] == Glyph(ks[i])
  {
    if i > 0 {
      GlyphsAt(ks[1..], i - 1);
      assert Glyphs(ks)[2 * i..2 * i + 2] == Glyphs(ks[1..])[2 * (i - 1)..2 * (i - 1) + 2];
    }
  }

  /** The text `printIntegerKinds` prints before its final line break. */
  function RenderKinds(numbers: seq<Int64>): (s: string)
    ensures |s| == 2 * |numbers|
  {
    Glyphs(Kinds(numbers))
  }

  /** The token at place `i` of the rendering is the glyph of the kind of
      `numbers[i]`: `- `, `0 ` or `+ `. */
  lemma RenderKindsTokens(numbers: seq<Int64>, i: nat)
    requires i < |numbers|
    ensures RenderKinds(numbers)[2 * i..2 * i + 2] == Glyph(KindOf(numbers[i]))
  {
    GlyphsAt(Kinds(numbers), i);
  }

  lemma {:induction false} GlyphsAppend(a: seq<Kind>, b: seq<Kind>)
    ensures Glyphs(a + b) == Glyphs(a) + Glyphs(b)
  {
    if a != [] {
      GlyphsAppend(a[1..], b);
      assert (a + b)[0] == a[0];
      assert (a + b)[1..] == a[1..] + b;
      calc {
        Glyphs(a + b);
        Glyph(a[0]) + Glyphs(a[1..] + b);
        Glyph(a[0]) + (Glyphs(a[1..]) + Glyphs(b));
        (Glyph(a[0]) + Glyphs(a[1..])) + Glyphs(b);
      }
    } else {
      assert a + b == b;
    }
  }

  /** Reads the tokens back; fails on text that is not a run of tokens. */
  function ParseGlyphs(s: string): Option<seq<Kind>> {
    if s == [] then Some([])
    else if |s| < 2 || s[1] != ' ' then None
    else
      var head :=
        if s[0] == '-' then Some(Negative)
        else if s[0] == '0' then Some(Zero)
        else if s[0] == '+' then Some(Positive)
        else None;
      match (head, ParseGlyphs(s[2..]))
      case (Some(k), Some(ks)) => Some([k] + ks)
      case _ => None
  }

  /** Rendering loses nothing: the printed tokens give back the kinds. */
  lemma {:induction false} ParseRendered(ks: seq<Kind>)
    ensures ParseGlyphs(Glyphs(ks)) == Some(ks)
  {
    if ks != [] {
      ParseRendered(ks[1..]);
      assert Glyphs(ks)[2..] == Glyphs(ks[1..]);
      assert [ks[0]] + ks[1..] == ks;
    }
  }

  /** And only rendered text parses: a parse result renders back to the text. */
  lemma {:induction false} RenderParsed(s: string, ks: seq<Kind>)
    requires ParseGlyphs(s) == Some(ks)
    ensures Glyphs(ks) == s
  {
    if s != [] {
      var rest :| ParseGlyphs(s[2..]) == Some(rest) && ks == [ks[0]] + rest;
      RenderParsed(s[2..], rest);
      assert ks[1..] == rest;
      assert s == s[..2] + s[2..];
    }
  }

  /** The loop of `printIntegerKinds`: one token per number, in input order,
      then the line break of the closing `print("")`. */
  method PrintIntegerKinds(numbers: seq<Int64>) returns (output: string)
    ensures output == RenderKinds(numbers) + "\n"
  {
    output := "";
    for i := 0 to |numbers|
      invariant output == Glyphs(Kinds(numbers[..i]))
    {
      match KindOf(numbers[i]) {
        case Negative =>
          output := output + "- ";
        case Zero =>
          output := output + "0 ";
        case Positive =>
          output := output + "+ ";
      }
      GlyphsAppend(Kinds(numbers[..i]), [KindOf(numbers[i])]);
      assert Kinds(numbers[..i + 1]) == Kinds(numbers[..i]) + [KindOf(numbers[i])];
    }
    assert numbers[..|numbers|] == numbers;
    output := output + "\n";
  }

  /** The page's own call prints `+ + - 0 - 0 + ` and a line break. */
  lemma RenderExample()
    ensures RenderKinds([3, 19, -27, 0, -6, 0, 7]) == "+ + - 0 - 0 + "
  {
  }
}
