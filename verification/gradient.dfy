/**
 * The colour gradient of the traversal visualisation: `n` colours from dark
 * blue (0, 0, 139) to light blue (173, 216, 230), each channel interpolated
 * linearly and truncated, written as '#' and three two-digit lower-case hex
 * numbers.
 */
module Gradients {
  import opened Wrappers

  /** The interpolation divides by `n - 1`, which is zero for a single colour. */
  datatype Error = ZeroDivisionError

  /** A colour's three channels. */
  datatype Rgb = Rgb(r: nat, g: nat, b: nat)

  const Start: Rgb := Rgb(0, 0, 139)
  const Stop: Rgb := Rgb(173, 216, 230)

  const HexDigits: string := "0123456789abcdef"

  /**
   * Channel value `i` of `n`: the weighted mean of `lo` and `hi` with weights
   * `n - 1 - i` and `i`, truncated. The numerator is never negative, so
   * truncation is the floor division used here.
   */
  function Channel(lo: nat, hi: nat, i: nat, n: nat): (c: nat)
    requires 2 <= n && i < n
    ensures (n - 1) * c <= lo * (n - 1 - i) + hi * i < (n - 1) * c + (n - 1)
  {
    var below, above := lo * (n - 1 - i), hi * i;
    assert 0 <= below && 0 <= above by { MulNonnegative(lo, n - 1 - i); MulNonnegative(hi, i); }
    (below + above) / (n - 1)
  }

  lemma MulNonnegative(a: nat, b: nat)
    ensures 0 <= a * b
  {
  }

  /**
   * Colour `i` of a gradient of `n`, as channel values. Each channel lies
   * between its start and stop value, so it is a byte.
   */
  function ColorAt(i: nat, n: nat): (c: Rgb)
    requires 2 <= n && i < n
    ensures Start.r <= c.r <= Stop.r && Start.g <= c.g <= Stop.g && Start.b <= c.b <= Stop.b
    ensures c.r < 256 && c.g < 256 && c.b < 256
  {
    ChannelBounds(Start.r, Stop.r, i, n);
    ChannelBounds(Start.g, Stop.g, i, n);
    ChannelBounds(Start.b, Stop.b, i, n);
    Rgb(Channel(Start.r, Stop.r, i, n), Channel(Start.g, Stop.g, i, n), Channel(Start.b, Stop.b, i, n))
  }

  /** Two lower-case hex digits of a byte, zero-padded. */
  function Hex2(v: nat): (s: string)
    requires v < 256
    ensures |s| == 2
  {
    [HexDigits[v / 16], HexDigits[v % 16]]
  }

  /** The `#rrggbb` text of a colour whose channels are bytes. */
  function Format(c: Rgb): (s: string)
    requires c.r < 256 && c.g < 256 && c.b < 256
    ensures |s| == 7 && s[0] == '#'
  {
    "#" + Hex2(c.r) + Hex2(c.g) + Hex2(c.b)
  }

  /** The value of a lower-case hex digit. */
  function HexValue(ch: char): Option<nat>
  {
    if '0' <= ch <= '9' then Some(ch as int - '0' as int)
    else if 'a' <= ch <= 'f' then Some(ch as int - 'a' as int + 10)
    else None
  }

  /** The byte written by two hex digits. */
  function ParseHex2(s: string): Option<nat>
    requires |s| == 2
  {
    match (HexValue(s[0]), HexValue(s[1]))
    case (Some(h), Some(l)) => Some(16 * h + l)
    case _ => None
  }

  /** Reads a `#rrggbb` colour back; `None` for anything else. */
  function ParseColor(s: string): Option<Rgb>
  {
    if |s| != 7 || s[0] != '#' then None
    else match (ParseHex2(s[1..3]), ParseHex2(s[3..5]), ParseHex2(s[5..7]))
      case (Some(r), Some(g), Some(b)) => Some(Rgb(r, g, b))
      case _ => None
  }

  /** `#` followed by six lower-case hex digits. */
  predicate WellFormed(s: string)
  {
    |s| == 7 && s[0] == '#' && forall k :: 1 <= k < 7 ==> s[k] in HexDigits
  }

  /** Reading two written hex digits gives the byte back. */
  lemma Hex2RoundTrip(v: nat)
    requires v < 256
    ensures ParseHex2(Hex2(v)) == Some(v)
  {
    var hi, lo := v / 16, v % 16;
    assert HexValue(HexDigits[hi]) == Some(hi);
    assert HexValue(HexDigits[lo]) == Some(lo);
  }

  /** A formatted colour is well formed and reads back as the same channels. */
  lemma FormatRoundTrip(c: Rgb)
    requires c.r < 256 && c.g < 256 && c.b < 256
    ensures WellFormed(Format(c))
    ensures ParseColor(Format(c)) == Some(c)
  {
    var s := Format(c);
    assert s[1..3] == Hex2(c.r) && s[3..5] == Hex2(c.g) && s[5..7] == Hex2(c.b);
    forall k | 1 <= k < 7 ensures s[k] in HexDigits {
      var v := if k < 3 then c.r else if k < 5 then c.g else c.b;
      var d := if k % 2 == 1 then v / 16 else v % 16;
      assert s[k] == HexDigits[d];
    }
    Hex2RoundTrip(c.r);
    Hex2RoundTrip(c.g);
    Hex2RoundTrip(c.b);
  }

  /** Multiplying by a natural number keeps the order. */
  lemma MulMonotone(d: nat, a: nat, b: nat)
    requires a <= b
    ensures d * a <= d * b
  {
    assert d * b == d * a + d * (b - a);
  }

  /** `q` is the floor quotient of `x` by `d` when `d * q <= x < d * (q + 1)`. */
  lemma DivIsUnique(x: nat, d: nat, q: nat)
    requires 0 < d && d * q <= x < d * q + d
    ensures x / d == q
  {
    var q' := x / d;
    assert d * q' <= x < d * q' + d;
    if q' < q {
      MulMonotone(d, q' + 1, q);
      assert false;
    } else if q < q' {
      MulMonotone(d, q + 1, q');
      assert false;
    }
  }

  /** Floor division by a positive number is monotone. */
  lemma DivMonotone(x: nat, y: nat, d: nat)
    requires 0 < d && x <= y
    ensures x / d <= y / d
  {
    var qx, qy := x / d, y / d;
    assert d * qx <= x && y < d * qy + d;
    if qy < qx {
      MulMonotone(d, qy + 1, qx);
      assert false;
    }
  }

  /** A multiple of `d` divided by `d` gives the factor back. */
  lemma MulDivCancel(k: nat, d: nat)
    requires 0 < d
    ensures (k * d) / d == k
  {
    DivIsUnique(k * d, d, k);
  }

  /** The interpolation numerator, rewritten as a start plus a non-negative step. */
  lemma Numerator(lo: nat, hi: nat, i: nat, d: nat)
    requires i <= d && lo <= hi
    ensures lo * (d - i) + hi * i == lo * d + (hi - lo) * i
    ensures (hi - lo) * i <= (hi - lo) * d
  {
    assert lo * (d - i) == lo * d - lo * i;
    assert hi * i == lo * i + (hi - lo) * i;
  }

  /** A channel lies between its two ends, and it is exactly `lo` first and `hi` last. */
  lemma ChannelBounds(lo: nat, hi: nat, i: nat, n: nat)
    requires 2 <= n && i < n && lo <= hi
    ensures lo <= Channel(lo, hi, i, n) <= hi
    ensures Channel(lo, hi, 0, n) == lo && Channel(lo, hi, n - 1, n) == hi
  {
    var d := n - 1;
    Numerator(lo, hi, i, d);
    Numerator(lo, hi, 0, d);
    Numerator(lo, hi, d, d);
    var x := lo * (d - i) + hi * i;
    assert lo * d + (hi - lo) * d == hi * d;
    MulDivCancel(lo, d);
    MulDivCancel(hi, d);
    DivMonotone(lo * d, x, d);
    DivMonotone(x, hi * d, d);
  }

  /** Along the gradient a channel never decreases when `lo <= hi`. */
  lemma ChannelMonotone(lo: nat, hi: nat, i: nat, j: nat, n: nat)
    requires 2 <= n && i <= j < n && lo <= hi
    ensures Channel(lo, hi, i, n) <= Channel(lo, hi, j, n)
  {
    var d := n - 1;
    NumeratorMonotone(lo, hi, i, j, d);
    DivMonotone(lo * (d - i) + hi * i, lo * (d - j) + hi * j, d);
  }

  /** The interpolation numerator grows with the position when `lo <= hi`. */
  lemma NumeratorMonotone(lo: nat, hi: nat, i: nat, j: nat, d: nat)
    requires i <= j <= d && lo <= hi
    ensures lo * (d - i) + hi * i <= lo * (d - j) + hi * j
  {
    Numerator(lo, hi, i, d);
    Numerator(lo, hi, j, d);
    Numerator(lo, hi, i, j);
  }

  /** The gradient runs from `#00008b` to `#add8e6`, each channel never decreasing. */
  lemma GradientShape(n: nat)
    requires 2 <= n
    ensures ColorAt(0, n) == Start && ColorAt(n - 1, n) == Stop
    ensures Format(Start) == "#00008b" && Format(Stop) == "#add8e6"
    ensures forall i, j :: 0 <= i <= j < n ==>
      var a, b := ColorAt(i, n), ColorAt(j, n);
      a.r <= b.r && a.g <= b.g && a.b <= b.b
  {
    ChannelBounds(Start.r, Stop.r, 0, n);
    ChannelBounds(Start.g, Stop.g, 0, n);
    ChannelBounds(Start.b, Stop.b, 0, n);
    forall i, j | 0 <= i <= j < n
      ensures ColorAt(i, n).r <= ColorAt(j, n).r && ColorAt(i, n).g <= ColorAt(j, n).g
           && ColorAt(i, n).b <= ColorAt(j, n).b
    {
      ChannelMonotone(Start.r, Stop.r, i, j, n);
      ChannelMonotone(Start.g, Stop.g, i, j, n);
      ChannelMonotone(Start.b, Stop.b, i, j, n);
    }
    assert Hex2(139) == "8b" && Hex2(173) == "ad" && Hex2(216) == "d8" && Hex2(230) == "e6";
  }

  /** The text of colour `i` of `n`. */
  function ColorString(i: nat, n: nat): string
    requires 2 <= n && i < n
  {
    Format(ColorAt(i, n))
  }

  /** The text of colour `i` is well formed and reads back as `ColorAt(i, n)`. */
  lemma ColorStringMeaning(i: nat, n: nat)
    requires 2 <= n && i < n
    ensures WellFormed(ColorString(i, n)) && ParseColor(ColorString(i, n)) == Some(ColorAt(i, n))
  {
    FormatRoundTrip(ColorAt(i, n));
  }

  /** `s` is the well-formed text of colour `i` of a gradient of `n`. */
  predicate IsGradientColor(s: string, i: nat, n: int)
  {
    2 <= n && i < n && WellFormed(s) && ParseColor(s) == Some(ColorAt(i, n))
  }

  /** A list of colour texts built from `ColorString` holds well-formed gradient colours. */
  lemma GradientMeaning(colors: seq<string>, n: int)
    requires colors != [] ==> 2 <= n && |colors| <= n
    requires forall k :: 0 <= k < |colors| ==> colors[k] == ColorString(k, n)
    ensures forall k :: 0 <= k < |colors| ==> IsGradientColor(colors[k], k, n)
  {
    forall k | 0 <= k < |colors| ensures IsGradientColor(colors[k], k, n) {
      ColorStringMeaning(k, n);
    }
  }

  /**
   * `n` colours, the `i`-th written from `ColorAt(i, n)`. No colours for
   * `n <= 0`; a single colour divides by zero.
   */
  method GenerateGradient(n: int) returns (r: Result<seq<string>, Error>)
    ensures r.Failure? <==> n == 1
    ensures r.Success? ==> |r.value| == if n < 0 then 0 else n
    ensures r.Success? ==> forall i :: 0 <= i < |r.value| ==> IsGradientColor(r.value[i], i, n)
  {
    var colors: seq<string> := [];
    var i := 0;
    while i < n
      invariant 0 <= i <= (if n < 0 then 0 else n) && |colors| == i
      invariant i > 0 ==> 2 <= n
      invariant forall k :: 0 <= k < i ==> colors[k] == ColorString(k, n)
    {
      if n - 1 == 0 {
        return Failure(ZeroDivisionError);
      }
      colors := colors + [ColorString(i, n)];
      i := i + 1;
    }
    GradientMeaning(colors, n);
    return Success(colors);
  }
}
