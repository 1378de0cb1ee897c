/**
 * `ColorGrammar`: a color written as `#rrggbb`, `#rgb`, `rgb(r, g, b)` or `rgba(r, g, b, a)`,
 * case-insensitively, with spaces allowed between the tokens of the functional forms.
 */
module Colors {
  import opened Lexing
  import opened Numbers
  import opened HexTables

  /** `RGBA_Attr`: red, green, blue and alpha. */
  datatype Color = Color(r: real, g: real, b: real, a: real)

  /** Every component lies in [0, 1]. */
  predicate Normalized(c: Color) {
    InUnitRange(c.r) && InUnitRange(c.g) && InUnitRange(c.b) && InUnitRange(c.a)
  }

  /** `n` hex digits, of either case, start at `from`. */
  predicate HexRun(s: string, from: nat, n: nat) {
    from + n <= |s| && forall i | from <= i < from + n :: IsHexDigit(s[i])
  }

  /** The byte spelt by two hex digits, as a component. */
  function PairValue(hi: char, lo: char): (v: real)
    requires IsHexDigit(hi) && IsHexDigit(lo)
    ensures InUnitRange(v)
  {
    ByteToReal(16 * HexValue(hi) + HexValue(lo))
  }

  /** A `hex1` digit is worth the byte that repeats it. */
  lemma {:induction false} DoubledDigit(c: char)
    requires IsHexDigit(c)
    ensures ByteToReal(17 * HexValue(c)) == PairValue(c, c)
  {
    var b := 16 * HexValue(c) + HexValue(c);
    assert b == 17 * HexValue(c);
  }

  // ---------------------------------------------------------------------------------
  // The rules.

  /** `hex_long_expr`: `#` and three `hex2` pairs with nothing skipped between them; alpha
      is 1. */
  function HexLong(s: string, pos: nat): (r: Result<Color>)
    requires pos <= |s|
    ensures r.Success? ==> r.pos == SkipSpace(s, pos) + 7 <= |s| && Normalized(r.value) && r.value.a == 1.0
  {
    var sharp := Lit(s, pos, "#");
    if sharp.Failure? then Failure else
    var red := ParseHex2(s, sharp.pos);
    if red.Failure? then Failure else
    var green := ParseHex2(s, red.pos);
    if green.Failure? then Failure else
    var blue := ParseHex2(s, green.pos);
    if blue.Failure? then Failure else
    Success(Color(red.value, green.value, blue.value, 1.0), blue.pos)
  }

  /** `hex_short_expr`: `#` and three `hex1` digits; alpha is 1. */
  function HexShort(s: string, pos: nat): (r: Result<Color>)
    requires pos <= |s|
    ensures r.Success? ==> r.pos == SkipSpace(s, pos) + 4 <= |s| && Normalized(r.value) && r.value.a == 1.0
  {
    var sharp := Lit(s, pos, "#");
    if sharp.Failure? then Failure else
    var red := ParseHex1(s, sharp.pos);
    if red.Failure? then Failure else
    var green := ParseHex1(s, red.pos);
    if green.Failure? then Failure else
    var blue := ParseHex1(s, green.pos);
    if blue.Failure? then Failure else
    Success(Color(red.value, green.value, blue.value, 1.0), blue.pos)
  }

  /** `#` after the leading spaces is the only way into either hexadecimal form. */
  lemma {:induction false} SharpAt(s: string, pos: nat)
    requires pos <= |s|
    ensures var p := SkipSpace(s, pos);
      Lit(s, pos, "#") == if p < |s| && s[p] == '#' then Success((), p + 1) else Failure
  {
    var p := SkipSpace(s, pos);
    if p < |s| {
      assert MatchesAt(s, p, "#") <==> ToLower(s[p]) == "#"[0];
    }
  }

  /** The long form matches exactly when `#` and six hex digits of either case follow the
      leading spaces, and each pair of digits gives one component. */
  lemma {:induction false} HexLongReads(s: string, pos: nat)
    requires pos <= |s|
    ensures var p := SkipSpace(s, pos);
      HexLong(s, pos).Success? <==> p < |s| && s[p] == '#' && HexRun(s, p + 1, 6)
    ensures var p := SkipSpace(s, pos);
      HexLong(s, pos).Success? ==> HexLong(s, pos).value == Color(PairValue(s[p + 1], s[p + 2]),
        PairValue(s[p + 3], s[p + 4]), PairValue(s[p + 5], s[p + 6]), 1.0)
  {
    HexLongNeedsRun(s, pos);
    var p := SkipSpace(s, pos);
    if p < |s| && s[p] == '#' && HexRun(s, p + 1, 6) {
      HexLongOnRun(s, pos);
    }
  }

  /** The long form only matches `#` and six hex digits. */
  lemma {:induction false} HexLongNeedsRun(s: string, pos: nat)
    requires pos <= |s|
    ensures var p := SkipSpace(s, pos);
      HexLong(s, pos).Success? ==> p < |s| && s[p] == '#' && HexRun(s, p + 1, 6)
  {
    var p := SkipSpace(s, pos);
    SharpAt(s, pos);
    if HexLong(s, pos).Success? {
      assert ParseHex2(s, p + 1).Success?;
      assert ParseHex2(s, p + 3).Success?;
      assert ParseHex2(s, p + 5).Success?;
      assert HexRun(s, p + 1, 6) by {
        forall i | p + 1 <= i < p + 7 ensures IsHexDigit(s[i]) {
          assert i in {p + 1, p + 2, p + 3, p + 4, p + 5, p + 6};
        }
      }
    }
  }

  /** `#` and six hex digits are read as the long form, pair by pair. */
  lemma {:induction false} HexLongOnRun(s: string, pos: nat)
    requires pos <= |s|
    requires SkipSpace(s, pos) < |s| && s[SkipSpace(s, pos)] == '#' && HexRun(s, SkipSpace(s, pos) + 1, 6)
    ensures var p := SkipSpace(s, pos);
      HexLong(s, pos) == Success(Color(PairValue(s[p + 1], s[p + 2]),
        PairValue(s[p + 3], s[p + 4]), PairValue(s[p + 5], s[p + 6]), 1.0), p + 7)
  {
    var p := SkipSpace(s, pos);
    SharpAt(s, pos);
    assert IsHexDigit(s[p + 1]) && IsHexDigit(s[p + 2]) && IsHexDigit(s[p + 3]);
    assert IsHexDigit(s[p + 4]) && IsHexDigit(s[p + 5]) && IsHexDigit(s[p + 6]);
    assert ParseHex2(s, p + 1) == Success(PairValue(s[p + 1], s[p + 2]), p + 3);
    assert ParseHex2(s, p + 3) == Success(PairValue(s[p + 3], s[p + 4]), p + 5);
    assert ParseHex2(s, p + 5) == Success(PairValue(s[p + 5], s[p + 6]), p + 7);
  }

  /** The short form matches exactly when `#` and three hex digits of either case follow the
      leading spaces, and `#rgb` denotes the same color as `#rrggbb`. */
  lemma {:induction false} HexShortReads(s: string, pos: nat)
    requires pos <= |s|
    ensures var p := SkipSpace(s, pos);
      HexShort(s, pos).Success? <==> p < |s| && s[p] == '#' && HexRun(s, p + 1, 3)
    ensures var p := SkipSpace(s, pos);
      HexShort(s, pos).Success? ==> HexShort(s, pos).value == Color(PairValue(s[p + 1], s[p + 1]),
        PairValue(s[p + 2], s[p + 2]), PairValue(s[p + 3], s[p + 3]), 1.0)
  {
    var p := SkipSpace(s, pos);
    SharpAt(s, pos);
    if HexShort(s, pos).Success? {
      assert ParseHex1(s, p + 1).Success?;
      assert ParseHex1(s, p + 2).Success?;
      assert ParseHex1(s, p + 3).Success?;
      assert HexRun(s, p + 1, 3) by {
        forall i | p + 1 <= i < p + 4 ensures IsHexDigit(s[i]) {
          assert i in {p + 1, p + 2, p + 3};
        }
      }
    }
    if p < |s| && s[p] == '#' && HexRun(s, p + 1, 3) {
      assert IsHexDigit(s[p + 1]) && IsHexDigit(s[p + 2]) && IsHexDigit(s[p + 3]);
      HexShortValue(s, p + 1);
      assert ParseHex1(s, p + 1) == Success(PairValue(s[p + 1], s[p + 1]), p + 2);
      assert ParseHex1(s, p + 2) == Success(PairValue(s[p + 2], s[p + 2]), p + 3);
      assert ParseHex1(s, p + 3) == Success(PairValue(s[p + 3], s[p + 3]), p + 4);
    }
  }

  lemma {:induction false} HexShortValue(s: string, q: nat)
    requires HexRun(s, q, 3)
    ensures ByteToReal(17 * HexValue(s[q])) == PairValue(s[q], s[q])
    ensures ByteToReal(17 * HexValue(s[q + 1])) == PairValue(s[q + 1], s[q + 1])
    ensures ByteToReal(17 * HexValue(s[q + 2])) == PairValue(s[q + 2], s[q + 2])
  {
    DoubledDigit(s[q]);
    DoubledDigit(s[q + 1]);
    DoubledDigit(s[q + 2]);
  }

  /** `hex_expr`: the long form, else the short form. */
  function HexExpr(s: string, pos: nat): (r: Result<Color>)
    requires pos <= |s|
    ensures r.Success? ==> Normalized(r.value) && r.value.a == 1.0
    ensures r.Success? ==> r.pos == SkipSpace(s, pos) + 7 || r.pos == SkipSpace(s, pos) + 4
  {
    var long := HexLong(s, pos);
    if long.Success? then long else HexShort(s, pos)
  }

  /** `double_[check_RGBA_component] % ','` for exactly `n` components: each must lie in
      [0, 1], or the whole list fails. */
  function Channels(s: string, pos: nat, n: nat): (r: Result<seq<real>>)
    requires pos <= |s| && n >= 1
    ensures r.Success? ==> pos < r.pos <= |s| && |r.value| == n
    ensures r.Success? ==> forall i | 0 <= i < n :: InUnitRange(r.value[i])
    decreases n
  {
    var v := UnitDouble(s, pos);
    if v.Failure? then Failure
    else if n == 1 then Success([v.value], v.pos)
    else
      var comma := Lit(s, v.pos, ",");
      if comma.Failure? then Failure else
      var rest := Channels(s, comma.pos, n - 1);
      if rest.Failure? then Failure else Success([v.value] + rest.value, rest.pos)
  }

  /** `rgb_expr`: `rgb(`, three checked components, `)`; alpha is 1. */
  function RgbExpr(s: string, pos: nat): (r: Result<Color>)
    requires pos <= |s|
    ensures r.Success? ==> SkipSpace(s, pos) < r.pos <= |s| && Normalized(r.value) && r.value.a == 1.0
  {
    var name := Lit(s, pos, "rgb");
    if name.Failure? then Failure else
    var left := Lit(s, name.pos, "(");
    if left.Failure? then Failure else
    var cs := Channels(s, left.pos, 3);
    if cs.Failure? then Failure else
    var right := Lit(s, cs.pos, ")");
    if right.Failure? then Failure else
    Success(Color(cs.value[0], cs.value[1], cs.value[2], 1.0), right.pos)
  }

  /** `rgba_expr`: `rgba(`, four checked components, `)`. */
  function RgbaExpr(s: string, pos: nat): (r: Result<Color>)
    requires pos <= |s|
    ensures r.Success? ==> SkipSpace(s, pos) < r.pos <= |s| && Normalized(r.value)
  {
    var name := Lit(s, pos, "rgba");
    if name.Failure? then Failure else
    var left := Lit(s, name.pos, "(");
    if left.Failure? then Failure else
    var cs := Channels(s, left.pos, 4);
    if cs.Failure? then Failure else
    var right := Lit(s, cs.pos, ")");
    if right.Failure? then Failure else
    Success(Color(cs.value[0], cs.value[1], cs.value[2], cs.value[3]), right.pos)
  }

  /** `color`: the first of `hex_expr`, `rgb_expr` and `rgba_expr` that matches. Whatever
      form it reads, every component of the result lies in [0, 1]. */
  function ColorRule(s: string, pos: nat): (r: Result<Color>)
    requires pos <= |s|
    ensures r.Success? ==> SkipSpace(s, pos) < r.pos <= |s| && Normalized(r.value)
  {
    var hex := HexExpr(s, pos);
    if hex.Success? then hex else
    var rgb := RgbExpr(s, pos);
    if rgb.Success? then rgb else RgbaExpr(s, pos)
  }

  /** `ColorGrammar::parse`: `phrase_parse` of `color` with the space skipper from `first`.
      On success the iterator ends past the color and the spaces after it. On failure it
      ends past the leading spaces, which the `lexeme` of `hex_long_expr`, the first
      alternative tried, skips on the caller's iterator. */
  method ParseColor(s: string, first: nat, value: Color) returns (ok: bool, next: nat, result: Color)
    requires first <= |s|
    ensures ok <==> ColorRule(s, first).Success?
    ensures ok ==> result == ColorRule(s, first).value && Normalized(result)
    ensures ok ==> next == SkipSpace(s, ColorRule(s, first).pos)
    ensures !ok ==> next == SkipSpace(s, first)
  {
    var r := ColorRule(s, first);
    if r.Success? {
      ok, result := true, r.value;
      next := SkipOver(s, r.pos);
    } else {
      ok, result := false, value;
      next := SkipOver(s, first);
    }
  }

  // ---------------------------------------------------------------------------------
  // Color literals as written, and what they denote.

  /** A color literal in one of the four forms, with no spaces inside. */
  datatype Literal =
    | LongHex(digits: string)
    | ShortHex(digits: string)
    | Rgb(channels: seq<Decimal>)
    | Rgba(channels: seq<Decimal>)

  predicate AllHex(t: string) {
    forall i | 0 <= i < |t| :: IsHexDigit(t[i])
  }

  predicate AllWellFormed(cs: seq<Decimal>)
    decreases |cs|
  {
    |cs| == 0 || (DecimalWellFormed(cs[0]) && AllWellFormed(cs[1..]))
  }

  predicate LiteralWellFormed(l: Literal) {
    match l
    case LongHex(t) => |t| == 6 && AllHex(t)
    case ShortHex(t) => |t| == 3 && AllHex(t)
    case Rgb(cs) => |cs| == 3 && AllWellFormed(cs)
    case Rgba(cs) => |cs| == 4 && AllWellFormed(cs)
  }

  /** The components, separated by commas. */
  function ChannelsText(cs: seq<Decimal>): string
    requires |cs| >= 1
  {
    if |cs| == 1 then DecimalText(cs[0]) else DecimalText(cs[0]) + "," + ChannelsText(cs[1..])
  }

  function LiteralText(l: Literal): string
    requires LiteralWellFormed(l)
  {
    match l
    case LongHex(t) => "#" + t
    case ShortHex(t) => "#" + t
    case Rgb(cs) => FunctionalText("rgb", cs)
    case Rgba(cs) => FunctionalText("rgba", cs)
  }

  /** A functional form: its name, then its components in parentheses. */
  function FunctionalText(name: string, cs: seq<Decimal>): string
    requires |cs| >= 1
  {
    name + ("(" + (ChannelsText(cs) + ")"))
  }

  function ChannelValues(cs: seq<Decimal>): (vs: seq<real>)
    requires AllWellFormed(cs)
    ensures |vs| == |cs|
    decreases |cs|
  {
    if |cs| == 0 then [] else [DecimalValue(cs[0])] + ChannelValues(cs[1..])
  }

  predicate AllInRange(cs: seq<Decimal>)
    requires AllWellFormed(cs)
    decreases |cs|
  {
    |cs| == 0 || (InUnitRange(DecimalValue(cs[0])) && AllInRange(cs[1..]))
  }

  /** Every component of a functional form lies in [0, 1]; hexadecimal forms always do. */
  predicate InRange(l: Literal)
    requires LiteralWellFormed(l)
  {
    match l
    case LongHex(_) => true
    case ShortHex(_) => true
    case Rgb(cs) => AllInRange(cs)
    case Rgba(cs) => AllInRange(cs)
  }

  /** The color a literal denotes: each hex pair is a byte over 255, a short form is read as
      the long form that doubles each digit, and alpha is 1 unless given. */
  function Meaning(l: Literal): Color
    requires LiteralWellFormed(l)
  {
    match l
    case LongHex(t) => LongHexColor(t)
    case ShortHex(t) => ShortHexColor(t)
    case Rgb(cs) => FunctionalColor(ChannelValues(cs))
    case Rgba(cs) => FunctionalColor(ChannelValues(cs))
  }

  /** What reading a literal written at `p` yields: the color it denotes and the position
      right after it, or no match when a component lies outside [0, 1]. */
  function Reading(l: Literal, p: nat): Result<Color>
    requires LiteralWellFormed(l)
  {
    if InRange(l) then Success(Meaning(l), p + |LiteralText(l)|) else Failure
  }

  /** A functional form once its components have been read: the color they give, and the
      position after the closing `)`. */
  function Closed(v: Result<seq<real>>): Result<Color>
    requires v.Success? ==> 3 <= |v.value| <= 4
  {
    if v.Success? then Success(FunctionalColor(v.value), v.pos + 1) else Failure
  }

  function LongHexColor(t: string): Color
    requires |t| == 6 && AllHex(t)
  {
    Color(PairValue(t[0], t[1]), PairValue(t[2], t[3]), PairValue(t[4], t[5]), 1.0)
  }

  function ShortHexColor(t: string): Color
    requires |t| == 3 && AllHex(t)
  {
    Color(PairValue(t[0], t[0]), PairValue(t[1], t[1]), PairValue(t[2], t[2]), 1.0)
  }

  function FunctionalColor(v: seq<real>): Color
    requires 3 <= |v| <= 4
  {
    Color(v[0], v[1], v[2], if |v| == 4 then v[3] else 1.0)
  }

  /** What may follow a literal so that the longest match ends with it: three more hex
      digits after a short form would make it a long one. */
  predicate LiteralEnds(s: string, e: nat, l: Literal) {
    l.ShortHex? ==> !HexRun(s, e, 3)
  }

  // ---------------------------------------------------------------------------------
  // Reading literals back.

  lemma {:induction false} TextCons(cs: seq<Decimal>)
    requires |cs| >= 2
    ensures ChannelsText(cs) + ")" == (DecimalText(cs[0]) + [',']) + (ChannelsText(cs[1..]) + ")")
  {
  }

  /** What reading one component written at `p` should give: its value and the position
      after it, or no match when the value lies outside [0, 1]. */
  function ChannelOutcome(d: Decimal, p: nat): Result<real>
    requires DecimalWellFormed(d)
  {
    if InUnitRange(DecimalValue(d)) then Success(DecimalValue(d), p + |DecimalText(d)|) else Failure
  }

  /** What reading the components written at `p` should give: their values and the position
      after the last one, or no match when one of them lies outside [0, 1]. */
  function ChannelsOutcome(cs: seq<Decimal>, p: nat): Result<seq<real>>
    requires |cs| >= 1 && AllWellFormed(cs)
  {
    if AllInRange(cs) then Success(ChannelValues(cs), p + |ChannelsText(cs)|) else Failure
  }

  /** One component written at `p`, followed by `,` or `)`, is read whole. */
  lemma {:induction false} ChannelReads(s: string, p: nat, d: Decimal, next: char)
    requires DecimalWellFormed(d) && (next == ',' || next == ')')
    requires At(s, p, DecimalText(d) + [next])
    ensures p + |DecimalText(d)| < |s| && s[p + |DecimalText(d)|] == next
    ensures UnitDouble(s, p) == ChannelOutcome(d, p)
  {
    var dt := DecimalText(d);
    DecimalTextStart(d);
    AtSplit(s, p, dt, [next]);
    assert s[p + 0] == dt[0];
    assert s[p + |dt| + 0] == [next][0];
    SkipNone(s, p);
    DoubleReadsDecimal(s, p, d);
  }

  lemma {:induction false} ChannelsLast(s: string, p: nat, cs: seq<Decimal>)
    requires |cs| == 1 && AllWellFormed(cs)
    requires At(s, p, ChannelsText(cs) + ")")
    ensures Channels(s, p, 1) == ChannelsOutcome(cs, p)
  {
    ChannelReads(s, p, cs[0], ')');
    assert AllInRange(cs[1..]);
    assert AllInRange(cs) == InUnitRange(DecimalValue(cs[0]));
    assert ChannelsText(cs) == DecimalText(cs[0]);
    assert ChannelValues(cs) == [DecimalValue(cs[0])];
  }

  /** How the list continues after its first component and a comma. */
  lemma {:induction false} ChannelsStep(s: string, p: nat, e: nat, n: nat)
    requires p <= e < |s| && n >= 2
    requires UnitDouble(s, p).Success? ==> UnitDouble(s, p).pos == e
    requires Lit(s, e, ",") == Success((), e + 1)
    ensures Channels(s, p, n)
         == if UnitDouble(s, p).Failure? || Channels(s, e + 1, n - 1).Failure? then Failure
            else Success([UnitDouble(s, p).value] + Channels(s, e + 1, n - 1).value,
                         Channels(s, e + 1, n - 1).pos)
  {
  }

  /** The list of components read one by one: the first, a comma, then the rest. */
  lemma {:induction false} ChannelsJoin(s: string, p: nat, e: nat, cs: seq<Decimal>)
    requires |cs| >= 2 && AllWellFormed(cs) && p <= e < |s|
    requires e == p + |DecimalText(cs[0])|
    requires |ChannelsText(cs)| == |DecimalText(cs[0])| + 1 + |ChannelsText(cs[1..])|
    requires UnitDouble(s, p) == ChannelOutcome(cs[0], p)
    requires Lit(s, e, ",") == Success((), e + 1)
    requires Channels(s, e + 1, |cs[1..]|) == ChannelsOutcome(cs[1..], e + 1)
    ensures Channels(s, p, |cs|) == ChannelsOutcome(cs, p)
  {
    assert |cs[1..]| == |cs| - 1;
    ChannelsStep(s, p, e, |cs|);
  }

  /** The first of several components written at `p` is read, then the comma after it. */
  lemma {:induction false} ChannelsHead(s: string, p: nat, cs: seq<Decimal>)
    requires |cs| >= 2 && AllWellFormed(cs)
    requires At(s, p, ChannelsText(cs) + ")")
    ensures p + |DecimalText(cs[0])| < |s|
    ensures UnitDouble(s, p) == ChannelOutcome(cs[0], p)
    ensures Lit(s, p + |DecimalText(cs[0])|, ",") == Success((), p + |DecimalText(cs[0])| + 1)
    ensures AllWellFormed(cs[1..])
    ensures At(s, p + |DecimalText(cs[0])| + 1, ChannelsText(cs[1..]) + ")")
    ensures |ChannelsText(cs)| == |DecimalText(cs[0])| + 1 + |ChannelsText(cs[1..])|
  {
    var d := cs[0];
    var e := p + |DecimalText(d)|;
    TextCons(cs);
    AtSplit(s, p, DecimalText(d) + [','], ChannelsText(cs[1..]) + ")");
    ChannelReads(s, p, d, ',');
    SkipNone(s, e);
    LitReads(s, e, ",");
  }

  /** A comma-separated list of components followed by `)` reads back their values, or fails
      when one of them lies outside [0, 1]. */
  lemma {:induction false} ChannelsRoundTrip(s: string, p: nat, cs: seq<Decimal>)
    requires |cs| >= 1 && AllWellFormed(cs)
    requires At(s, p, ChannelsText(cs) + ")")
    ensures Channels(s, p, |cs|) == ChannelsOutcome(cs, p)
    decreases |cs|
  {
    if |cs| == 1 {
      ChannelsLast(s, p, cs);
    } else {
      ChannelsHead(s, p, cs);
      ChannelsRoundTrip(s, p + |DecimalText(cs[0])| + 1, cs[1..]);
      ChannelsJoin(s, p, p + |DecimalText(cs[0])|, cs);
    }
  }

  /** The name of a functional form and its `(` are read in turn, ending `k` characters past
      the leading spaces. */
  predicate OpensAt(s: string, pos: nat, name: string, k: nat)
    requires pos <= |s|
  {
    && SkipSpace(s, pos) + k <= |s|
    && Lit(s, pos, name) == Success((), SkipSpace(s, pos) + |name|)
    && Lit(s, SkipSpace(s, pos) + |name|, "(") == Success((), SkipSpace(s, pos) + k)
  }

  /** The components of a functional form, written at `q`, are read back, then its `)`. */
  predicate ClosesAt(s: string, q: nat, cs: seq<Decimal>)
    requires q <= |s| && |cs| >= 1 && AllWellFormed(cs)
  {
    && Channels(s, q, |cs|) == ChannelsOutcome(cs, q)
    && (ChannelsOutcome(cs, q).Success? ==>
          Lit(s, ChannelsOutcome(cs, q).pos, ")") == Success((), ChannelsOutcome(cs, q).pos + 1))
  }

  /** The opening of `rgb(...)` or `rgba(...)`. */
  lemma {:induction false} FunctionalOpens(s: string, pos: nat, name: string, rest: string, k: nat)
    requires pos <= |s| && Keyword(name) && k == |name| + 1
    requires At(s, SkipSpace(s, pos), name + ("(" + rest))
    ensures OpensAt(s, pos, name, k)
    ensures At(s, SkipSpace(s, pos) + k, rest)
  {
    LitThen(s, pos, name, "(" + rest);
    assert s[SkipSpace(s, pos) + |name| + 0] == ("(" + rest)[0];
    SkipNone(s, SkipSpace(s, pos) + |name|);
    LitThen(s, SkipSpace(s, pos) + |name|, "(", rest);
  }

  /** A functional form starts with `r`, and its fourth character tells `rgb(` from `rgba`. */
  lemma {:induction false} FunctionalShape(s: string, pos: nat, l: Literal, name: string, cs: seq<Decimal>)
    requires pos <= |s| && LiteralWellFormed(l)
    requires (l == Rgb(cs) && name == "rgb") || (l == Rgba(cs) && name == "rgba")
    requires At(s, SkipSpace(s, pos), LiteralText(l))
    ensures SkipSpace(s, pos) + 3 < |s|
    ensures s[SkipSpace(s, pos)] == 'r'
    ensures s[SkipSpace(s, pos) + 3] == (if name == "rgb" then '(' else 'a')
  {
    var t := FunctionalText(name, cs);
    assert LiteralText(l) == t;
    assert s[SkipSpace(s, pos) + 0] == t[0];
    assert s[SkipSpace(s, pos) + 3] == t[3];
  }

  /** The components and the closing `)` of `rgb(...)` or `rgba(...)`. */
  lemma {:induction false} FunctionalCloses(s: string, q: nat, cs: seq<Decimal>)
    requires |cs| >= 1 && AllWellFormed(cs)
    requires At(s, q, ChannelsText(cs) + ")")
    ensures q <= |s| && ClosesAt(s, q, cs)
  {
    var body := ChannelsText(cs);
    ChannelsRoundTrip(s, q, cs);
    AtSplit(s, q, body, ")");
    assert s[q + |body| + 0] == ")"[0];
    SkipNone(s, q + |body|);
    LitReads(s, q + |body|, ")");
  }

  /** `rgb_expr` once its name and `(` have been read: it fails with its components and
      otherwise ends after the `)` that follows them. */
  lemma {:induction false} RgbAssemble(s: string, pos: nat, cs: seq<Decimal>, r: Result<Color>)
    requires pos <= |s| && |cs| == 3 && AllWellFormed(cs)
    requires FunctionalRead(s, pos, "rgb", cs, 4)
    requires Closed(ChannelsOutcome(cs, SkipSpace(s, pos) + 4)) == r
    ensures RgbExpr(s, pos) == r
  {
  }

  /** `rgba_expr` once its name and `(` have been read. */
  lemma {:induction false} RgbaAssemble(s: string, pos: nat, cs: seq<Decimal>, r: Result<Color>)
    requires pos <= |s| && |cs| == 4 && AllWellFormed(cs)
    requires FunctionalRead(s, pos, "rgba", cs, 5)
    requires Closed(ChannelsOutcome(cs, SkipSpace(s, pos) + 5)) == r
    ensures RgbaExpr(s, pos) == r
  {
  }

  /** What a functional form written at `p` yields, once its components have been read. */
  lemma {:induction false} FunctionalOutcome(p: nat, cs: seq<Decimal>, l: Literal, k: nat)
    requires (l == Rgb(cs) && k == 4) || (l == Rgba(cs) && k == 5)
    requires LiteralWellFormed(l)
    ensures Closed(ChannelsOutcome(cs, p + k)) == Reading(l, p)
  {
  }

  /** The names of the functional forms are matched wherever they are written. */
  lemma {:induction false} FunctionalKeywords()
    ensures Keyword("rgb") && Keyword("rgba")
  {
  }

  /** The name and `(` of a functional form are read, then its components and `)`. */
  predicate FunctionalRead(s: string, pos: nat, name: string, cs: seq<Decimal>, k: nat)
    requires pos <= |s| && |cs| >= 1 && AllWellFormed(cs)
  {
    OpensAt(s, pos, name, k) && SkipSpace(s, pos) + k <= |s| && ClosesAt(s, SkipSpace(s, pos) + k, cs)
  }

  /** The name, `(`, components and `)` of a functional form written after spaces are each
      read in turn. */
  lemma {:induction false} FunctionalReads(s: string, pos: nat, name: string, cs: seq<Decimal>, k: nat)
    requires pos <= |s| && Keyword(name) && k == |name| + 1 && |cs| >= 1 && AllWellFormed(cs)
    requires At(s, SkipSpace(s, pos), FunctionalText(name, cs))
    ensures FunctionalRead(s, pos, name, cs, k)
  {
    FunctionalOpens(s, pos, name, ChannelsText(cs) + ")", k);
    FunctionalCloses(s, SkipSpace(s, pos) + k, cs);
  }

  /** `rgb_expr` reads back a written `rgb(...)`, or rejects it for a component outside [0, 1]. */
  lemma {:induction false} RgbRoundTrip(s: string, pos: nat, cs: seq<Decimal>)
    requires pos <= |s| && |cs| == 3 && AllWellFormed(cs)
    requires At(s, SkipSpace(s, pos), LiteralText(Rgb(cs)))
    ensures RgbExpr(s, pos) == Reading(Rgb(cs), SkipSpace(s, pos))
  {
    FunctionalKeywords();
    FunctionalReads(s, pos, "rgb", cs, 4);
    RgbFinish(s, pos, cs);
  }

  /** `rgb_expr` once the text of an `rgb(...)` has been read piece by piece. */
  lemma {:induction false} RgbFinish(s: string, pos: nat, cs: seq<Decimal>)
    requires pos <= |s| && |cs| == 3 && AllWellFormed(cs)
    requires FunctionalRead(s, pos, "rgb", cs, 4)
    ensures RgbExpr(s, pos) == Reading(Rgb(cs), SkipSpace(s, pos))
  {
    FunctionalOutcome(SkipSpace(s, pos), cs, Rgb(cs), 4);
    RgbAssemble(s, pos, cs, Reading(Rgb(cs), SkipSpace(s, pos)));
  }

  /** `rgba_expr` reads back a written `rgba(...)`, or rejects it for a component outside
      [0, 1]. */
  lemma {:induction false} RgbaRoundTrip(s: string, pos: nat, cs: seq<Decimal>)
    requires pos <= |s| && |cs| == 4 && AllWellFormed(cs)
    requires At(s, SkipSpace(s, pos), LiteralText(Rgba(cs)))
    ensures RgbaExpr(s, pos) == Reading(Rgba(cs), SkipSpace(s, pos))
  {
    FunctionalKeywords();
    FunctionalReads(s, pos, "rgba", cs, 5);
    RgbaFinish(s, pos, cs);
  }

  /** `rgba_expr` once the text of an `rgba(...)` has been read piece by piece. */
  lemma {:induction false} RgbaFinish(s: string, pos: nat, cs: seq<Decimal>)
    requires pos <= |s| && |cs| == 4 && AllWellFormed(cs)
    requires FunctionalRead(s, pos, "rgba", cs, 5)
    ensures RgbaExpr(s, pos) == Reading(Rgba(cs), SkipSpace(s, pos))
  {
    FunctionalOutcome(SkipSpace(s, pos), cs, Rgba(cs), 5);
    RgbaAssemble(s, pos, cs, Reading(Rgba(cs), SkipSpace(s, pos)));
  }

  /** Where `rgb(` is written, the hexadecimal forms and `rgba_expr` fail. */
  lemma {:induction false} OnlyRgb(s: string, pos: nat)
    requires pos <= |s| && SkipSpace(s, pos) + 3 < |s|
    requires s[SkipSpace(s, pos)] == 'r' && s[SkipSpace(s, pos) + 3] == '('
    ensures HexExpr(s, pos).Failure? && RgbaExpr(s, pos).Failure?
  {
    LitMismatch(s, pos, "rgba", 3);
    SharpAt(s, pos);
  }

  /** Where `rgba` is written, the hexadecimal forms and `rgb_expr` fail. */
  lemma {:induction false} OnlyRgba(s: string, pos: nat)
    requires pos <= |s| && SkipSpace(s, pos) + 3 < |s|
    requires s[SkipSpace(s, pos)] == 'r' && s[SkipSpace(s, pos) + 3] == 'a'
    ensures HexExpr(s, pos).Failure? && RgbExpr(s, pos).Failure?
  {
    var p := SkipSpace(s, pos);
    if Lit(s, pos, "rgb").Success? {
      SkipNone(s, p + 3);
      LitMismatch(s, p + 3, "(", 0);
    }
    SharpAt(s, pos);
  }

  /** `#` and then the digits `t`, written at `p`, character by character. */
  lemma {:induction false} SharpDigits(s: string, p: nat, t: string)
    requires At(s, p, "#" + t)
    ensures p + 1 + |t| <= |s| && s[p] == '#'
    ensures forall i | 0 <= i < |t| :: s[p + 1 + i] == t[i]
  {
    AtSplit(s, p, "#", t);
    assert s[p + 0] == "#"[0];
  }

  /** Six hex digits after `#` are read as the long form. */
  lemma {:induction false} HexLongRoundTrip(s: string, pos: nat, t: string)
    requires pos <= |s| && |t| == 6 && AllHex(t)
    requires At(s, SkipSpace(s, pos), "#" + t)
    ensures HexExpr(s, pos) == Success(LongHexColor(t), SkipSpace(s, pos) + 7)
  {
    var p := SkipSpace(s, pos);
    SharpDigits(s, p, t);
    assert HexRun(s, p + 1, 6) by {
      forall i | p + 1 <= i < p + 7 ensures IsHexDigit(s[i]) {
        assert s[p + 1 + (i - p - 1)] == t[i - p - 1];
      }
    }
    assert s[p + 1 + 0] == t[0] && s[p + 1 + 1] == t[1] && s[p + 1 + 2] == t[2];
    assert s[p + 1 + 3] == t[3] && s[p + 1 + 4] == t[4] && s[p + 1 + 5] == t[5];
    HexLongReads(s, pos);
  }

  /** Three hex digits after `#`, not followed by three more, are read as the short form. */
  lemma {:induction false} HexShortRoundTrip(s: string, pos: nat, t: string)
    requires pos <= |s| && |t| == 3 && AllHex(t)
    requires At(s, SkipSpace(s, pos), "#" + t)
    requires !HexRun(s, SkipSpace(s, pos) + 4, 3)
    ensures HexExpr(s, pos) == Success(ShortHexColor(t), SkipSpace(s, pos) + 4)
  {
    var p := SkipSpace(s, pos);
    SharpDigits(s, p, t);
    assert HexRun(s, p + 1, 3) by {
      forall i | p + 1 <= i < p + 4 ensures IsHexDigit(s[i]) {
        assert s[p + 1 + (i - p - 1)] == t[i - p - 1];
      }
    }
    assert !HexRun(s, p + 1, 6);
    assert s[p + 1 + 0] == t[0] && s[p + 1 + 1] == t[1] && s[p + 1 + 2] == t[2];
    HexLongReads(s, pos);
    HexShortReads(s, pos);
  }

  /** Either hexadecimal form, written after spaces, reads back as the color it denotes. */
  lemma {:induction false} HexRoundTrip(s: string, pos: nat, l: Literal)
    requires pos <= |s| && (l.LongHex? || l.ShortHex?) && LiteralWellFormed(l)
    requires At(s, SkipSpace(s, pos), LiteralText(l))
    requires LiteralEnds(s, SkipSpace(s, pos) + |LiteralText(l)|, l)
    ensures HexExpr(s, pos) == Reading(l, SkipSpace(s, pos))
  {
    match l
    case LongHex(t) => HexLongRoundTrip(s, pos, t);
    case ShortHex(t) => HexShortRoundTrip(s, pos, t);
  }

  /** `color` on a written `rgb(...)`: the hexadecimal forms fail on it, and so does
      `rgba_expr`, so the result is that of `rgb_expr`. */
  lemma {:induction false} ColorRgbRoundTrip(s: string, pos: nat, cs: seq<Decimal>)
    requires pos <= |s| && |cs| == 3 && AllWellFormed(cs)
    requires At(s, SkipSpace(s, pos), LiteralText(Rgb(cs)))
    ensures ColorRule(s, pos) == Reading(Rgb(cs), SkipSpace(s, pos))
  {
    FunctionalShape(s, pos, Rgb(cs), "rgb", cs);
    OnlyRgb(s, pos);
    RgbRoundTrip(s, pos, cs);
  }

  /** `color` on a written `rgba(...)`: every earlier alternative fails on it. */
  lemma {:induction false} ColorRgbaRoundTrip(s: string, pos: nat, cs: seq<Decimal>)
    requires pos <= |s| && |cs| == 4 && AllWellFormed(cs)
    requires At(s, SkipSpace(s, pos), LiteralText(Rgba(cs)))
    ensures ColorRule(s, pos) == Reading(Rgba(cs), SkipSpace(s, pos))
  {
    FunctionalShape(s, pos, Rgba(cs), "rgba", cs);
    OnlyRgba(s, pos);
    RgbaRoundTrip(s, pos, cs);
  }

  /** Reading a well-formed literal written after optional spaces yields the color it denotes
      and stops right after it; a functional form with a component outside [0, 1] is
      rejected. */
  lemma {:induction false} ColorRoundTrip(s: string, pos: nat, l: Literal)
    requires pos <= |s| && LiteralWellFormed(l)
    requires At(s, SkipSpace(s, pos), LiteralText(l))
    requires LiteralEnds(s, SkipSpace(s, pos) + |LiteralText(l)|, l)
    ensures ColorRule(s, pos) == Reading(l, SkipSpace(s, pos))
  {
    match l
    case LongHex(_) => HexRoundTrip(s, pos, l);
    case ShortHex(_) => HexRoundTrip(s, pos, l);
    case Rgb(cs) => ColorRgbRoundTrip(s, pos, cs);
    case Rgba(cs) => ColorRgbaRoundTrip(s, pos, cs);
  }

  // ---------------------------------------------------------------------------------
  // Case.

  /** Every rule of `ColorGrammar` sits under `no_case`: folding the input to lower case
      changes neither what `color` yields nor where it stops. */
  lemma {:induction false} ColorIgnoresCase(s: string, pos: nat)
    requires pos <= |s|
    ensures ColorRule(LowerStr(s), pos) == ColorRule(s, pos)
  {
    HexLongIgnoresCase(s, pos);
    HexShortIgnoresCase(s, pos);
    RgbIgnoresCase(s, pos);
    RgbaIgnoresCase(s, pos);
  }

  lemma {:induction false} HexLongIgnoresCase(s: string, pos: nat)
    requires pos <= |s|
    ensures HexLong(LowerStr(s), pos) == HexLong(s, pos)
  {
    LitIgnoresCase(s, pos, "#");
    var sharp := Lit(s, pos, "#");
    if sharp.Success? {
      ParseHex2IgnoresCase(s, sharp.pos);
      var red := ParseHex2(s, sharp.pos);
      if red.Success? {
        ParseHex2IgnoresCase(s, red.pos);
        var green := ParseHex2(s, red.pos);
        if green.Success? {
          ParseHex2IgnoresCase(s, green.pos);
        }
      }
    }
  }

  lemma {:induction false} HexShortIgnoresCase(s: string, pos: nat)
    requires pos <= |s|
    ensures HexShort(LowerStr(s), pos) == HexShort(s, pos)
  {
    LitIgnoresCase(s, pos, "#");
    var sharp := Lit(s, pos, "#");
    if sharp.Success? {
      ParseHex1IgnoresCase(s, sharp.pos);
      var red := ParseHex1(s, sharp.pos);
      if red.Success? {
        ParseHex1IgnoresCase(s, red.pos);
        var green := ParseHex1(s, red.pos);
        if green.Success? {
          ParseHex1IgnoresCase(s, green.pos);
        }
      }
    }
  }

  lemma {:induction false} ChannelsIgnoresCase(s: string, pos: nat, n: nat)
    requires pos <= |s| && n >= 1
    ensures Channels(LowerStr(s), pos, n) == Channels(s, pos, n)
    decreases n
  {
    UnitDoubleIgnoresCase(s, pos);
    var v := UnitDouble(s, pos);
    if v.Success? && n > 1 {
      LitIgnoresCase(s, v.pos, ",");
      var comma := Lit(s, v.pos, ",");
      if comma.Success? {
        ChannelsIgnoresCase(s, comma.pos, n - 1);
      }
    }
  }

  /** The name, the parentheses and the `n` components of a functional form, folded. */
  lemma {:induction false} FunctionalIgnoresCase(s: string, pos: nat, name: string, n: nat)
    requires pos <= |s| && n >= 1
    ensures Lit(LowerStr(s), pos, name) == Lit(s, pos, name)
    ensures Lit(s, pos, name).Success? ==>
      Lit(LowerStr(s), Lit(s, pos, name).pos, "(") == Lit(s, Lit(s, pos, name).pos, "(")
    ensures Lit(s, pos, name).Success? && Lit(s, Lit(s, pos, name).pos, "(").Success? ==>
      var left := Lit(s, Lit(s, pos, name).pos, "(").pos;
      && Channels(LowerStr(s), left, n) == Channels(s, left, n)
      && (Channels(s, left, n).Success? ==>
            Lit(LowerStr(s), Channels(s, left, n).pos, ")") == Lit(s, Channels(s, left, n).pos, ")"))
  {
    LitIgnoresCase(s, pos, name);
    var key := Lit(s, pos, name);
    if key.Success? {
      LitIgnoresCase(s, key.pos, "(");
      var left := Lit(s, key.pos, "(");
      if left.Success? {
        ChannelsIgnoresCase(s, left.pos, n);
        var cs := Channels(s, left.pos, n);
        if cs.Success? {
          LitIgnoresCase(s, cs.pos, ")");
        }
      }
    }
  }

  lemma {:induction false} RgbIgnoresCase(s: string, pos: nat)
    requires pos <= |s|
    ensures RgbExpr(LowerStr(s), pos) == RgbExpr(s, pos)
  {
    FunctionalIgnoresCase(s, pos, "rgb", 3);
  }

  lemma {:induction false} RgbaIgnoresCase(s: string, pos: nat)
    requires pos <= |s|
    ensures RgbaExpr(LowerStr(s), pos) == RgbaExpr(s, pos)
  {
    FunctionalIgnoresCase(s, pos, "rgba", 4);
  }
}
