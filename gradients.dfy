/**
 * `GradientGrammar`: `gradient(` one or more stops separated by `,` then `)`, where a stop
 * is a color followed by its offset; case-insensitive, with spaces allowed between tokens.
 */
module Gradients {
  import opened Lexing
  import opened Numbers
  import opened Colors
  import opened SepLists

  /** `GradientStop_Attr`: a color and the offset at which it applies. */
  datatype Stop = Stop(color: Color, offset: real)

  /** A stop fit to appear in a parsed gradient: every component and the offset in [0, 1]. */
  predicate ValidStop(st: Stop) {
    Normalized(st.color) && InUnitRange(st.offset)
  }

  // ---------------------------------------------------------------------------------
  // The rules.

  /** `gradient_stop`: a color, then `double_[check_stop_offset]`. An offset outside [0, 1]
      fails the stop; it is never clamped. */
  function StopRule(s: string, pos: nat): (r: Result<Stop>)
    requires pos <= |s|
    ensures r.Success? ==> SkipSpace(s, pos) < r.pos <= |s| && ValidStop(r.value)
  {
    var color := ColorRule(s, pos);
    if color.Failure? then Failure else
    var offset := UnitDouble(s, color.pos);
    if offset.Failure? then Failure else
    Success(Stop(color.value, offset.value), offset.pos)
  }

  /** `gradient_stop` never moves backwards nor past the end, so it can be repeated. */
  lemma {:induction false} StopRuleAdvances()
    ensures Advances(StopRule)
  {
  }

  /** Every stop of a repetition of `gradient_stop` is valid. */
  lemma {:induction false} StopTailValid(s: string, pos: nat)
    requires Advances(StopRule) && pos <= |s|
    ensures forall i | 0 <= i < |SepTail(StopRule, s, pos).0| :: ValidStop(SepTail(StopRule, s, pos).0[i])
    decreases |s| - pos
  {
    var comma := Lit(s, pos, ",");
    if comma.Success? && StopRule(s, comma.pos).Success? {
      StopTailValid(s, StopRule(s, comma.pos).pos);
    }
  }

  /** `gradient_stop % ','`: one stop or more, in the order written. */
  function StopList(s: string, pos: nat): (r: Result<seq<Stop>>)
    requires pos <= |s|
    ensures r.Success? ==> SkipSpace(s, pos) < r.pos <= |s| && |r.value| >= 1
    ensures r.Success? ==> forall i | 0 <= i < |r.value| :: ValidStop(r.value[i])
  {
    StopRuleAdvances();
    var r := SepList(StopRule, s, pos);
    if r.Success? then StopTailValid(s, StopRule(s, pos).pos); r else r
  }

  /** `gradient`: `gradient`, `(`, the list of stops, `)`. */
  function GradientRule(s: string, pos: nat): (r: Result<seq<Stop>>)
    requires pos <= |s|
    ensures r.Success? ==> SkipSpace(s, pos) < r.pos <= |s| && |r.value| >= 1
    ensures r.Success? ==> forall i | 0 <= i < |r.value| :: ValidStop(r.value[i])
  {
    var name := Lit(s, pos, "gradient");
    if name.Failure? then Failure else
    var left := Lit(s, name.pos, "(");
    if left.Failure? then Failure else
    var stops := StopList(s, left.pos);
    if stops.Failure? then Failure else
    var right := Lit(s, stops.pos, ")");
    if right.Failure? then Failure else
    Success(stops.value, right.pos)
  }

  /** `GradientGrammar::parse`: `phrase_parse` of `gradient` with the space skipper from
      `first`. The stops read are appended to the vector the caller passes in, and the
      iterator ends past the gradient and the spaces after it. On failure the iterator is
      left where it was, since the rule starts with a sequence, which only commits its
      iterator once every element has matched. */
  method ParseGradient(s: string, first: nat, value: seq<Stop>) returns (ok: bool, next: nat, result: seq<Stop>)
    requires first <= |s|
    ensures ok <==> GradientRule(s, first).Success?
    ensures ok ==> result == value + GradientRule(s, first).value
    ensures ok ==> |result| > |value| && forall i | |value| <= i < |result| :: ValidStop(result[i])
    ensures ok ==> next == SkipSpace(s, GradientRule(s, first).pos)
    ensures !ok ==> next == first
  {
    var r := GradientRule(s, first);
    if r.Success? {
      ok, result := true, value + r.value;
      next := SkipOver(s, r.pos);
    } else {
      ok, result, next := false, value, first;
    }
  }

  // ---------------------------------------------------------------------------------
  // Gradient literals as written, and what they denote.

  /** A stop as written: a color literal, one space, the offset. */
  datatype StopLiteral = StopLiteral(color: Literal, offset: Decimal)

  predicate StopWellFormed(st: StopLiteral) {
    LiteralWellFormed(st.color) && DecimalWellFormed(st.offset)
  }

  predicate AllStopsWellFormed(sts: seq<StopLiteral>) {
    forall i | 0 <= i < |sts| :: StopWellFormed(sts[i])
  }

  function StopText(st: StopLiteral): string
    requires StopWellFormed(st)
  {
    LiteralText(st.color) + (" " + DecimalText(st.offset))
  }

  /** The color is in range and so is the offset. */
  predicate StopInRange(st: StopLiteral)
    requires StopWellFormed(st)
  {
    InRange(st.color) && InUnitRange(DecimalValue(st.offset))
  }

  function StopMeaning(st: StopLiteral): Stop
    requires StopWellFormed(st)
  {
    Stop(Meaning(st.color), DecimalValue(st.offset))
  }

  /** What a stop denotes, if it is in range. */
  function Denote(st: StopLiteral): Option<Stop>
    requires StopWellFormed(st)
  {
    if StopInRange(st) then Some(StopMeaning(st)) else None
  }

  function Texts(sts: seq<StopLiteral>): (ts: seq<string>)
    requires AllStopsWellFormed(sts)
    ensures |ts| == |sts|
  {
    seq(|sts|, i requires 0 <= i < |sts| => StopText(sts[i]))
  }

  function Denotes(sts: seq<StopLiteral>): (vs: seq<Option<Stop>>)
    requires AllStopsWellFormed(sts)
    ensures |vs| == |sts|
  {
    seq(|sts|, i requires 0 <= i < |sts| => Denote(sts[i]))
  }

  /** A gradient literal: the keyword, then its stops in parentheses, separated by commas. */
  function GradientText(sts: seq<StopLiteral>): string
    requires |sts| >= 1 && AllStopsWellFormed(sts)
  {
    EnclosedText("gradient", Texts(sts))
  }

  predicate AllStopsInRange(sts: seq<StopLiteral>)
    requires AllStopsWellFormed(sts)
  {
    forall i | 0 <= i < |sts| :: StopInRange(sts[i])
  }

  /** The stops a list denotes, in the order written. */
  function StopsMeaning(sts: seq<StopLiteral>): (r: seq<Stop>)
    requires AllStopsWellFormed(sts)
    ensures |r| == |sts|
  {
    seq(|sts|, i requires 0 <= i < |sts| => StopMeaning(sts[i]))
  }

  /** What reading a gradient written at `p` yields: its stops and the position right after
      it, or no match when one color component or offset lies outside [0, 1]. */
  function GradientReading(sts: seq<StopLiteral>, p: nat): Result<seq<Stop>>
    requires |sts| >= 1 && AllStopsWellFormed(sts)
  {
    if AllStopsInRange(sts) then Success(StopsMeaning(sts), p + |GradientText(sts)|) else Failure
  }

  // ---------------------------------------------------------------------------------
  // Reading gradients back.

  /** Every color literal starts with `#` or `r`. */
  lemma {:induction false} LiteralStart(l: Literal)
    requires LiteralWellFormed(l)
    ensures |LiteralText(l)| > 0 && (LiteralText(l)[0] == '#' || LiteralText(l)[0] == 'r')
  {
  }

  /** The pieces of a stop written at `p`: the color literal, a space, the offset. */
  lemma {:induction false} StopPieces(s: string, p: nat, st: StopLiteral)
    requires StopWellFormed(st) && At(s, p, StopText(st))
    ensures p + |StopText(st)| <= |s| && |StopText(st)| == |LiteralText(st.color)| + 1 + |DecimalText(st.offset)|
    ensures At(s, p, LiteralText(st.color))
    ensures s[p + |LiteralText(st.color)|] == ' '
    ensures At(s, p + |LiteralText(st.color)| + 1, DecimalText(st.offset))
  {
    var lt, dt := LiteralText(st.color), DecimalText(st.offset);
    AtSplit(s, p, lt, " " + dt);
    CharThen(s, p + |lt|, ' ', dt);
  }

  /** The color of a stop written at `p` is read back, and stops before the space. */
  lemma {:induction false} StopColor(s: string, p: nat, st: StopLiteral)
    requires StopWellFormed(st) && At(s, p, StopText(st))
    ensures ColorRule(s, p) == Reading(st.color, p)
  {
    StopPieces(s, p, st);
    LiteralStart(st.color);
    assert !HexRun(s, p + |LiteralText(st.color)|, 3) by {
      assert !IsHexDigit(s[p + |LiteralText(st.color)|]);
    }
    ColorRoundTrip(s, p, st.color);
  }

  /** An offset written after one space, and followed by `,` or `)`, is read whole. */
  lemma {:induction false} StopOffset(s: string, e: nat, d: Decimal)
    requires DecimalWellFormed(d) && e < |s| && s[e] == ' ' && At(s, e + 1, DecimalText(d))
    requires e + 1 + |DecimalText(d)| < |s|
    requires s[e + 1 + |DecimalText(d)|] == ',' || s[e + 1 + |DecimalText(d)|] == ')'
    ensures UnitDouble(s, e) == ChannelOutcome(d, e + 1)
  {
    DecimalTextStart(d);
    SkipNone(s, e + 1);
    assert SkipSpace(s, e) == e + 1;
    DoubleReadsDecimal(s, e, d);
  }

  /** A stop assembled from the outcome of its color and of its offset. */
  function StopFrom(c: Result<Color>, o: Result<real>): Result<Stop> {
    if c.Failure? || o.Failure? then Failure else Success(Stop(c.value, o.value), o.pos)
  }

  /** The color read at `p` is `c` and ends at `e`, where the offset read is `o`. */
  predicate StopSplits(s: string, p: nat, e: nat, c: Result<Color>, o: Result<real>) {
    p <= e <= |s| && (c.Success? ==> c.pos == e) && ColorRule(s, p) == c && UnitDouble(s, e) == o
  }

  /** `gradient_stop` yields what its color and its offset give. */
  lemma {:induction false} StopThen(s: string, p: nat, e: nat, c: Result<Color>, o: Result<real>)
    requires StopSplits(s, p, e, c, o)
    ensures StopRule(s, p) == StopFrom(c, o)
  {
  }

  lemma {:induction false} ReadingEnds(l: Literal, p: nat)
    requires LiteralWellFormed(l)
    ensures Reading(l, p).Success? ==> Reading(l, p).pos == p + |LiteralText(l)|
  {
  }

  /** The color and the offset of a stop literal together give what the stop denotes. */
  lemma {:induction false} StopDenotes(st: StopLiteral, p: nat)
    requires StopWellFormed(st)
    ensures StopFrom(Reading(st.color, p), ChannelOutcome(st.offset, p + |LiteralText(st.color)| + 1))
      == Outcome(Denote(st), p, |StopText(st)|)
  {
  }

  /** The color of a stop written at `p` is read back, then its offset. */
  lemma {:induction false} StopParts(s: string, p: nat, st: StopLiteral)
    requires StopWellFormed(st) && At(s, p, StopText(st))
    requires p + |StopText(st)| < |s| && (s[p + |StopText(st)|] == ',' || s[p + |StopText(st)|] == ')')
    ensures StopSplits(s, p, p + |LiteralText(st.color)|, Reading(st.color, p), ChannelOutcome(st.offset, p + |LiteralText(st.color)| + 1))
  {
    StopColor(s, p, st);
    StopOffsetAt(s, p, st);
    ReadingEnds(st.color, p);
  }

  /** The offset of a stop written at `p` is read after the color and the space. */
  lemma {:induction false} StopOffsetAt(s: string, p: nat, st: StopLiteral)
    requires StopWellFormed(st) && At(s, p, StopText(st))
    requires p + |StopText(st)| < |s| && (s[p + |StopText(st)|] == ',' || s[p + |StopText(st)|] == ')')
    ensures UnitDouble(s, p + |LiteralText(st.color)|) == ChannelOutcome(st.offset, p + |LiteralText(st.color)| + 1)
  {
    var e := p + |LiteralText(st.color)|;
    StopPieces(s, p, st);
    assert e + 1 + |DecimalText(st.offset)| == p + |StopText(st)|;
    StopOffset(s, e, st.offset);
  }

  /** A stop written at `p`, followed by `,` or `)`, is read back, or fails when its color or
      its offset is out of range. */
  lemma {:induction false} StopReads(s: string, p: nat, st: StopLiteral)
    requires StopWellFormed(st) && At(s, p, StopText(st))
    requires p + |StopText(st)| < |s| && (s[p + |StopText(st)|] == ',' || s[p + |StopText(st)|] == ')')
    ensures StopRule(s, p) == Outcome(Denote(st), p, |StopText(st)|)
  {
    StopParts(s, p, st);
    StopThen(s, p, p + |LiteralText(st.color)|, Reading(st.color, p), ChannelOutcome(st.offset, p + |LiteralText(st.color)| + 1));
    StopDenotes(st, p);
  }

  /** Every stop of a list, written anywhere and followed by `,` or `)`, is read back. */
  lemma {:induction false} StopsReadBack(s: string, sts: seq<StopLiteral>)
    requires AllStopsWellFormed(sts)
    ensures Advances(StopRule) && ReadsBack(StopRule, s, Texts(sts), Denotes(sts))
  {
    StopRuleAdvances();
    StopsReadEach(s, sts);
  }

  /** The same, stated of `gradient_stop` itself rather than of the parser it is passed as. */
  lemma {:induction false} StopsReadEach(s: string, sts: seq<StopLiteral>)
    requires AllStopsWellFormed(sts)
    ensures forall j: nat, q: nat | j < |sts| && At(s, q, Texts(sts)[j]) && q + |Texts(sts)[j]| < |s| && (s[q + |Texts(sts)[j]|] == ',' || s[q + |Texts(sts)[j]|] == ')') ::
      StopRule(s, q) == Outcome(Denotes(sts)[j], q, |Texts(sts)[j]|)
  {
    forall j: nat, q: nat | j < |sts| && At(s, q, Texts(sts)[j]) && q + |Texts(sts)[j]| < |s| && (s[q + |Texts(sts)[j]|] == ',' || s[q + |Texts(sts)[j]|] == ')')
      ensures StopRule(s, q) == Outcome(Denotes(sts)[j], q, |Texts(sts)[j]|)
    {
      StopReadsAt(s, sts, j, q);
    }
  }

  /** The `j`-th stop of a list, written at `q` and followed by `,` or `)`, is read back. */
  lemma {:induction false} StopReadsAt(s: string, sts: seq<StopLiteral>, j: nat, q: nat)
    requires AllStopsWellFormed(sts) && j < |sts| && At(s, q, Texts(sts)[j])
    requires q + |Texts(sts)[j]| < |s| && (s[q + |Texts(sts)[j]|] == ',' || s[q + |Texts(sts)[j]|] == ')')
    ensures StopRule(s, q) == Outcome(Denotes(sts)[j], q, |Texts(sts)[j]|)
  {
    assert Texts(sts)[j] == StopText(sts[j]) && Denotes(sts)[j] == Denote(sts[j]);
    StopReads(s, q, sts[j]);
  }

  /** The stops all denote something exactly when they are all in range. */
  lemma {:induction false} AllFromDenotes(sts: seq<StopLiteral>)
    requires AllStopsWellFormed(sts)
    ensures AllFrom(Denotes(sts), 0) <==> AllStopsInRange(sts)
  {
    var vs := Denotes(sts);
    forall j | 0 <= j < |sts| ensures vs[j].Some? <==> StopInRange(sts[j]) {
      assert vs[j] == Denote(sts[j]);
    }
    AllFromSome(vs, 0);
  }

  /** When every stop is in range, they denote their meanings, in the order written. */
  lemma {:induction false} ValuesFromDenotes(sts: seq<StopLiteral>)
    requires AllStopsWellFormed(sts) && AllStopsInRange(sts)
    ensures AllFrom(Denotes(sts), 0) && ValuesFrom(Denotes(sts), 0) == StopsMeaning(sts)
  {
    ValuesFromSome(Denotes(sts), StopsMeaning(sts), 0);
    assert StopsMeaning(sts)[0..] == StopsMeaning(sts);
  }

  /** Reading the texts of the stops as what they denote is reading the gradient literal. */
  lemma {:induction false} ReadingAgrees(sts: seq<StopLiteral>, p: nat)
    requires |sts| >= 1 && AllStopsWellFormed(sts)
    ensures Bracketed(Texts(sts), Denotes(sts), p + 8) == GradientReading(sts, p)
  {
    AllFromDenotes(sts);
    if AllStopsInRange(sts) {
      ValuesFromDenotes(sts);
    }
  }

  /** Reading a well-formed gradient written after optional spaces yields its stops, in the
      order written and unsorted, and stops right after its `)`; a stop whose color or
      offset lies outside [0, 1] fails the whole gradient. */
  lemma {:induction false} GradientRoundTrip(s: string, pos: nat, sts: seq<StopLiteral>)
    requires pos <= |s| && |sts| >= 1 && AllStopsWellFormed(sts)
    requires At(s, SkipSpace(s, pos), GradientText(sts))
    ensures GradientRule(s, pos) == GradientReading(sts, SkipSpace(s, pos))
  {
    GradientRuleIs(s, pos);
    EnclosedReads(s, pos, sts);
  }

  /** The keyword, then the stops in parentheses: read back as the gradient literal reads. */
  lemma {:induction false} EnclosedReads(s: string, pos: nat, sts: seq<StopLiteral>)
    requires pos <= |s| && |sts| >= 1 && AllStopsWellFormed(sts)
    requires At(s, SkipSpace(s, pos), GradientText(sts))
    ensures Advances(StopRule) && Enclosed("gradient", StopRule, s, pos) == GradientReading(sts, SkipSpace(s, pos))
  {
    StopsReadBack(s, sts);
    ReadingAgrees(sts, SkipSpace(s, pos));
    GradientKeyword();
    EnclosedTextRoundTrip("gradient", StopRule, s, pos, Texts(sts), Denotes(sts), SkipSpace(s, pos) + 8, GradientReading(sts, SkipSpace(s, pos)));
  }

  lemma {:induction false} GradientKeyword()
    ensures Keyword("gradient")
  {
  }

  /** The gradient rule is the keyword `gradient` and a list of stops in parentheses. */
  lemma {:induction false} GradientRuleIs(s: string, pos: nat)
    requires pos <= |s|
    ensures Advances(StopRule) && GradientRule(s, pos) == Enclosed("gradient", StopRule, s, pos)
  {
    StopRuleAdvances();
  }

  /** `gradient` and `(` written after optional spaces are read in turn. */
  lemma {:induction false} GradientOpens(s: string, pos: nat, rest: string)
    requires pos <= |s| && At(s, SkipSpace(s, pos), "gradient" + ("(" + rest))
    ensures SkipSpace(s, pos) + 9 <= |s|
    ensures Lit(s, pos, "gradient") == Success((), SkipSpace(s, pos) + 8)
    ensures Lit(s, SkipSpace(s, pos) + 8, "(") == Success((), SkipSpace(s, pos) + 9)
    ensures At(s, SkipSpace(s, pos) + 9, rest)
  {
    var p := SkipSpace(s, pos);
    LitThen(s, pos, "gradient", "(" + rest);
    assert s[p + 8] == ("(" + rest)[0];
    SkipNone(s, p + 8);
    LitThen(s, p + 8, "(", rest);
  }

  /** A color starts, after the leading spaces, with `#` or with `r` in either case. */
  lemma {:induction false} ColorStart(s: string, pos: nat)
    requires pos <= |s|
    ensures ColorRule(s, pos).Success? ==>
      SkipSpace(s, pos) < |s| && (s[SkipSpace(s, pos)] == '#' || ToLower(s[SkipSpace(s, pos)]) == 'r')
  {
    SharpAt(s, pos);
    var p := SkipSpace(s, pos);
    if Lit(s, pos, "rgb").Success? {
      assert ToLower(s[p + 0]) == "rgb"[0];
    }
    if Lit(s, pos, "rgba").Success? {
      assert ToLower(s[p + 0]) == "rgba"[0];
    }
  }

  /** `gradient()` is rejected: the list needs at least one stop. */
  lemma {:induction false} EmptyGradientFails(s: string, pos: nat)
    requires pos <= |s| && At(s, SkipSpace(s, pos), "gradient()")
    ensures GradientRule(s, pos).Failure?
  {
    var p := SkipSpace(s, pos);
    assert "gradient()" == "gradient" + ("(" + ")");
    GradientOpens(s, pos, ")");
    assert s[p + 9] == ")"[0];
    NoStopAt(s, p + 9);
  }

  /** No stop starts at a `)`. */
  lemma {:induction false} NoStopAt(s: string, q: nat)
    requires q < |s| && s[q] == ')'
    ensures StopList(s, q).Failure?
  {
    SkipNone(s, q);
    ColorStart(s, q);
  }

  // ---------------------------------------------------------------------------------
  // Case.

  lemma {:induction false} StopIgnoresCase(s: string, pos: nat)
    requires pos <= |s|
    ensures StopRule(LowerStr(s), pos) == StopRule(s, pos)
  {
    ColorIgnoresCase(s, pos);
    var color := ColorRule(s, pos);
    if color.Success? {
      UnitDoubleIgnoresCase(s, color.pos);
    }
  }

  lemma {:induction false} StopTailIgnoresCase(s: string, pos: nat)
    requires pos <= |s|
    ensures Advances(StopRule) && SepTail(StopRule, LowerStr(s), pos) == SepTail(StopRule, s, pos)
    decreases |s| - pos
  {
    LitIgnoresCase(s, pos, ",");
    var comma := Lit(s, pos, ",");
    if comma.Success? {
      StopIgnoresCase(s, comma.pos);
      var next := StopRule(s, comma.pos);
      if next.Success? {
        StopTailIgnoresCase(s, next.pos);
      }
    }
  }

  lemma {:induction false} StopListIgnoresCase(s: string, pos: nat)
    requires pos <= |s|
    ensures StopList(LowerStr(s), pos) == StopList(s, pos)
  {
    StopIgnoresCase(s, pos);
    var first := StopRule(s, pos);
    if first.Success? {
      StopTailIgnoresCase(s, first.pos);
    }
  }

  /** `GradientGrammar` sits under `no_case` too: folding the input to lower case changes
      neither the stops `gradient` yields nor where it stops. */
  lemma {:induction false} GradientIgnoresCase(s: string, pos: nat)
    requires pos <= |s|
    ensures GradientRule(LowerStr(s), pos) == GradientRule(s, pos)
  {
    LitIgnoresCase(s, pos, "gradient");
    var name := Lit(s, pos, "gradient");
    if name.Success? {
      LitIgnoresCase(s, name.pos, "(");
      var left := Lit(s, name.pos, "(");
      if left.Success? {
        StopListIgnoresCase(s, left.pos);
        var stops := StopList(s, left.pos);
        if stops.Success? {
          LitIgnoresCase(s, stops.pos, ")");
        }
      }
    }
  }
}
