/**
 * What every rule of the two grammars is built from: the outcome of a parser run,
 * the `ascii::space` skipper, case folding for `no_case[...]` and literal matching.
 *
 * A parser is modelled as a function of the whole input `s` and the position of the
 * iterator `first` (an index into `s`; `last` is `|s|`).
 */
module Lexing {

  /** The outcome of running a parser at a position: no match, or the synthesized
      attribute together with the position the iterator was advanced to. */
  datatype Result<+T> = Failure | Success(value: T, pos: nat)

  /** `ascii::space`: blank, tab, line feed, vertical tab, form feed and carriage return. */
  predicate IsSpace(c: char) {
    c == ' ' || '\t' <= c <= '\r'
  }

  predicate IsDigit(c: char) {
    '0' <= c <= '9'
  }

  /** A hexadecimal digit in either case. */
  predicate IsHexDigit(c: char) {
    IsDigit(c) || 'a' <= c <= 'f' || 'A' <= c <= 'F'
  }

  /** A hexadecimal digit as the symbol tables spell their keys: lower case. */
  predicate IsLowerHex(c: char) {
    IsDigit(c) || 'a' <= c <= 'f'
  }

  function HexValue(c: char): (v: nat)
    requires IsHexDigit(c)
    ensures v < 16
  {
    if IsDigit(c) then c as int - '0' as int
    else if 'a' <= c <= 'f' then c as int - 'a' as int + 10
    else c as int - 'A' as int + 10
  }

  /** The case folding `no_case[...]` applies to the input: ASCII upper case to lower case,
      every other character unchanged. */
  function ToLower(c: char): (d: char)
    ensures 'A' <= c <= 'Z' ==> d as int == c as int + 32
    ensures !('A' <= c <= 'Z') ==> d == c
  {
    if 'A' <= c <= 'Z' then (c as int + 32) as char else c
  }

  function LowerStr(t: string): (u: string)
    ensures |u| == |t|
    ensures forall i | 0 <= i < |t| :: u[i] == ToLower(t[i])
  {
    seq(|t|, i requires 0 <= i < |t| => ToLower(t[i]))
  }

  /** `qi::skip_over` with the `ascii::space` skipper: the first position at or after `pos`
      that does not hold a space. */
  function SkipSpace(s: string, pos: nat): (r: nat)
    requires pos <= |s|
    ensures pos <= r <= |s|
    decreases |s| - pos
  {
    if pos < |s| && IsSpace(s[pos]) then SkipSpace(s, pos + 1) else pos
  }

  /** What the skipper passes over is spaces, and it stops at a non-space or the end. */
  lemma {:induction false} SkipSpaceSpec(s: string, pos: nat)
    requires pos <= |s|
    ensures forall i | pos <= i < SkipSpace(s, pos) :: IsSpace(s[i])
    ensures SkipSpace(s, pos) == |s| || !IsSpace(s[SkipSpace(s, pos)])
    decreases |s| - pos
  {
    if pos < |s| && IsSpace(s[pos]) {
      SkipSpaceSpec(s, pos + 1);
    }
  }

  /** The skipper does not move from a non-space. */
  lemma {:induction false} SkipNone(s: string, p: nat)
    requires p < |s| && !IsSpace(s[p])
    ensures SkipSpace(s, p) == p
  {
  }

  /** The characters of `w` occur at position `p` of `s`, compared after case folding. */
  predicate MatchesAt(s: string, p: nat, w: string) {
    p + |w| <= |s| && forall i | 0 <= i < |w| :: ToLower(s[p + i]) == w[i]
  }

  /** `lit(w)` under `no_case` with the skipper active: skip spaces, then match the
      lower-case literal `w` case-insensitively, character by character. */
  function Lit(s: string, pos: nat, w: string): (r: Result<()>)
    requires pos <= |s|
    ensures r.Success? ==> SkipSpace(s, pos) + |w| == r.pos <= |s|
  {
    var p := SkipSpace(s, pos);
    if MatchesAt(s, p, w) then Success((), p + |w|) else Failure
  }

  /** The text `t` occurs verbatim at position `p` of `s`. */
  predicate At(s: string, p: nat, t: string) {
    p + |t| <= |s| && forall i | 0 <= i < |t| :: s[p + i] == t[i]
  }

  lemma {:induction false} AtSplit(s: string, p: nat, a: string, b: string)
    requires At(s, p, a + b)
    ensures At(s, p, a) && At(s, p + |a|, b)
  {
    forall i | 0 <= i < |a| ensures s[p + i] == a[i] {
      assert (a + b)[i] == a[i];
    }
    forall i | 0 <= i < |b| ensures s[p + |a| + i] == b[i] {
      assert (a + b)[|a| + i] == b[i];
    }
  }

  lemma {:induction false} AtSlice(s: string, p: nat, t: string)
    requires At(s, p, t)
    ensures s[p..p + |t|] == t
  {
  }

  /** A literal the grammars spell in lower case and that does not start with a space, so
      that it matches wherever it is written after optional spaces. */
  predicate Keyword(w: string) {
    |w| > 0 && !IsSpace(w[0]) && forall i | 0 <= i < |w| :: ToLower(w[i]) == w[i]
  }

  /** A literal written verbatim after optional spaces is matched. */
  lemma {:induction false} LitReads(s: string, pos: nat, w: string)
    requires pos <= |s| && Keyword(w)
    requires At(s, SkipSpace(s, pos), w)
    ensures Lit(s, pos, w) == Success((), SkipSpace(s, pos) + |w|)
  {
  }

  /** A literal written after optional spaces is matched, and what follows it starts where
      the match ends. */
  lemma {:induction false} LitThen(s: string, pos: nat, w: string, rest: string)
    requires pos <= |s| && Keyword(w)
    requires At(s, SkipSpace(s, pos), w + rest)
    ensures Lit(s, pos, w) == Success((), SkipSpace(s, pos) + |w|)
    ensures At(s, SkipSpace(s, pos) + |w|, rest)
  {
    AtSplit(s, SkipSpace(s, pos), w, rest);
    LitReads(s, pos, w);
  }

  /** A literal fails as soon as one of its characters differs from the input's. */
  lemma {:induction false} LitMismatch(s: string, pos: nat, w: string, i: nat)
    requires pos <= |s| && i < |w|
    requires SkipSpace(s, pos) + i < |s| && ToLower(s[SkipSpace(s, pos) + i]) != w[i]
    ensures Lit(s, pos, w).Failure?
  {
  }

  /** The input the grammars see once every character is folded: used to state that
      both grammars ignore case. */
  lemma {:induction false} SkipSpaceIgnoresCase(s: string, pos: nat)
    requires pos <= |s|
    ensures SkipSpace(LowerStr(s), pos) == SkipSpace(s, pos)
    decreases |s| - pos
  {
    if pos < |s| && IsSpace(s[pos]) {
      SkipSpaceIgnoresCase(s, pos + 1);
    }
  }

  lemma {:induction false} LitIgnoresCase(s: string, pos: nat, w: string)
    requires pos <= |s|
    ensures Lit(LowerStr(s), pos, w) == Lit(s, pos, w)
  {
    SkipSpaceIgnoresCase(s, pos);
  }

  /** `qi::skip_over`, the post-skip `phrase_parse` performs after a successful match:
      advance the iterator over spaces. */
  method SkipOver(s: string, first: nat) returns (next: nat)
    requires first <= |s|
    ensures next == SkipSpace(s, first)
  {
    next := first;
    while next < |s| && IsSpace(s[next])
      invariant first <= next <= |s|
      invariant SkipSpace(s, next) == SkipSpace(s, first)
    {
      next := next + 1;
    }
  }
}
