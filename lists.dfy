/**
 * The list operator `a % ','` of the grammars: one `a` or more, separated by commas,
 * for any item parser `a`, and how a list written out as text is read back.
 */
module SepLists {
  import opened Lexing

  /** An item parser fit for a list: defined at every position of the input, and it never
      moves backwards nor past the end. */
  ghost predicate Advances<T>(item: (string, nat) --> Result<T>) {
    forall s: string, p: nat | p <= |s| ::
      item.requires(s, p) && (item(s, p).Success? ==> p <= item(s, p).pos <= |s|)
  }

  /** The repetition inside `item % ','` after its first item: `,` and an item, as long as
      both match. When the comma or the item after it fails, the list ends where the
      previous item ended, before the comma; the repetition itself never fails. */
  function SepTail<T>(item: (string, nat) --> Result<T>, s: string, pos: nat): (r: (seq<T>, nat))
    requires Advances(item) && pos <= |s|
    ensures pos <= r.1 <= |s|
    decreases |s| - pos
  {
    var comma := Lit(s, pos, ",");
    if comma.Failure? then ([], pos) else
    var next := item(s, comma.pos);
    if next.Failure? then ([], pos) else
    var rest := SepTail(item, s, next.pos);
    ([next.value] + rest.0, rest.1)
  }

  /** `item % ','`: one item or more, in the order written. */
  function SepList<T>(item: (string, nat) --> Result<T>, s: string, pos: nat): (r: Result<seq<T>>)
    requires Advances(item) && pos <= |s|
    ensures r.Success? ==> item(s, pos).Success? && item(s, pos).pos <= r.pos <= |s|
    ensures r.Success? ==> |r.value| >= 1 && r.value[0] == item(s, pos).value
  {
    var first := item(s, pos);
    if first.Failure? then Failure else
    var tail := SepTail(item, s, first.pos);
    Success([first.value] + tail.0, tail.1)
  }

  /** `name '(' (item % ',') ')'`: a keyword, then a list of items in parentheses. */
  function Enclosed<T>(name: string, item: (string, nat) --> Result<T>, s: string, pos: nat): (r: Result<seq<T>>)
    requires Advances(item) && pos <= |s|
  {
    var key := Lit(s, pos, name);
    if key.Failure? then Failure else
    var left := Lit(s, key.pos, "(");
    if left.Failure? then Failure else
    var items := SepList(item, s, left.pos);
    if items.Failure? then Failure else
    var right := Lit(s, items.pos, ")");
    if right.Failure? then Failure else
    Success(items.value, right.pos)
  }

  // ---------------------------------------------------------------------------------
  // Lists written out: each item is given by its text and by what reading it yields.

  datatype Option<T> = None | Some(value: T)

  /** What reading an item of `n` characters written at `p` yields: the value it denotes
      and the position after it, or no match when it denotes nothing. */
  function Outcome<T>(v: Option<T>, p: nat, n: nat): Result<T> {
    if v.Some? then Success(v.value, p + n) else Failure
  }

  /** The texts `ts[i..]`, each after a comma. */
  function Joined(ts: seq<string>, i: nat): string
    requires i <= |ts|
    decreases |ts| - i
  {
    if i == |ts| then "" else "," + (ts[i] + Joined(ts, i + 1))
  }

  /** The texts, separated by commas. */
  function JoinedList(ts: seq<string>): string
    requires |ts| >= 1
  {
    ts[0] + Joined(ts, 1)
  }

  /** Every item from the `i`-th on denotes something. */
  predicate AllFrom<T>(vs: seq<Option<T>>, i: nat)
    requires i <= |vs|
    decreases |vs| - i
  {
    i == |vs| || (vs[i].Some? && AllFrom(vs, i + 1))
  }

  /** What the items from the `i`-th on denote, in order. */
  function ValuesFrom<T>(vs: seq<Option<T>>, i: nat): (r: seq<T>)
    requires i <= |vs| && AllFrom(vs, i)
    ensures |r| == |vs| - i
    decreases |vs| - i
  {
    if i == |vs| then [] else [vs[i].value] + ValuesFrom(vs, i + 1)
  }

  /** Every item from the `i`-th on denotes something exactly when none of them is `None`. */
  lemma {:induction false} AllFromSome<T>(vs: seq<Option<T>>, i: nat)
    requires i <= |vs|
    ensures AllFrom(vs, i) <==> forall j | i <= j < |vs| :: vs[j].Some?
    decreases |vs| - i
  {
    if i < |vs| {
      AllFromSome(vs, i + 1);
    }
  }

  /** Items that denote `ms`, one by one, denote `ms` in that order. */
  lemma {:induction false} ValuesFromSome<T>(vs: seq<Option<T>>, ms: seq<T>, i: nat)
    requires i <= |vs| == |ms| && forall j | i <= j < |vs| :: vs[j] == Some(ms[j])
    ensures AllFrom(vs, i) && ValuesFrom(vs, i) == ms[i..]
    decreases |vs| - i
  {
    if i < |vs| {
      ValuesFromSome(vs, ms, i + 1);
      assert ms[i..] == [ms[i]] + ms[i + 1..];
    }
  }

  /** What reading `(`, the items `ts` separated by commas and `)` written at `p` yields:
      what the items denote, in order, and the position after the `)`, or no match when one
      of them denotes nothing. */
  function Bracketed<T>(ts: seq<string>, vs: seq<Option<T>>, p: nat): Result<seq<T>>
    requires |ts| == |vs| >= 1
  {
    if AllFrom(vs, 0) then Success(ValuesFrom(vs, 0), p + 2 + |JoinedList(ts)|) else Failure
  }

  /** Each item text reads back as what it denotes wherever it is written and followed by
      `,` or `)`. */
  ghost predicate ReadsBack<T>(item: (string, nat) --> Result<T>, s: string, ts: seq<string>, vs: seq<Option<T>>)
    requires Advances(item) && |ts| == |vs|
  {
    forall j: nat, q: nat | j < |ts| && At(s, q, ts[j]) && q + |ts[j]| < |s| && (s[q + |ts[j]|] == ',' || s[q + |ts[j]|] == ')') ::
      item(s, q) == Outcome(vs[j], q, |ts[j]|)
  }

  /** From `q` on, the items `ts[i..]`, each after a comma, are read back one after the other
      as what they denote, and the `)` closing the list follows them; reading ends at the
      first item that denotes nothing. */
  ghost predicate TailReads<T>(item: (string, nat) --> Result<T>, s: string, q: nat, ts: seq<string>, vs: seq<Option<T>>, i: nat)
    requires Advances(item) && |ts| == |vs| && i <= |ts|
    decreases |ts| - i
  {
    && q < |s|
    && (i == |ts| ==> s[q] == ')')
    && (i < |ts| ==>
          && s[q] == ','
          && item(s, q + 1) == Outcome(vs[i], q + 1, |ts[i]|)
          && (vs[i].Some? ==> TailReads(item, s, q + 1 + |ts[i]|, ts, vs, i + 1)))
  }

  /** The first item of a list is read back at `p`, then the others as a tail. */
  ghost predicate ListReads<T>(item: (string, nat) --> Result<T>, s: string, p: nat, ts: seq<string>, vs: seq<Option<T>>)
    requires Advances(item) && |ts| == |vs| >= 1
  {
    && p <= |s|
    && item(s, p) == Outcome(vs[0], p, |ts[0]|)
    && (vs[0].Some? ==> TailReads(item, s, p + |ts[0]|, ts, vs, 1))
  }

  // ---------------------------------------------------------------------------------
  // Single characters.

  /** A character, then a text. */
  lemma {:induction false} CharThen(s: string, q: nat, c: char, t: string)
    requires At(s, q, [c] + t)
    ensures q < |s| && s[q] == c && At(s, q + 1, t)
  {
    assert s[q + 0] == ([c] + t)[0];
    forall i | 0 <= i < |t| ensures s[q + 1 + i] == t[i] {
      assert s[q + (1 + i)] == ([c] + t)[1 + i];
    }
  }

  /** A comma, then two texts one after the other. */
  lemma {:induction false} CommaThen(s: string, q: nat, a: string, b: string)
    requires At(s, q, "," + (a + b))
    ensures q < |s| && s[q] == ','
    ensures At(s, q + 1, a) && At(s, q + 1 + |a|, b)
  {
    CharThen(s, q, ',', a + b);
    AtSplit(s, q + 1, a, b);
  }

  /** A `)` where a comma is expected ends the repetition. */
  lemma {:induction false} CommaRejected(s: string, q: nat)
    requires q < |s| && s[q] == ')'
    ensures Lit(s, q, ",").Failure?
  {
    SkipNone(s, q);
    assert ToLower(s[q + 0]) != ","[0];
  }

  /** A comma where the `)` is expected is rejected. */
  lemma {:induction false} CloseRejected(s: string, q: nat)
    requires q < |s| && s[q] == ','
    ensures Lit(s, q, ")").Failure?
  {
    SkipNone(s, q);
    assert ToLower(s[q + 0]) != ")"[0];
  }

  /** A `)` after no spaces is read. */
  lemma {:induction false} CloseReads(s: string, q: nat)
    requires q < |s| && s[q] == ')'
    ensures Lit(s, q, ")") == Success((), q + 1)
  {
    SkipNone(s, q);
    assert ToLower(s[q + 0]) == ")"[0];
  }

  /** A comma after no spaces is read. */
  lemma {:induction false} CommaReads(s: string, q: nat)
    requires q < |s| && s[q] == ','
    ensures Lit(s, q, ",") == Success((), q + 1)
  {
    SkipNone(s, q);
    assert ToLower(s[q + 0]) == ","[0];
  }

  // ---------------------------------------------------------------------------------
  // Reading a list back.

  /** The repetition stops where the comma or the item after it fails. */
  lemma {:induction false} TailEnds<T>(item: (string, nat) --> Result<T>, s: string, q: nat)
    requires Advances(item) && q <= |s|
    requires Lit(s, q, ",").Failure? || item(s, Lit(s, q, ",").pos).Failure?
    ensures SepTail(item, s, q) == ([], q)
  {
  }

  /** A comma and an item read at `q`, then the rest of the repetition. */
  lemma {:induction false} TailJoins<T>(item: (string, nat) --> Result<T>, s: string, q: nat, e: nat, v: T, rest: seq<T>, n: nat)
    requires Advances(item) && q < |s|
    requires Lit(s, q, ",") == Success((), q + 1) && item(s, q + 1) == Success(v, e)
    requires e <= |s| && SepTail(item, s, e) == (rest, n)
    ensures SepTail(item, s, q) == ([v] + rest, n)
  {
  }

  /** A comma and an item read at `q`: the repetition goes on from the end of the item. */
  lemma {:induction false} TailGoesOn<T>(item: (string, nat) --> Result<T>, s: string, q: nat, e: nat, v: T)
    requires Advances(item) && q < |s|
    requires Lit(s, q, ",") == Success((), q + 1) && item(s, q + 1) == Success(v, e)
    ensures e <= |s| && SepTail(item, s, q).1 == SepTail(item, s, e).1
  {
  }

  /** What the repetition yields on the items `ts[i..]` written from `q` on: their values,
      ending at the `)` when they all denote something, and otherwise an end at a comma. */
  ghost predicate TailOutcome<T>(item: (string, nat) --> Result<T>, s: string, q: nat, ts: seq<string>, vs: seq<Option<T>>, i: nat)
    requires Advances(item) && |ts| == |vs| && i <= |ts| && q <= |s|
  {
    && (AllFrom(vs, i) ==> SepTail(item, s, q) == (ValuesFrom(vs, i), q + |Joined(ts, i)|))
    && (AllFrom(vs, i) ==> q + |Joined(ts, i)| < |s| && s[q + |Joined(ts, i)|] == ')')
    && (!AllFrom(vs, i) ==> SepTail(item, s, q).1 < |s| && s[SepTail(item, s, q).1] == ',')
  }

  /** The repetition after the first item reads every item of a tail, up to the `)`. When
      an item denotes nothing the repetition ends early, at the comma before that item,
      and does not fail. */
  lemma {:induction false} TailRoundTrip<T>(item: (string, nat) --> Result<T>, s: string, q: nat, ts: seq<string>, vs: seq<Option<T>>, i: nat)
    requires Advances(item) && |ts| == |vs| && i <= |ts| && TailReads(item, s, q, ts, vs, i)
    ensures AllFrom(vs, i) ==> SepTail(item, s, q) == (ValuesFrom(vs, i), q + |Joined(ts, i)|)
    ensures AllFrom(vs, i) ==> q + |Joined(ts, i)| < |s| && s[q + |Joined(ts, i)|] == ')'
    ensures !AllFrom(vs, i) ==> SepTail(item, s, q).1 < |s| && s[SepTail(item, s, q).1] == ','
    decreases |ts| - i
  {
    if i == |ts| {
      TailClosed(item, s, q, ts, vs, i);
    } else if vs[i].Some? {
      var e := q + 1 + |ts[i]|;
      TailRoundTrip(item, s, e, ts, vs, i + 1);
      TailNext(item, s, q, ts, vs, i, e);
    } else {
      TailRejects(item, s, q, ts, vs, i);
    }
  }

  /** Past the last item, the `)` ends the repetition. */
  lemma {:induction false} TailClosed<T>(item: (string, nat) --> Result<T>, s: string, q: nat, ts: seq<string>, vs: seq<Option<T>>, i: nat)
    requires Advances(item) && |ts| == |vs| && i == |ts| && TailReads(item, s, q, ts, vs, i)
    ensures q <= |s| && TailOutcome(item, s, q, ts, vs, i)
  {
    CommaRejected(s, q);
    TailEnds(item, s, q);
  }

  /** An item that denotes nothing ends the repetition at the comma before it. */
  lemma {:induction false} TailRejects<T>(item: (string, nat) --> Result<T>, s: string, q: nat, ts: seq<string>, vs: seq<Option<T>>, i: nat)
    requires Advances(item) && |ts| == |vs| && i < |ts| && TailReads(item, s, q, ts, vs, i)
    requires vs[i].None?
    ensures q <= |s| && TailOutcome(item, s, q, ts, vs, i)
  {
    CommaReads(s, q);
    TailEnds(item, s, q);
  }

  /** An item that denotes something, then the rest of the tail. */
  lemma {:induction false} TailNext<T>(item: (string, nat) --> Result<T>, s: string, q: nat, ts: seq<string>, vs: seq<Option<T>>, i: nat, e: nat)
    requires Advances(item) && |ts| == |vs| && i < |ts| && TailReads(item, s, q, ts, vs, i)
    requires vs[i].Some? && e == q + 1 + |ts[i]| && e <= |s|
    requires TailOutcome(item, s, e, ts, vs, i + 1)
    ensures q <= |s| && TailOutcome(item, s, q, ts, vs, i)
  {
    CommaReads(s, q);
    if AllFrom(vs, i + 1) {
      TailJoins(item, s, q, e, vs[i].value, ValuesFrom(vs, i + 1), e + |Joined(ts, i + 1)|);
    } else {
      TailGoesOn(item, s, q, e, vs[i].value);
    }
  }

  /** `item % ','` reads back every item of a list, up to the `)`. When an item denotes
      nothing the list fails or ends at a comma. */
  lemma {:induction false} ListRoundTrip<T>(item: (string, nat) --> Result<T>, s: string, p: nat, ts: seq<string>, vs: seq<Option<T>>)
    requires Advances(item) && |ts| == |vs| >= 1 && ListReads(item, s, p, ts, vs)
    ensures AllFrom(vs, 0) ==> SepList(item, s, p) == Success(ValuesFrom(vs, 0), p + |JoinedList(ts)|)
    ensures AllFrom(vs, 0) ==> p + |JoinedList(ts)| < |s| && s[p + |JoinedList(ts)|] == ')'
    ensures !AllFrom(vs, 0) ==>
      SepList(item, s, p).Failure? || (SepList(item, s, p).pos < |s| && s[SepList(item, s, p).pos] == ',')
  {
    if vs[0].Some? {
      TailRoundTrip(item, s, p + |ts[0]|, ts, vs, 1);
    }
  }

  /** The `)` after the list is read exactly when every item denotes something. */
  lemma {:induction false} ListCloses<T>(item: (string, nat) --> Result<T>, s: string, p: nat, ts: seq<string>, vs: seq<Option<T>>)
    requires Advances(item) && |ts| == |vs| >= 1 && ListReads(item, s, p, ts, vs)
    ensures AllFrom(vs, 0) ==> SepList(item, s, p) == Success(ValuesFrom(vs, 0), p + |JoinedList(ts)|)
    ensures AllFrom(vs, 0) ==> Lit(s, p + |JoinedList(ts)|, ")") == Success((), p + |JoinedList(ts)| + 1)
    ensures !AllFrom(vs, 0) ==> SepList(item, s, p).Failure? || Lit(s, SepList(item, s, p).pos, ")").Failure?
  {
    ListRoundTrip(item, s, p, ts, vs);
    if AllFrom(vs, 0) {
      CloseReads(s, p + |JoinedList(ts)|);
    } else if SepList(item, s, p).Success? {
      CloseRejected(s, SepList(item, s, p).pos);
    }
  }

  // ---------------------------------------------------------------------------------
  // The pieces of a list written out.

  /** What follows an item inside the list: the comma of the next item, or the `)`. */
  lemma {:induction false} ItemFollowed(s: string, e: nat, ts: seq<string>, i: nat)
    requires i <= |ts| && At(s, e, Joined(ts, i))
    requires e + |Joined(ts, i)| < |s| && s[e + |Joined(ts, i)|] == ')'
    ensures e < |s| && (s[e] == ',' || s[e] == ')')
  {
    if i < |ts| {
      assert s[e + 0] == Joined(ts, i)[0] == ',';
    }
  }

  /** The pieces of a non-empty tail: a comma, the first item followed by `,` or `)`, the
      rest of the tail. */
  lemma {:induction false} TailPieces(s: string, q: nat, ts: seq<string>, i: nat)
    requires i < |ts| && At(s, q, Joined(ts, i))
    requires q + |Joined(ts, i)| < |s| && s[q + |Joined(ts, i)|] == ')'
    ensures |Joined(ts, i)| == 1 + |ts[i]| + |Joined(ts, i + 1)|
    ensures q < |s| && s[q] == ','
    ensures At(s, q + 1, ts[i]) && At(s, q + 1 + |ts[i]|, Joined(ts, i + 1))
    ensures q + 1 + |ts[i]| < |s| && (s[q + 1 + |ts[i]|] == ',' || s[q + 1 + |ts[i]|] == ')')
  {
    CommaThen(s, q, ts[i], Joined(ts, i + 1));
    ItemFollowed(s, q + 1 + |ts[i]|, ts, i + 1);
  }

  /** The pieces of a list followed by `)`: its first item, followed by `,` or `)`, and the
      tail. */
  lemma {:induction false} ListPieces(s: string, p: nat, ts: seq<string>)
    requires |ts| >= 1 && At(s, p, JoinedList(ts) + ")")
    ensures |JoinedList(ts)| == |ts[0]| + |Joined(ts, 1)|
    ensures At(s, p, ts[0]) && At(s, p + |ts[0]|, Joined(ts, 1))
    ensures p + |JoinedList(ts)| < |s| && s[p + |JoinedList(ts)|] == ')'
    ensures p + |ts[0]| < |s| && (s[p + |ts[0]|] == ',' || s[p + |ts[0]|] == ')')
  {
    var rest := Joined(ts, 1);
    assert JoinedList(ts) + ")" == ts[0] + (rest + ")");
    AtSplit(s, p, ts[0], rest + ")");
    AtSplit(s, p + |ts[0]|, rest, ")");
    assert s[p + |ts[0]| + |rest| + 0] == ")"[0];
    ItemFollowed(s, p + |ts[0]|, ts, 1);
  }

  /** A tail written at `q` and followed by `)` is read back item by item. */
  lemma {:induction false} TailWritten<T>(item: (string, nat) --> Result<T>, s: string, q: nat, ts: seq<string>, vs: seq<Option<T>>, i: nat)
    requires Advances(item) && |ts| == |vs| && i <= |ts| && ReadsBack(item, s, ts, vs)
    requires At(s, q, Joined(ts, i)) && q + |Joined(ts, i)| < |s| && s[q + |Joined(ts, i)|] == ')'
    ensures TailReads(item, s, q, ts, vs, i)
    decreases |ts| - i
  {
    if i < |ts| {
      TailPieces(s, q, ts, i);
      TailWritten(item, s, q + 1 + |ts[i]|, ts, vs, i + 1);
    }
  }

  /** A list written at `p` and followed by `)` is read back item by item. */
  lemma {:induction false} ListWritten<T>(item: (string, nat) --> Result<T>, s: string, p: nat, ts: seq<string>, vs: seq<Option<T>>)
    requires Advances(item) && |ts| == |vs| >= 1 && ReadsBack(item, s, ts, vs)
    requires At(s, p, JoinedList(ts) + ")")
    ensures ListReads(item, s, p, ts, vs)
  {
    ListPieces(s, p, ts);
    TailWritten(item, s, p + |ts[0]|, ts, vs, 1);
  }

  /** A list written at `p` and followed by `)` is read back, and the `)` after it is read
      exactly when every item denotes something. */
  lemma {:induction false} ListWrittenCloses<T>(item: (string, nat) --> Result<T>, s: string, p: nat, ts: seq<string>, vs: seq<Option<T>>)
    requires Advances(item) && |ts| == |vs| >= 1 && ReadsBack(item, s, ts, vs)
    requires At(s, p, JoinedList(ts) + ")")
    ensures p <= |s| && ListOutcome(item, s, p, ts, vs)
  {
    ListWritten(item, s, p, ts, vs);
    ListCloses(item, s, p, ts, vs);
  }

  /** What a list written at `p` and its `)` give: the items' values and the `)` read right
      after them when every item denotes something; otherwise the list or its `)` fails. */
  ghost predicate ListOutcome<T>(item: (string, nat) --> Result<T>, s: string, p: nat, ts: seq<string>, vs: seq<Option<T>>)
    requires Advances(item) && |ts| == |vs| >= 1 && p <= |s|
  {
    && (AllFrom(vs, 0) ==> SepList(item, s, p) == Success(ValuesFrom(vs, 0), p + |JoinedList(ts)|))
    && (AllFrom(vs, 0) ==> Lit(s, p + |JoinedList(ts)|, ")") == Success((), p + |JoinedList(ts)| + 1))
    && (!AllFrom(vs, 0) ==> SepList(item, s, p).Failure? || Lit(s, SepList(item, s, p).pos, ")").Failure?)
  }

  /** `(` written at `q` is read, and the list follows it. */
  lemma {:induction false} OpenReads(s: string, q: nat, rest: string)
    requires At(s, q, "(" + rest)
    ensures q < |s| && Lit(s, q, "(") == Success((), q + 1) && At(s, q + 1, rest)
  {
    CharThen(s, q, '(', rest);
    SkipNone(s, q);
    assert ToLower(s[q + 0]) == "("[0];
  }

  /** A keyword and `(` read, then a list followed by `)`: the whole yields what the list
      and its `)` give. */
  lemma {:induction false} EnclosedFinish<T>(name: string, item: (string, nat) --> Result<T>, s: string, pos: nat, ts: seq<string>, vs: seq<Option<T>>, p: nat)
    requires Advances(item) && |ts| == |vs| >= 1 && pos <= |s|
    requires p == SkipSpace(s, pos) + |name| + 1 && p <= |s|
    requires Lit(s, pos, name) == Success((), SkipSpace(s, pos) + |name|)
    requires Lit(s, SkipSpace(s, pos) + |name|, "(") == Success((), p)
    requires ListOutcome(item, s, p, ts, vs)
    ensures Enclosed(name, item, s, pos) == Bracketed(ts, vs, SkipSpace(s, pos) + |name|)
  {
  }

  /** A keyword read at `pos`, then `(`, a list and `)` written right after it: the whole
      reads back as what the items denote, or fails when one of them denotes nothing. */
  lemma {:induction false} EnclosedRoundTrip<T>(name: string, item: (string, nat) --> Result<T>, s: string, pos: nat, ts: seq<string>, vs: seq<Option<T>>)
    requires Advances(item) && |ts| == |vs| >= 1 && ReadsBack(item, s, ts, vs) && pos <= |s|
    requires Lit(s, pos, name) == Success((), SkipSpace(s, pos) + |name|)
    requires At(s, SkipSpace(s, pos) + |name|, "(" + (JoinedList(ts) + ")"))
    ensures Enclosed(name, item, s, pos) == Bracketed(ts, vs, SkipSpace(s, pos) + |name|)
  {
    var q := SkipSpace(s, pos) + |name|;
    OpenReads(s, q, JoinedList(ts) + ")");
    ListWrittenCloses(item, s, q + 1, ts, vs);
    EnclosedFinish(name, item, s, pos, ts, vs, q + 1);
  }

  /** How a keyword followed by a parenthesised list of item texts is written. */
  function EnclosedText(name: string, ts: seq<string>): (t: string)
    requires |ts| >= 1
    ensures |t| == |name| + |JoinedList(ts)| + 2
  {
    name + ("(" + (JoinedList(ts) + ")"))
  }

  /** A lower-case keyword, then `(`, a list and `)` written after optional spaces: the
      whole reads back as what the items denote, or fails when one of them denotes nothing. */
  lemma {:induction false} EnclosedTextRoundTrip<T>(name: string, item: (string, nat) --> Result<T>, s: string, pos: nat, ts: seq<string>, vs: seq<Option<T>>, q: nat, r: Result<seq<T>>)
    requires Advances(item) && |ts| == |vs| >= 1 && ReadsBack(item, s, ts, vs) && pos <= |s|
    requires Keyword(name)
    requires At(s, SkipSpace(s, pos), EnclosedText(name, ts))
    requires q == SkipSpace(s, pos) + |name| && Bracketed(ts, vs, q) == r
    ensures Enclosed(name, item, s, pos) == r
  {
    LitThen(s, pos, name, "(" + (JoinedList(ts) + ")"));
    EnclosedRoundTrip(name, item, s, pos, ts, vs);
  }
}
