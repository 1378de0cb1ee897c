/**
 * The two symbol tables `hex1` and `hex2`, built once by their constructors and read by the
 * hexadecimal color rules, and the lookup a `qi::symbols` parser performs under `no_case`.
 */
module HexTables {
  import opened Lexing

  /** `BYTE_TO_DOUBLE`: the value converted to `unsigned char` (taken modulo 256), divided
      by the largest `unsigned char`, 255. */
  function ByteToReal(v: int): (r: real)
    ensures 0.0 <= r <= 1.0
  {
    (v % 256) as real / 255.0
  }

  function LowerHexChar(v: nat): (c: char)
    requires v < 16
    ensures IsLowerHex(c) && IsHexDigit(c) && HexValue(c) == v
  {
    if v < 10 then ('0' as int + v) as char else ('a' as int + v - 10) as char
  }

  lemma {:induction false} LowerHexCharOf(c: char)
    requires IsLowerHex(c)
    ensures LowerHexChar(HexValue(c)) == c
  {
  }

  /** `boost::format("%02x") % i` for a byte: two lower-case hex digits that read back as `i`. */
  function Format02x(i: nat): (k: string)
    requires i < 256
    ensures |k| == 2 && IsLowerHex(k[0]) && IsLowerHex(k[1])
    ensures 16 * HexValue(k[0]) + HexValue(k[1]) == i
  {
    [LowerHexChar(i / 16), LowerHexChar(i % 16)]
  }

  /** The contents of `hex1` once the digits `0 .. n-1` have been added, in that order: the
      digit `d` stands for the byte that repeats it, `0xdd`, which is `17 * d`. */
  function Hex1Prefix(n: nat): map<string, real>
    requires n <= 16
  {
    if n == 0 then map[] else Hex1Prefix(n - 1)[[LowerHexChar(n - 1)] := ByteToReal(17 * (n - 1))]
  }

  /** The contents of `hex1`: every lower-case hex digit. */
  function Hex1Map(): map<string, real> {
    Hex1Prefix(16)
  }

  /** A key of `hex2`: two lower-case hex digits. */
  predicate IsPairKey(k: string) {
    |k| == 2 && IsLowerHex(k[0]) && IsLowerHex(k[1])
  }

  /** The byte a key of `hex2` spells. */
  function Spelt(k: string): nat
    requires IsPairKey(k)
  {
    16 * HexValue(k[0]) + HexValue(k[1])
  }

  /** The contents of `hex2` once its loop has added the bytes `0 .. n-1`, in that order. */
  function Hex2Prefix(n: nat): map<string, real>
    requires n <= 256
  {
    if n == 0 then map[] else Hex2Prefix(n - 1)[Format02x(n - 1) := ByteToReal(n - 1)]
  }

  /** The contents of `hex2`: every byte, spelt as two lower-case hex digits. */
  function Hex2Map(): map<string, real> {
    Hex2Prefix(256)
  }

  /** `qi::symbols<char, double>`: a table of keys and values filled by `add`. */
  class Symbols {
    var entries: map<string, real>

    /** `add(key, value)`: an empty key is ignored, and a key already present keeps the value
        it was first given. */
    method Add(key: string, value: real)
      modifies this
      ensures entries == if key == [] || key in old(entries) then old(entries)
                         else old(entries)[key := value]
    {
      if key != [] && key !in entries {
        entries := entries[key := value];
      }
    }

    /** The constructor of `hex1_`: one `add` per hex digit `d`, from `0` to `f`, with the
        value of the byte `0xdd`. */
    constructor Hex1()
      ensures entries == Hex1Map()
    {
      entries := map[];
      new;
      var d := 0;
      while d < 16
        invariant 0 <= d <= 16
        invariant entries == Hex1Prefix(d)
      {
        Hex1PrefixFresh(d);
        Add([LowerHexChar(d)], ByteToReal(17 * d));
        d := d + 1;
      }
    }

    /** The constructor of `hex2_`: a loop over every byte, adding its `%02x` spelling. Each
        key is new when it is added, so the table ends with 256 entries. */
    constructor Hex2()
      ensures entries == Hex2Map()
    {
      entries := map[];
      new;
      var i := 0;
      while i <= 0xff
        invariant 0 <= i <= 256
        invariant entries == Hex2Prefix(i)
      {
        Hex2PrefixFresh(i);
        Add(Format02x(i), ByteToReal(i));
        i := i + 1;
      }
    }
  }

  /** After `n` adds, `hex1` holds the digits below `n`, each with its doubled byte. */
  lemma {:induction false} Hex1PrefixSpec(n: nat, k: string)
    requires n <= 16
    ensures k in Hex1Prefix(n) <==> |k| == 1 && IsLowerHex(k[0]) && HexValue(k[0]) < n
    ensures k in Hex1Prefix(n) ==> Hex1Prefix(n)[k] == ByteToReal(17 * HexValue(k[0]))
    decreases n
  {
    if n > 0 {
      Hex1PrefixSpec(n - 1, k);
      if |k| == 1 && IsLowerHex(k[0]) && HexValue(k[0]) == n - 1 {
        LowerHexCharOf(k[0]);
        assert k == [LowerHexChar(n - 1)];
      }
    }
  }

  /** Each digit is new to `hex1` when it is added. */
  lemma {:induction false} Hex1PrefixFresh(n: nat)
    requires n < 16
    ensures [LowerHexChar(n)] !in Hex1Prefix(n)
  {
    Hex1PrefixSpec(n, [LowerHexChar(n)]);
  }

  /** A key of `hex2` is the `%02x` spelling of the byte it spells. */
  lemma {:induction false} SpeltFormat(k: string)
    requires IsPairKey(k)
    ensures Format02x(Spelt(k)) == k
  {
    var hi, lo := HexValue(k[0]), HexValue(k[1]);
    DivMod16(hi, lo);
    LowerHexCharOf(k[0]);
    LowerHexCharOf(k[1]);
  }

  lemma {:induction false} DivMod16(hi: nat, lo: nat)
    requires lo < 16
    ensures (16 * hi + lo) / 16 == hi && (16 * hi + lo) % 16 == lo
  {
  }

  /** After `n` adds, `hex2` holds the spellings of the bytes below `n`, each with its byte's
      value. */
  lemma {:induction false} Hex2PrefixSpec(n: nat, k: string)
    requires n <= 256
    ensures k in Hex2Prefix(n) <==> IsPairKey(k) && Spelt(k) < n
    ensures k in Hex2Prefix(n) ==> Hex2Prefix(n)[k] == ByteToReal(Spelt(k))
    decreases n
  {
    if n > 0 {
      Hex2PrefixSpec(n - 1, k);
      if k == Format02x(n - 1) {
        assert IsPairKey(k) && Spelt(k) == n - 1;
      } else if IsPairKey(k) && Spelt(k) == n - 1 {
        SpeltFormat(k);
      }
    }
  }

  /** Each byte's spelling is new to `hex2` when it is added. */
  lemma {:induction false} Hex2PrefixFresh(n: nat)
    requires n < 256
    ensures Format02x(n) !in Hex2Prefix(n)
  {
    Hex2PrefixSpec(n, Format02x(n));
  }

  /** `hex2` has exactly 256 keys: no two bytes share a spelling. */
  lemma {:induction false} Hex2PrefixSize(n: nat)
    requires n <= 256
    ensures |Hex2Prefix(n)| == n
  {
    if n > 0 {
      Hex2PrefixSize(n - 1);
      Hex2PrefixFresh(n - 1);
    }
  }

  /** The keys of `hex2` are exactly the two-character strings of lower-case hex digits,
      and each maps to the byte it spells, divided by 255. */
  lemma {:induction false} Hex2MapSpec(k: string)
    ensures k in Hex2Map() <==> IsPairKey(k)
    ensures k in Hex2Map() ==> Hex2Map()[k] == ByteToReal(Spelt(k))
  {
    Hex2PrefixSpec(256, k);
  }

  /** The keys of `hex1` are exactly the sixteen lower-case hex digits, and digit `d` maps to
      the byte `dd`, that is `17 * d`, divided by 255. */
  lemma {:induction false} Hex1MapSpec(k: string)
    ensures k in Hex1Map() <==> |k| == 1 && IsLowerHex(k[0])
    ensures k in Hex1Map() ==> Hex1Map()[k] == ByteToReal(17 * HexValue(k[0]))
  {
    Hex1PrefixSpec(16, k);
  }

  /** A single digit in `hex1` has the value `hex2` gives the doubled digit, so that `#f00`
      and `#ff0000` denote the same color. */
  lemma {:induction false} Hex1AgreesWithHex2(c: char)
    requires IsLowerHex(c)
    ensures [c] in Hex1Map() && [c, c] in Hex2Map()
    ensures Hex1Map()[[c]] == Hex2Map()[[c, c]] == ByteToReal(17 * HexValue(c))
  {
    var one, two := [c], [c, c];
    assert one[0] == c && two[0] == c && two[1] == c;
    Hex1MapSpec(one);
    Hex2MapSpec(two);
    var h := HexValue(c);
    var b := 16 * HexValue(two[0]) + HexValue(two[1]);
    assert b == 17 * h;
    assert Hex2Map()[two] == ByteToReal(b);
  }

  // ---------------------------------------------------------------------------------
  // Lookup

  /** The `j` characters at `pos`, case-folded, form a key of `table`. */
  predicate KeyAt(table: map<string, real>, s: string, pos: nat, j: nat) {
    pos + j <= |s| && LowerStr(s[pos..pos + j]) in table
  }

  /** The longest `n <= k` such that the `n` characters at `pos` form a key (0 when there
      is none). */
  function LongestKey(table: map<string, real>, s: string, pos: nat, k: nat): (n: nat)
    requires pos + k <= |s|
    ensures n <= k
    ensures n > 0 ==> KeyAt(table, s, pos, n)
    ensures forall j | n < j <= k :: !KeyAt(table, s, pos, j)
    decreases k
  {
    if k == 0 then 0
    else if KeyAt(table, s, pos, k) then k
    else LongestKey(table, s, pos, k - 1)
  }

  /** A symbols parser under `no_case` (no skipping: both tables are used inside `lexeme`):
      the longest key that the case-folded input at `pos` begins with, and its value. */
  function Lookup(table: map<string, real>, s: string, pos: nat): (r: Result<real>)
    requires pos <= |s|
    ensures r.Success? ==> pos < r.pos <= |s| && KeyAt(table, s, pos, r.pos - pos)
                           && r.value == table[LowerStr(s[pos..r.pos])]
    ensures r.Success? ==> forall j | r.pos - pos < j :: !KeyAt(table, s, pos, j)
    ensures r.Failure? ==> forall j | 0 < j :: !KeyAt(table, s, pos, j)
  {
    var n := LongestKey(table, s, pos, |s| - pos);
    if n == 0 then Failure else Success(table[LowerStr(s[pos..pos + n])], pos + n)
  }

  /** When every key has the same length `w`, the lookup reads exactly `w` characters. */
  lemma {:induction false} LookupFixedWidth(table: map<string, real>, w: nat, s: string, pos: nat)
    requires w >= 1 && pos <= |s|
    requires forall k | k in table :: |k| == w
    ensures Lookup(table, s, pos)
         == if KeyAt(table, s, pos, w)
            then Success(table[LowerStr(s[pos..pos + w])], pos + w)
            else Failure
  {
    var r := Lookup(table, s, pos);
    if r.Success? {
      assert |LowerStr(s[pos..r.pos])| == r.pos - pos;
    }
  }

  lemma {:induction false} LowerPair(s: string, p: nat)
    requires p + 2 <= |s|
    ensures LowerStr(s[p..p + 2]) == [ToLower(s[p]), ToLower(s[p + 1])]
  {
  }

  lemma {:induction false} ToLowerHex(c: char)
    ensures IsLowerHex(ToLower(c)) <==> IsHexDigit(c)
    ensures IsHexDigit(c) ==> HexValue(ToLower(c)) == HexValue(c)
  {
  }

  lemma {:induction false} Hex1KeysWidth()
    ensures forall k | k in Hex1Map() :: |k| == 1
  {
    forall k | k in Hex1Map() ensures |k| == 1 { Hex1MapSpec(k); }
  }

  /** What the `hex1` parser reads: one hex digit of either case, worth the byte that
      repeats it. `Hex1Lookup` proves this is the lookup in the table `Symbols.Hex1` builds. */
  function ParseHex1(s: string, pos: nat): Result<real>
    requires pos <= |s|
  {
    if pos < |s| && IsHexDigit(s[pos])
    then Success(ByteToReal(17 * HexValue(s[pos])), pos + 1)
    else Failure
  }

  /** What the `hex2` parser reads: two hex digits of either case, worth the byte they spell.
      `Hex2Lookup` proves this is the lookup in the table `Symbols.Hex2` builds. */
  function ParseHex2(s: string, pos: nat): Result<real>
    requires pos <= |s|
  {
    if pos + 2 <= |s| && IsHexDigit(s[pos]) && IsHexDigit(s[pos + 1])
    then Success(ByteToReal(16 * HexValue(s[pos]) + HexValue(s[pos + 1])), pos + 2)
    else Failure
  }

  /** The `hex1` symbols parser under `no_case`: the longest-match lookup in the sixteen-entry
      table reads exactly one hex digit of either case, and yields its doubled byte. */
  lemma {:induction false} Hex1Lookup(s: string, pos: nat)
    requires pos <= |s|
    ensures Lookup(Hex1Map(), s, pos) == ParseHex1(s, pos)
  {
    Hex1KeysWidth();
    LookupFixedWidth(Hex1Map(), 1, s, pos);
    if pos < |s| {
      assert LowerStr(s[pos..pos + 1]) == [ToLower(s[pos])];
      Hex1MapSpec([ToLower(s[pos])]);
      ToLowerHex(s[pos]);
    }
  }

  /** The `hex2` symbols parser under `no_case`: the longest-match lookup in the 256-entry
      table reads exactly two hex digits of either case, and yields the byte they spell. */
  lemma {:induction false} Hex2Lookup(s: string, pos: nat)
    requires pos <= |s|
    ensures Lookup(Hex2Map(), s, pos) == ParseHex2(s, pos)
  {
    forall k ensures k in Hex2Map() <==> IsPairKey(k) {
      Hex2MapSpec(k);
    }
    forall k | k in Hex2Map() ensures IsPairKey(k) && Hex2Map()[k] == ByteToReal(Spelt(k)) {
      Hex2MapSpec(k);
    }
    PairLookup(Hex2Map(), s, pos);
  }

  /** A lookup in a table of the two-digit spellings of the bytes, each worth its byte. */
  lemma {:induction false} PairLookup(table: map<string, real>, s: string, pos: nat)
    requires pos <= |s|
    requires forall k :: k in table <==> IsPairKey(k)
    requires forall k | k in table :: IsPairKey(k) && table[k] == ByteToReal(Spelt(k))
    ensures Lookup(table, s, pos) == ParseHex2(s, pos)
  {
    LookupFixedWidth(table, 2, s, pos);
    if pos + 2 <= |s| {
      LowerPair(s, pos);
      ToLowerHex(s[pos]);
      ToLowerHex(s[pos + 1]);
    }
  }

  /** Both digit parsers read a folded input as they read the input itself. */
  lemma {:induction false} ParseHex1IgnoresCase(s: string, pos: nat)
    requires pos <= |s|
    ensures ParseHex1(LowerStr(s), pos) == ParseHex1(s, pos)
  {
    if pos < |s| {
      ToLowerHex(s[pos]);
    }
  }

  lemma {:induction false} ParseHex2IgnoresCase(s: string, pos: nat)
    requires pos <= |s|
    ensures ParseHex2(LowerStr(s), pos) == ParseHex2(s, pos)
  {
    if pos + 2 <= |s| {
      ToLowerHex(s[pos]);
      ToLowerHex(s[pos + 1]);
    }
  }
}
