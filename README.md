# proto-ag-parser: color and gradient grammars

`sources/main.cpp` defines two Boost.Spirit Qi grammars for a drawing front end:

- `ColorGrammar` reads one color written as `#rrggbb`, `#rgb`, `rgb(r, g, b)` or
  `rgba(r, g, b, a)` and yields an `(r, g, b, a)` tuple of components in [0, 1].
- `GradientGrammar` reads `gradient(` one or more stops separated by commas, then `)`.
  A stop is a color followed by its offset in [0, 1].

Both grammars are case-insensitive (`no_case`) and skip `ascii::space` between tokens. The
hexadecimal forms read their digits through two symbol tables: `hex1` for single digits and
`hex2` for digit pairs. The tables are built once by their constructors.

The model has six modules:

- `Lexing` (`lexing.dfy`): the outcome of a parser run (`Result`), the space skipper, case
  folding and `no_case` literals. A parser is a function of the whole input `s` and of the
  iterator position `pos`. Its result is `Failure` or the attribute together with the
  position the iterator moved to.
- `Numbers` (`numbers.dfy`): `double_` for signed decimals, and the range check shared by
  `check_RGBA_component` and `check_stop_offset`. Numbers are exact `real`s. `Decimal` is a
  decimal literal as written, with a proof that `double_` reads its text back as its value.
- `HexTables` (`hex_tables.dfy`): the `qi::symbols` table as a class whose `Add` updates
  its entries. Its two constructors are the loops that fill `hex1` and `hex2`, each proved to
  build a table whose keys and values are stated outright. The module also holds the
  longest-match lookup under `no_case`.
- `Colors` (`colors.dfy`): the color rules as functions, and `ColorGrammar::parse` as a
  method. `Literal` is a color written out; round-trip lemmas show that each rule reads it
  back as the color it denotes, or rejects it when a component is out of range.
- `SepLists` (`lists.dfy`): the list operator `item % ','` for any item parser, and how a
  parenthesised list of item texts is read back.
- `Gradients` (`gradients.dfy`): the gradient rules and `GradientGrammar::parse`, with the
  round trip for a gradient written out.

Where the rules' text and the behaviour they describe could be read two ways, the model
follows the code:

- The code checks nothing after the hex digits. `#abcd` therefore reads as `#abc` and leaves
  `d` unconsumed.
- The long form is tried first, so six digits always give the long reading.

## Model

| member | source | states |
|---|---|---|
| Lexing.SkipSpaceSpec | sources/main.cpp:82 | the skipper passes over spaces only and stops at the first non-space or at the end |
| Lexing.Lit | sources/main.cpp:133-134 | a literal under `no_case` that matches ends exactly its length past the skipped spaces |
| Lexing.LitReads | sources/main.cpp:133-134 | a lower-case keyword written after optional spaces is matched, in full |
| Lexing.LitMismatch | sources/main.cpp:133-134 | a literal fails as soon as one folded input character differs from it |
| Lexing.LitIgnoresCase | sources/main.cpp:133 | folding the input to lower case does not change whether a literal matches or where it ends |
| Lexing.SkipOver | sources/main.cpp:82 | the post-skip loop of `phrase_parse` leaves the iterator at the first non-space after the match |
| Numbers.Unsigned | sources/main.cpp:135 | the unsigned part of `double_` consumes at least one character and is never negative |
| Numbers.Double | sources/main.cpp:135 | `double_` that matches consumes at least one character past the skipped spaces |
| Numbers.UnitDouble | sources/main.cpp:167-170 | a checked number matches exactly when `double_` matches with a value in [0, 1], and then with that same value and end: never clamped |
| Numbers.UnsignedReadsDecimal | sources/main.cpp:135 | the digits, dot and fraction of a decimal are read as its exact value and consumed entirely |
| Numbers.DoubleReadsDecimal | sources/main.cpp:135 | `double_` reads back any well-formed signed decimal's text as its value, ending right after it |
| Numbers.DoubleIgnoresCase | sources/main.cpp:135 | `double_` reads a case-folded input exactly as it reads the input |
| Numbers.UnitDoubleIgnoresCase | sources/main.cpp:135 | the range-checked number reads a case-folded input exactly as it reads the input |
| HexTables.ByteToReal | sources/main.cpp:35-36 | `BYTE_TO_DOUBLE` gives a value in [0, 1] |
| HexTables.Format02x | sources/main.cpp:70 | `%02x` spells a byte as two lower-case hex digits that read back as that byte |
| HexTables.Symbols.Add | sources/main.cpp:70-71 | `add` enters a new non-empty key with its value, and leaves an existing key's value alone |
| HexTables.Symbols.Hex1 | sources/main.cpp:44-65 | the `hex1_` constructor fills the table with exactly `Hex1Map()` |
| HexTables.Symbols.Hex2 | sources/main.cpp:67-74 | the `hex2_` loop over 0..0xff fills the table with exactly `Hex2Map()` |
| HexTables.Hex1PrefixSpec | sources/main.cpp:46-62 | after the first `n` adds, `hex1` holds exactly the digits below `n`, each worth its doubled byte |
| HexTables.Hex2PrefixSpec | sources/main.cpp:69-72 | after `n` turns of the loop, `hex2` holds exactly the spellings of the bytes below `n`, each worth its byte |
| HexTables.Hex2PrefixSize | sources/main.cpp:69-72 | no two bytes share a spelling, so `hex2` ends with 256 entries |
| HexTables.Hex1MapSpec | sources/main.cpp:44-65 | `hex1`'s keys are exactly the 16 lower-case hex digits, digit `d` worth `17 * d / 255` |
| HexTables.Hex2MapSpec | sources/main.cpp:67-74 | `hex2`'s keys are exactly the two-digit lower-case hex strings, each worth the byte it spells over 255 |
| HexTables.Hex1AgreesWithHex2 | sources/main.cpp:47-72 | digit `d` in `hex1` has the value `hex2` gives `dd`, namely `17 * d / 255` |
| HexTables.LongestKey | sources/main.cpp:113 | the longest key length at a position, with no longer key there |
| HexTables.Lookup | sources/main.cpp:113 | a symbols parser matches the longest case-folded key at the position and yields its value; it fails when no key is there |
| HexTables.LookupFixedWidth | sources/main.cpp:113 | in a table whose keys all have width `w`, the lookup reads exactly `w` characters or fails |
| HexTables.Hex1Lookup | sources/main.cpp:124 | the `hex1` lookup reads exactly one hex digit of either case and yields its doubled byte over 255 |
| HexTables.Hex2Lookup | sources/main.cpp:113 | the `hex2` lookup reads exactly two hex digits of either case and yields the byte they spell over 255 |
| HexTables.PairLookup | sources/main.cpp:113 | any table whose keys are exactly the two-digit lower-case hex pairs, each mapped to its byte over 255, reads two hex digits of either case at a position and fails when fewer remain or one is not a hex digit |
| HexTables.ParseHex1IgnoresCase | sources/main.cpp:122-126 | reading one digit does not depend on its case |
| HexTables.ParseHex2IgnoresCase | sources/main.cpp:111-115 | reading a digit pair does not depend on its case |
| Colors.PairValue | sources/main.cpp:113 | a digit pair is worth a value in [0, 1] |
| Colors.DoubledDigit | sources/main.cpp:124 | a single digit is worth what the pair repeating it is worth |
| Colors.HexLong | sources/main.cpp:110-118 | a long form ends exactly 7 characters past the skipped spaces, with components in [0, 1] and alpha 1 |
| Colors.HexShort | sources/main.cpp:121-129 | a short form ends exactly 4 characters past the skipped spaces, with components in [0, 1] and alpha 1 |
| Colors.HexLongReads | sources/main.cpp:110-118 | the long form matches iff `#` and six hex digits follow the spaces, with no space inside; each pair gives one component |
| Colors.HexShortReads | sources/main.cpp:121-129 | the short form matches iff `#` and three hex digits follow the spaces; `#rgb` gives the color of `#rrggbb` |
| Colors.HexExpr | sources/main.cpp:106-107 | a hex color has alpha 1, components in [0, 1], and consumes `#` and either 6 or 3 digits |
| Colors.HexLongRoundTrip | sources/main.cpp:106-118 | `#` and six digits are read as the long form, even though the short form would also match |
| Colors.HexShortRoundTrip | sources/main.cpp:106-129 | `#` and three digits not followed by three more are read as the short form, leaving any further digit unconsumed |
| Colors.HexRoundTrip | sources/main.cpp:106-129 | either hex form written after spaces reads back as the color it denotes |
| Colors.Channels | sources/main.cpp:135-139 | `n` checked components separated by commas yield `n` values, each in [0, 1] |
| Colors.ChannelsRoundTrip | sources/main.cpp:135-139 | written components followed by `)` read back as their values in order, or fail when one is outside [0, 1] |
| Colors.RgbExpr | sources/main.cpp:132-142 | `rgb(...)` yields components in [0, 1] and alpha 1 |
| Colors.RgbaExpr | sources/main.cpp:145-156 | `rgba(...)` yields four components in [0, 1] |
| Colors.RgbRoundTrip | sources/main.cpp:132-142 | a written `rgb(r,g,b)` yields `(r, g, b, 1)` with no 0-255 scaling, or fails when a component is out of range |
| Colors.RgbaRoundTrip | sources/main.cpp:145-156 | a written `rgba(r,g,b,a)` yields the four written numbers, or fails when one is out of range |
| Colors.OnlyRgb | sources/main.cpp:145-147 | where `rgb(` is written, neither hex form nor `rgba_expr` matches |
| Colors.OnlyRgba | sources/main.cpp:132-134 | where `rgba` is written, neither hex form nor `rgb_expr` matches, since `(` must follow `rgb` |
| Colors.ColorRule | sources/main.cpp:102 | whichever alternative matches, every component is in [0, 1] and input is consumed |
| Colors.ColorRgbRoundTrip | sources/main.cpp:102-142 | on a written `rgb(...)` the ordered choice yields what `rgb_expr` yields |
| Colors.ColorRgbaRoundTrip | sources/main.cpp:102-156 | on a written `rgba(...)` every earlier alternative fails and the choice yields what `rgba_expr` yields |
| Colors.ColorRoundTrip | sources/main.cpp:102-156 | any well-formed literal after spaces reads back as the color it denotes, or fails when a component is out of range; never a clamped color |
| Colors.ParseColor | sources/main.cpp:80-87 | returns true iff `color` matches; then the value is that color, in range, and the iterator is past it and the following spaces; on failure the iterator is past the leading spaces |
| Colors.HexLongIgnoresCase | sources/main.cpp:110-118 | the long form does not depend on the case of its digits |
| Colors.HexShortIgnoresCase | sources/main.cpp:121-129 | the short form does not depend on the case of its digits |
| Colors.ChannelsIgnoresCase | sources/main.cpp:135-139 | the component list reads a case-folded input as it reads the input |
| Colors.FunctionalIgnoresCase | sources/main.cpp:133-156 | each piece of a functional form reads a case-folded input as it reads the input |
| Colors.RgbIgnoresCase | sources/main.cpp:132-142 | `RGB(...)` and `rgb(...)` read the same |
| Colors.RgbaIgnoresCase | sources/main.cpp:145-156 | `RGBA(...)` and `rgba(...)` read the same |
| Colors.ColorIgnoresCase | sources/main.cpp:102-156 | `color` yields the same result and end on an input and on its lower-case folding |
| SepLists.SepTail | sources/main.cpp:196 | the repetition after the first item never fails and never moves backwards |
| SepLists.SepList | sources/main.cpp:196 | a list holds at least one item, the first item read, and ends no earlier than it |
| SepLists.TailEnds | sources/main.cpp:196 | when the comma or the item after it fails, the repetition ends before the comma |
| SepLists.TailRoundTrip | sources/main.cpp:196 | a written tail reads back item by item up to the `)`; an item denoting nothing ends it at a comma |
| SepLists.AllFromSome | sources/main.cpp:196 | the items from an index on all yield a value exactly when each of them does |
| SepLists.ValuesFromSome | sources/main.cpp:196 | when each item from an index on yields its value, the values collected are those values in textual order |
| SepLists.ListRoundTrip | sources/main.cpp:196 | a written list reads back as its items' values in order, or fails or stops at a comma |
| SepLists.ListCloses | sources/main.cpp:196-197 | the `)` after the list is read exactly when every item denotes something |
| SepLists.EnclosedRoundTrip | sources/main.cpp:192-198 | keyword, `(`, written list and `)` read back as the items' values, or fail when one denotes nothing |
| SepLists.EnclosedTextRoundTrip | sources/main.cpp:192-198 | the same for the whole text written after optional spaces |
| Gradients.StopRule | sources/main.cpp:200-201 | a stop that matches has color components and offset in [0, 1] |
| Gradients.StopTailValid | sources/main.cpp:196-201 | every stop the repetition reads is valid |
| Gradients.StopList | sources/main.cpp:196 | a stop list holds at least one stop, all valid |
| Gradients.GradientRule | sources/main.cpp:192-198 | a gradient holds at least one stop, all valid |
| Gradients.ParseGradient | sources/main.cpp:177-184 | returns true iff `gradient` matches; then the stops are appended in order to the caller's vector and the iterator is past the gradient and the following spaces; on failure the iterator stays |
| Gradients.StopColor | sources/main.cpp:201 | the color of a written stop reads back as the color it denotes |
| Gradients.StopOffset | sources/main.cpp:210-213 | a written offset reads back as its value, or fails when outside [0, 1] |
| Gradients.StopReads | sources/main.cpp:200-201 | a written stop reads back as the stop it denotes, or fails when its color or offset is out of range |
| Gradients.StopsReadBack | sources/main.cpp:200-201 | every stop of a written list reads back wherever it is written before `,` or `)` |
| Gradients.AllFromDenotes | sources/main.cpp:210-213 | the stops all denote something exactly when every color and offset is in range |
| Gradients.ValuesFromDenotes | sources/main.cpp:196 | the stops read are the written stops' meanings, in textual order |
| Gradients.ReadingAgrees | sources/main.cpp:192-198 | reading the stops' texts as what they denote is reading the gradient literal |
| Gradients.GradientRuleIs | sources/main.cpp:192-198 | `gradient` is the keyword and a parenthesised list of stops |
| Gradients.EnclosedReads | sources/main.cpp:192-198 | the keyword and the written stops in parentheses read as the gradient literal reads |
| Gradients.GradientRoundTrip | sources/main.cpp:192-213 | a written gradient reads back as its stops in textual order, unsorted; one stop out of range fails the whole gradient |
| Gradients.GradientOpens | sources/main.cpp:194-195 | `gradient` and `(` written after spaces are read in turn |
| Gradients.ColorStart | sources/main.cpp:102 | a color only starts with `#` or with `r` in either case |
| Gradients.EmptyGradientFails | sources/main.cpp:196 | `gradient()` is rejected, since the list needs one stop |
| Gradients.NoStopAt | sources/main.cpp:196 | a `)` where the first stop should start makes the stop list fail |
| Gradients.StopIgnoresCase | sources/main.cpp:200-201 | a stop reads the same on a case-folded input |
| Gradients.StopTailIgnoresCase | sources/main.cpp:196 | the repetition of stops reads the same on a case-folded input |
| Gradients.StopListIgnoresCase | sources/main.cpp:196 | the stop list reads the same on a case-folded input |
| Gradients.GradientIgnoresCase | sources/main.cpp:192-198 | `gradient` yields the same stops and end on an input and on its lower-case folding |

## Left out

- `readAll` (sources/main.cpp:21-32) is left out: it only reads a stream into a string. The model takes that string as its input.
- The `main` driver loop and its recovery by skipping to the next line (sources/main.cpp:239-282) are left out as console I/O. So are the `PRINT_*` macros (sources/main.cpp:218-237).
- IEEE double rounding is left out. Values, `BYTE_TO_DOUBLE` and `double_` results are exact reals, so `0x11 / 255` is exactly `1 / 15`.
- Numbers.Double: reads only an optional sign, digits and an optional fraction. The exponent, `inf` and `nan` spellings that `double_` also accepts are not modelled. `inf` and `nan` would fail both range checks anyway.
- Colors.ParseColor: says nothing about the output tuple on failure. Spirit may leave components already assigned there.
- Gradients.ParseGradient: says nothing about the vector on failure. Spirit may leave stops already appended there.
- Rule names (for example `color.name("color")`) serve only diagnostics and are left out. `parse` reports no error position or message.
- The ternary search tree inside `qi::symbols` is left out. Only the longest-match lookup it performs is modelled.
- `boost::format` is modelled only as the `%02x` spelling of a byte.
- Colors.ColorRoundTrip: covers literals written without spaces inside. The rules themselves also accept spaces between the tokens of the functional forms; `Lit` and `double_` model that.
- Gradients.GradientRoundTrip: covers gradients written without spaces except one space between each stop's color and offset. Other spacings are accepted by the rules but are not covered by this lemma.
