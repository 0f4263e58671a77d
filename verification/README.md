# Verification of i400

i400 is a `database/sql` driver for Db2 on IBM i. This project models the engines under its I/O and proves what
they promise. Each `.dfy` file is one module; `dafny verify dfyconfig.toml` checks all of them.

- **Bidirectional reordering** (`Bidi*.dfy`): the table-driven level machine with its deferred run, the assignment
  of final types, the reversals that build the display order, mirroring, numerals, marker removal and the maps, in
  one phase or two, against the rules of UAX #9 (sections 3.3.4 to 3.3.6 and 3.4). `BidiMachine` keeps the fields
  and arrays of the working object; `BidiOrdering` is the whole transformation; `BidiLayout` adds shaping and
  padding.
- **Arabic shaping** (`Arabic*.dfy`): the in-place loop that chooses presentation forms and merges lam-alef pairs,
  the Seen and yeh-with-hamza passes, deshaping, and which texts survive the round trip.
- **DECFLOAT** (`DecimalMath`, `Decfloat*`, `Declets`): text to decimal64 and decimal128 in densely packed decimal
  (IEEE 754-2008, sections 3.5.2 and 4.3.1) and back.
- **Packed and zoned decimals** (`DecimalDigits`, `PackedDecimals`, `DecimalExponents`, `PackedFields`,
  `DecimalTexts`).
- **Requests on a connection** (`RequestProtocol`, `RequestOutcomes`): callers, cancellation watchers, context
  callbacks and the server as a state machine over their atomic steps.
- **Result sets** (`ResultSets`, `ResultSetRows`), the **statement cache** (`StatementCache*.dfy`), the **mixed
  codec** (`Mixed*.dfy`), **batch blocks** (`Batch*.dfy`) and the **SQL scanners** (`Sql*.dfy`).

What each engine computes is also told apart from its own definitions: final types and levels by rules over positions
(`BidiTypeRules`, `BidiDelimiters`, `BidiVariants`, `BidiPhases`), displayed lines and shown characters (`BidiLines`,
`BidiShown`), letter forms by joining types (`ArabicForms`, `ArabicPassForms`), words by the numbers of the standard
(`DecfloatStandard`), texts by their shape (`DecfloatTexts`, `DecimalTexts`, `SqlPieces`, `SqlNesting`), bytes by
their places (`PackedFields`, `BatchLayout`), and codes by the conversion tables (`MixedSurvival`, `MixedReading`).

Code that updates fields, arrays or buffers is modelled by classes and methods over fields and arrays, each proved
equal to a function of its old state; the lemmas are about those functions. Character classes, conversion tables,
answers of the server and clocks are parameters.

Where the code differs from what one might expect, the exact condition is proved:

- The right-to-left level table lets an Arabic number end the context of a European number. Its levels are those of
  UAX #9 exactly when no number is cut off in this way (`BidiRtl.RtlMachineIsUax9Iff`).
- A DECFLOAT value can be rounded twice, once to the precision and once at the smallest exponent. The result is the
  half-even rounding exactly when this does no harm (`DecfloatRounding.DoubleRounding`).
- A plain request can leave a past deadline on a connection it handed back, because its context callback has no
  guard as the watcher of a statement request has (`RequestProtocol.DeadlineLeftIff`).
- An exponent of more than nine digits in a decimal parameter is not read. A positive one is refused, a negative one
  can bind a wrong value without an error (`DecimalExponents.TextRoundTripIff`).
- A yeh with hamza at the end of a word loses its hamza unless a space follows it, and marks inside a lam-alef pair
  change places with the alef (`ArabicSurvival.SurvivesIff`).
- U+000E does not survive the mixed codec (`MixedCodec.MixedRoundTripIff`).
- A failure between two result sets ends a query without giving its statement back (`ResultSets.QueryRows.NextThenClose`).
- The package tokenizer nests block comments, the placeholder scanner does not (`SqlScanners.ScannersAgree`).

## Model

| member | source | states |
|---|---|---|
| BidiLtr.LtrMachineIsUax9 | internal/bidi/order_tables.go:164-171 | for every sequence of final types, the one-pass machine on the left-to-right table, with its back-patched run, gives the levels of rules W7, N1, N2 and I1 |
| BidiRtl.RtlMachineReading | internal/bidi/order_tables.go:173-178 | the right-to-left table computes the rules with W7 read so that an Arabic number ends the context of L |
| BidiRtl.RtlMachineIsUax9Iff | internal/bidi/order_tables.go:173-178 | its levels are those of UAX #9 exactly when no number is cut off by an Arabic number before neutrals and an L or a number |
| BidiTables.TablesOk | internal/bidi/order_tables.go:164-231 | every entry of all eight tables names a row, has a known action, and rewrites a conditional run only in a conditional state |
| BidiVariants.WindowsMachine | internal/bidi/order_tables.go:197-203 | the Windows compatible table keeps numbers two levels up and gives a neutral the direction of R exactly between R on the one side and R or a number on the other |
| BidiVariants.TripLtrMachine | internal/bidi/order_tables.go:180-186 | the levels of the left-to-right round-trip table: a stretch of numbers and neutrals under way is right to left exactly when R ends it |
| BidiVariants.TripRtlMachine | internal/bidi/order_tables.go:188-195 | the levels of the right-to-left round-trip table: which neutrals behind L or a European number are left to right |
| BidiMachine.BidiOrder.SymmetricSwap | internal/bidi/order.go:172-185 | the mirroring mark of one position changes exactly when the text is symmetric and the level changes parity |
| BidiMachine.BidiOrder.ImplicitProcessing | internal/bidi/order.go:188-297 | one step keeps the machine consistent on any table (run open exactly in conditional states, levels 0 to 4, marks following levels) and on tables without marker insertion is the step of the level machine |
| BidiMachine.BidiOrder.ResolveLevels | internal/bidi/order.go:886-900 | the loop over the text and the closing separator leave the levels the machine computes for the final types |
| BidiMachine.BidiOrder.LevelsOnChosenTable | internal/bidi/order.go:586-655 | whichever of the eight tables is chosen, over any text every index is in range, no action is unknown, and confirmed insertions never exceed the recorded points |
| BidiMachine.BidiOrder.FillTypeArray | internal/bidi/order.go:433-519 | the types written with look-back patches are the look-ahead types, which `BidiTypeRules.FirstTypesByRules` describes |
| BidiMachine.BidiOrder.FillTypeArray2 | internal/bidi/order.go:522-583 | the same for the second phase, in the display order of the first (`BidiTypeRules.SecondTypesByRules`) |
| BidiMachine.TypedStep | internal/bidi/order.go:446-517 | reading one character, with the patches it makes, keeps every earlier type equal to its look-ahead definition |
| BidiTypeRules.WeakRules | internal/bidi/order.go:433-519 | rules W1 to W6 over positions: R and AL are R, a European number behind an Arabic letter is AN, terminators join a European number they touch, a single separator joins two numbers of one kind, a mark takes the type before it, other neutrals are N |
| BidiTypeRules.FirstTypesByRules | internal/bidi/order.go:433-519 | the same where delimiters turn classes into block separators; visual text stays neutral |
| BidiTypeRules.SecondTypesByRules | internal/bidi/order.go:522-583 | the types of the second phase by the same rules in display order, with its different reading of marks and of separators between Arabic digits |
| BidiDelimiters.DelimitedStretch | internal/bidi/order.go:443-464 | text outside delimiters, and the delimiters, separate blocks; text between them keeps its classes, a doubled closing delimiter included; what follows is read afresh |
| BidiDelimiters.UnclosedStretch | internal/bidi/order.go:443-464 | a stretch without closing delimiter runs to the end |
| BidiReorder.FlipCount | internal/bidi/order.go:676-694 | how often the reversals turn a pair of positions around depends on the lowest level between them |
| BidiReorder.ReversalsShowByLevels | internal/bidi/order.go:676-694 | reversing the runs at every level down to the lowest odd one shows every pair of positions in the order rule L2 gives it |
| BidiReorder.ShownByLevelsUnique | internal/bidi/order.go:658-696 | only one permutation shows the positions by their levels, so the reversals of pass2 compute the order of rule L2 and no other |
| BidiPasses.Pass2 | internal/bidi/order.go:658-696 | the loop builds in place the identity map, or that of the first phase, permuted by the order of rule L2 |
| BidiPasses.Ucqsymm | internal/bidi/order.go:122-138 | the binary search finds the mirror image of a character |
| BidiPasses.SymmetricInvolution | internal/bidi/order_tables.go:137-162 | mirroring twice is the identity |
| BidiShown.SymmetricMirrors | internal/bidi/order_tables.go:137-162 | the mirror image of a character is its partner among the brackets, guillemets and small forms, listed by code, and any other character itself |
| BidiShown.ShownInOnePhase | internal/bidi/order.go:699-718 | a neutral is mirrored exactly at an odd level when one side of a text with a visual side swaps; a European digit is shown as Arabic exactly under National, or Contextual with final type AN, an Arabic digit as European exactly under Nominal |
| BidiShown.ShownInTwoPhases | internal/bidi/order.go:903-912 | the same over two phases: mirrored once for the source and once for the destination |
| BidiPasses.Pass3 | internal/bidi/order.go:699-718 | every output unit is the mapped input unit with its numeral or mirror substitution; which one `BidiShown` tells from class, level and options |
| BidiPasses.RemoveMarkers | internal/bidi/order.go:913-925 | exactly the LRM and RLM units go, and the others keep their order |
| BidiPasses.Invert | internal/bidi/order.go:996-1010 | the source map is the exact partial inverse of the destination map, -1 where nothing maps |
| BidiOrdering.Order | internal/bidi/order.go:726-1010 | the whole transformation: types, levels, order, substitution, removal and both maps, in one phase or two |
| BidiTheorems.LeftToRightIsUax9 | internal/bidi/order.go:886-901 | a left-to-right text in one phase with the default settings has the levels of UAX #9 and the map of the one order they allow |
| BidiTheorems.RightToLeftIsUax9Iff | internal/bidi/order.go:886-901 | a right-to-left text has them exactly when its types have no number cut off by an AN |
| BidiPhases.OnePhaseLevels | internal/bidi/order.go:586-655 | which rules give the levels of a single phase, by base direction, round-trip and Windows option, and that text visual on a side is ordered by them while text logical on both keeps its order |
| BidiPhases.TwoPhaseLevels | internal/bidi/order.go:903-1010 | the same for both of two phases: the first from the orientation of the source to a line from the left, the second by that of the destination |
| BidiTheorems.OutputComesFromSource | internal/bidi/order.go:906-1010 | every output unit stands for the source unit its map entry names, the maps invert each other, without removal the map is a permutation, and a source position without an entry is a marker that was to be removed |
| BidiTheorems.OnlyMarkersRemoved | internal/bidi/order.go:913-925 | a source position without a destination held a marker |
| BidiLines.MinKept | internal/bidi/order.go:676-694 | the lowest level between two characters is the same in the text and in the line it is shown as |
| BidiLines.DisplayTwice | internal/bidi/order.go:676-694 | the order of rule L2 is undone by the order of the line's own levels |
| BidiLines.TwoPhasesKeepLine | internal/bidi/order.go:886-912 | from one implicit orientation to the other in two phases without marker removal, the text that comes out is displayed as the same line as the text that went in |
| BidiLines.VisualOutputIsLine | internal/bidi/order.go:886-912 | logical text made visual, without marker removal, is the displayed line, from the side the orientation says |
| BidiLines.VisualInputIsLine | internal/bidi/order.go:886-912 | visual text made logical, without marker removal, is displayed as the line that went in |
| BidiLines.LogicalStays | internal/bidi/order.go:886-912 | logical text that stays logical in one phase, without marker removal, keeps its order |
| BidiLines.VisualToVisual | internal/bidi/order.go:886-912 | visual text, without marker removal, stays as it is, or is turned around when its orientation changes |
| BidiLayout.LayOut | internal/bidi/layout.go:66-86 | the text is reordered, then shaped for visual or deshaped for logical output, then padded with spaces; its length is kept unless markers are removed and the text is shaped |
| ArabicTables.FormOfLetter | internal/bidi/tables.go:8-59 | every form that can be chosen for a letter is a form of that letter |
| ArabicTables.FormOfLigature | internal/bidi/shape.go:312-324 | every form of a ligature expands to the alef it was made from |
| ArabicShaping.StepProgress | internal/bidi/shape.go:182-291 | each turn of the loop merges an alef away or moves on, so that the loop ends although it jumps back |
| ArabicShaping.ShapingRoutine | internal/bidi/shape.go:143-294 | the loop ends, stays inside the buffer, and in reading order does the same in both directions; which form each unit gets `ArabicForms.FormsByRule` tells |
| ArabicForms.LetterLinks | internal/bidi/tables.go:30-43 | the links of the letters are the joining types of Unicode, and lead to the isolated form |
| ArabicForms.FormsByRule | internal/bidi/shape.go:182-294 | a letter of a nominal text is isolated, final, initial or medial exactly as it joins to neither side, the one before, the one after or both; a mark takes its second form exactly on a connection, apart from U+064C, U+064D and lam-alef; a lam-alef pair is one unit with its marks behind |
| ArabicRoundTrip.ShapingKeepsText | internal/bidi/shape.go:143-294 | shaped text reads letter by letter as the text, marks after their lam-alef pair, with one space for every pair |
| ArabicRoundTrip.ShapedLength | internal/bidi/shape.go:143-294 | shaping keeps the length of every buffer and writes only UTF-16 units |
| ArabicPasses.ShapeSeenNear | internal/bidi/shape.go:537-550 | exactly the spaces after a Seen form, in reading order, become tails |
| ArabicPasses.ShapeYehHamzaTwoCellNear | internal/bidi/shape.go:573-604 | final yehs with hamza lose it to the space after them, if there is one |
| ArabicPasses.DeshapeYehHamzaTwoCellNear | internal/bidi/shape.go:606-617 | exactly the pairs of a yeh and a hamza form become a yeh with hamza and a space |
| ArabicPasses.UndonePasses | internal/bidi/shape.go:61-69 | undoing both passes gives the shaped units back, except for tails and hamzas that had no cell |
| ArabicPassForms.PassesByPlace | internal/bidi/shape.go:537-604 | each unit after both passes, by the unit before it in reading order: what fills a space and which yeh loses its hamza |
| ArabicPassForms.UndoneByPlace | internal/bidi/shape.go:551-617 | each unit after undoing them, for any units |
| ArabicDeshaping.DeshapeLamAlefAuto | internal/bidi/shape.go:511-532 | the in-place loop expands ligatures from the left as long as the padding lasts |
| ArabicPassForms.ExpandedByPlace | internal/bidi/shape.go:459-510 | where every unit stands after one ligature is taken apart, in either direction |
| ArabicDeshaping.ExpandKeeps | internal/bidi/shape.go:511-532 | with enough padding, in either direction, no ligature is left and the letters are kept |
| ArabicDeshaping.ShapeText | internal/bidi/shape.go:96-132 | shaping with the driver's options is the choice of forms followed by both passes |
| ArabicDeshaping.DeshapeText | internal/bidi/shape.go:59-95 | deshaping with the driver's options undoes the passes, expands the ligatures and maps forms to letters |
| ArabicSurvival.RightToLeftBack | internal/bidi/shape.go:41-136 | for right-to-left output the round trip gives the ordered text with the hamzas that survive |
| ArabicSurvival.LeftToRightBack | internal/bidi/shape.go:41-136 | the same for left-to-right output, with the padding in front |
| ArabicSurvival.SurvivesIff | internal/bidi/shape.go:41-136 | in either direction a nominal text comes back unchanged exactly when no mark stands inside a lam-alef pair, it has no tail character, and every yeh with hamza joins on, precedes a space, or for right-to-left output comes last in a text with a pair |
| DecfloatRounding.RoundDropIsHalfEven | decfloat_encode.go:259-270 | dropping digits rounds to nearest, ties to even |
| DecfloatRounding.HalfEvenUnique | decfloat_encode.go:259-270 | there is only one such rounding |
| DecfloatRounding.FitFailsIff | decfloat_encode.go:110-156 | a value is refused exactly when its rounding to the precision exceeds the largest finite value |
| DecfloatRounding.FitRounds | decfloat_encode.go:110-156 | otherwise the result is within 0.55 units of the last place kept, and half-even when one step rounds |
| DecfloatRounding.DoubleRounding | decfloat_encode.go:124-143 | when both steps round, the result is the half-even rounding of the value exactly under a stated condition on the digits |
| DecfloatRounding.DoubleRoundingExample | decfloat_encode.go:124-143 | an input for which it is not |
| Declets.BuildTable | decfloat_encode.go:30-41 | the table built by the loop holds the lowest declet of every number |
| Declets.UnpackPacked | sql.go:2862-2892 | unpacking the declet of a number gives the number |
| DecfloatStandard.DecletDigits | decfloat_encode.go:30-41 | the table holds, bit by bit, the declet of the standard for every three digits, by which of them are 8 or 9 |
| DecfloatStandard.DecodedDigits | sql.go:2862-2892 | every ten bits, canonical or not, decode to the digits the standard packs in them |
| DecfloatStandard.PackedIsDecimal64 | decfloat_encode.go:158-197 | the word of a finite value: sign bit, combination, exponent with bias 398, five declets |
| DecfloatStandard.PackedIsDecimal128 | decfloat_encode.go:158-197 | the words of a finite value: sign bit, combination, exponent with bias 6176, eleven declets |
| DecfloatStandard.ReadsDecimal64 | sql.go:2913-2970 | any decimal64 word is read from these parts, infinities and both NaNs included |
| DecfloatStandard.ReadsDecimal128 | sql.go:2972-3037 | any two decimal128 words are read from these parts |
| DecfloatStandard.RangeOfDecimal64 | decfloat_encode.go:17-24 | exactly the coefficients below 10^16 with exponents from -398 to 369 are kept as they are, and nothing else comes out |
| DecfloatStandard.RangeOfDecimal128 | decfloat_encode.go:17-24 | exactly the coefficients below 10^34 with exponents from -6176 to 6111 |
| DecfloatCodec.ReadPacked | decfloat_encode.go:158-197 | the words of a finite value read back as its sign, coefficient and exponent |
| DecfloatCodec.CombinationFields | decfloat_encode.go:158-172 | no finite value gets the combination field of a NaN or an infinity |
| DecfloatWords.EncodeFinite | decfloat_encode.go:110-197 | the words built by the loops are those of the rounded value, or the value is refused |
| DecfloatWords.DecodeDecfloat16 | sql.go:2913-2970 | decoding eight bytes gives the value the words denote |
| DecfloatWords.DecodeDecfloat34 | sql.go:2972-3037 | decoding sixteen bytes gives the value the words denote, in four groups of digits |
| DecfloatText.DecodeDecfloat34Text | sql.go:3018-3037 | the digits joined as text are the decimal text of the value |
| DecfloatText.ParseFormatted | sql.go:3052-3080 | parsing formatted digits gives the same number |
| DecfloatText.ParseRendered | decfloat_encode.go:204-256 | so does parsing the text of any value, NaNs and infinities included |
| DecfloatTexts.ReadsNumber | decfloat_encode.go:204-256 | sign, digits, point, digits and exponent between spaces are read as the number they show, and refused when the exponent exceeds 64 bits |
| DecfloatTexts.OnlyNumbers | decfloat_encode.go:204-256 | nothing else is read as a finite value |
| DecfloatTexts.ReadsName | decfloat_encode.go:204-256 | inf, infinity, nan and snan in any case, with a sign, are read as these values |
| DecfloatTexts.OnlyNames | decfloat_encode.go:204-256 | nothing else is read as one of these |
| DecfloatTexts.WrittenPlainly | sql.go:3052-3080 | a finite value is written without exponent: as many digits after the point as a negative exponent says, the zeros of a positive one, and no superfluous zeros in front |
| DecfloatText.EncodeDecfloat | decfloat_encode.go:63-107 | encoding fails exactly on text that is no number and on values out of range, and the words print and parse as the rounded value; their layout is that of `DecfloatStandard` |
| DecimalDigits.DigitsDenote | numeric_param.go:48-130 | the digits denote the number truncated toward zero at the scale, and zero is never negative |
| DecimalDigits.DigitsFit | sql.go:3905-3908 | the digits are too many exactly when the value is too large for the precision |
| DecimalTexts.FieldReads | numeric_param.go:48-86 | a number between spaces is read with its sign, digits and exponent, of which more than nine digits count only by their sign |
| DecimalTexts.OnlyFieldNumbers | numeric_param.go:48-86 | nothing else is read as a number |
| DecimalTexts.OutOfRangeIff | numeric_param.go:88-130 | a number is out of range exactly when it is not zero and its point stands more than 100000 places behind its first digit |
| PackedDecimals.PackDecimalDigits | sql.go:4266-4299 | the bytes of a packed field: two digits a byte and the sign |
| PackedDecimals.DecodePackedDecimalString | sql.go:3082-3137 | errors exactly on bad nibbles or a negative precision, else the text of the digits at the scale |
| PackedDecimals.DecodeZonedDecimalString | sql.go:3139-3184 | the same for zoned fields |
| PackedFields.PackedLayout | sql.go:4266-4299 | byte i of a packed field holds the digits of the number at two named places, the last one the sign C or D |
| PackedFields.ZonedLayout | sql.go:4301-4326 | byte i of a zoned field holds zone F and the digit of one place, the last one D for a negative number |
| PackedFields.PackedReads | sql.go:3082-3137 | packed bytes decode exactly when all nibbles but the last are digits and the last is a sign |
| PackedFields.ZonedReads | sql.go:3139-3184 | zoned bytes decode exactly when every low nibble is a digit and the last high one a sign; the other high ones do not matter |
| PackedFields.TextShape | sql.go:3082-3184 | the text has all places of the precision, the point at the scale, and a minus exactly for the signs B and D |
| PackedDecimals.EncodePackedOrZoned | sql.go:3889-3916 | an error exactly on text without digits for the field, else its bytes |
| PackedDecimals.FieldRoundTrip | sql.go:3889-3916 | decoding an encoded field gives text that denotes the number truncated at the scale |
| DecimalExponents.ReadersAgree | numeric_param.go:48-86 | the reader of decimal parameters and that of DECFLOAT text take a text for the same number as written |
| DecimalExponents.TextRoundTripIff | numeric_param.go:63-82 | from text to bytes to text the number written is kept, truncated, exactly when its exponent was read or does not matter |
| DecimalExponents.LongExponentRefused | numeric_param.go:73-74 | a positive exponent of more than nine digits is refused exactly for numbers other than zero |
| DecimalExponents.LongExponentExample | numeric_param.go:73-74 | 5E-0000000001 is accepted for scale 1 and holds zero |
| RequestProtocol.StepInv | sql.go:579-660 | every step of every party keeps the stream owing exactly the reply that the holder of opMu waits for |
| RequestProtocol.StreamInSync | sql.go:701-794 | in every interleaving, when opMu is free and the connection valid no reply is outstanding, and every reply returned answers the caller's own request |
| RequestProtocol.DeadlineStepIff | sql.go:603-606 | the steps that break the deadline invariant are exactly callbacks that act when nobody will clear the deadline |
| RequestProtocol.DeadlineLeftIff | sql.go:603-606 | some interleaving leaves a deadline on a free, valid connection exactly when there is a plain request whose context is not finished at the start |
| RequestProtocol.WatcherLeavesDeadline | sql.go:719-761 | after a statement request has marked itself finished, no step of its watcher changes the deadline, whatever runs in between |
| RequestProtocol.FailureReportsContext | sql.go:546-554 | a failed statement request reports the context error in the end exactly when its context was finished or its deadline had passed, else a bad connection |
| RequestProtocol.LateReplyIsConsumed | sql.go:762-785 | a reply that arrives after the context finished is read, the connection stays valid, and the caller gets the context error |
| RequestOutcomes.FailedRequest | sql.go:546-554 | a failed write or read of any request closes the connection; it ends with the context error exactly when its context was finished or, unless it asks for no reply, its deadline had passed |
| RequestOutcomes.UnreadableReply | sql.go:635 | a reply nobody can read is consumed; it ends a plain request with that error on a valid connection, and a statement request as a failed read |
| RequestOutcomes.ReplyInTime | sql.go:762-785 | a plain request returns its own reply though its context finished meanwhile; a statement request then returns the context error |
| RequestOutcomes.FinishedOnEntry | sql.go:586-589 | a context finished on entry sends nothing, and closes the connection except for a statement request |
| RequestOutcomes.ClosedOnEntry | sql.go:590-596 | on a closed connection a request ends with BadConn and changes nothing |
| RequestOutcomes.DeadlineOrigin | sql.go:719-761 | in every run the deadline on the socket is that of a context, or the grace period after an accepted cancel, or a past one after a refused cancel or from the callback of a plain request, the last three only of finished contexts |
| RequestOutcomes.PendingDeadline | sql.go:601-603 | while a request is pending the socket has the deadline of its context, or one that has passed, if it is no statement with native cancel, and never that of its context if it is one |
| ResultSets.QueryRows.Next | sql.go:1407-1483 | a call returns the first row still ahead, or how the rows end, and leaves the others ahead |
| ResultSets.QueryRows.NextResultSet | sql.go:1546-1592 | the cursor is closed unless the server did, then opened again; a failure keeps the statement |
| ResultSets.QueryRows.Close | sql.go:1594-1628 | closes once, and the cursor only if the server has not |
| ResultSets.QueryRows.Drain | sql.go:1407-1483 | reading until the end returns exactly the rows ahead |
| ResultSets.QueryRows.NextThenClose | sql.go:1558-1576 | the statement is given back exactly when the move was not lost between two result sets |
| ResultSets.UpcomingIsConcatenation | sql.go:1229-1260 | the rows are the concatenation of the blocks up to the first empty, code-700 or code-701 block, inclusive |
| ResultSetRows.RowsAndEnd | sql.go:1407-1483 | for any answers, the rows are the items that decode of the blocks that go on and of the one after them; they end well exactly if that one decodes and is empty, has code 701, or code 700 without scrolling |
| ResultSetRows.SomeEnd | sql.go:1407-1483 | any answers have such an end |
| ResultSets.NoFetchAfterLast | sql.go:1455-1470 | no fetch follows a last block or a close until the cursor is opened again |
| ResultSets.OneClose | sql.go:1602-1616 | no cursor is closed twice, or after the server closed it |
| StatementCache.Connection.Lookup | driver.go:485-501 | a hit takes a reference and moves the text to the end of the order, a miss changes nothing |
| StatementCache.Connection.Publish | driver.go:508-532 | insertion, the racing insertion of the same text, and the eviction of the front of the order |
| StatementCache.Connection.Release | driver.go:534-553 | the last user of an evicted statement closes it |
| StatementCacheRuns.StepInv | driver.go:477-553 | every critical section of every user keeps the references counted, the order list exact and the closes due |
| StatementCacheRuns.ClosedExactlyOnce | driver.go:477-553 | in every interleaving a statement that somebody can still reach is not closed, and one that nobody can reach is closed or about to be exactly once; the order list holds each text once, within the limit |
| StatementCacheRuns.HeldStatementIsLive | driver.go:490-501 | whoever holds a reference holds a live statement prepared for the very text asked for |
| StatementCacheRuns.LeastRecentlyUsedGoes | driver.go:516-527 | the text evicted is the one whose last lookup or insertion is the longest ago |
| StatementCacheLru.CacheIsLru | driver.go:477-532 | in every interleaving the order list is the history of uses with each text once, by last use, cut to the limit; a text is cached exactly when fewer different texts than the limit were used since its last use |
| MixedCodec.EncodeAt | internal/ccsid/ccsid.go:305-319 | the search finds the longest run of units that has a code |
| MixedCodec.Encoder.Encode | internal/ccsid/ccsid.go:373-429 | the buffers and the mode flag produce the bytes of the pieces chosen, shifts included |
| MixedCodec.Decode | internal/ccsid/ccsid.go:346-371 | the loop decodes as the recursive reading does |
| MixedCodec.DecodeEmitted | internal/ccsid/ccsid.go:346-429 | decoding framed pieces reads the pieces, and the bytes end in single-byte mode |
| MixedCodec.MixedRoundTrip | internal/ccsid/ccsid.go:346-429 | a text without U+000E is encoded with balanced shifts and comes back exactly when it is kept at every step; `MixedSurvival` tells when from the tables |
| MixedCodec.MixedRoundTripIff | internal/ccsid/ccsid.go:346-429 | with U+000E a text never comes back, if no double-byte code reads as U+000E |
| MixedCodec.ShiftOutExample | internal/ccsid/ccsid.go:350-356 | U+000E alone comes back as nothing and leaves a shift open |
| MixedSurvival.UnitsSurvive | internal/ccsid/ccsid.go:373-429 | a text whose units all have a code that reads back, the single byte or the double-byte code as the unit prefers, with the other one when the tables have no such code, comes back |
| MixedSurvival.UnitsSurviveIff | internal/ccsid/ccsid.go:373-429 | without runs that have codes of their own, exactly such texts come back |
| MixedSurvival.CodesSurvive | internal/ccsid/ccsid.go:373-429 | a text comes back if every unit has a code and every code it has reads back |
| MixedSurvival.SingleStretch | internal/ccsid/ccsid.go:397-403 | units that go single become one byte each |
| MixedSurvival.DoubleStretch | internal/ccsid/ccsid.go:404-429 | units that go double become their codes between one shift-out and one shift-in |
| MixedSurvival.Substituted | internal/ccsid/ccsid.go:410-424 | a unit without a code, and a pair of surrogates without one, become the substitution byte |
| MixedReading.StretchRead | internal/ccsid/ccsid.go:346-371 | single bytes, then double-byte codes between 0E and 0F, are read unit by unit, and what follows as if it stood alone |
| MixedReading.StretchCut | internal/ccsid/ccsid.go:346-371 | a stretch without its end is read to the end of the data, half a code as U+FFFD |
| BatchBlocks.BlockEnd | batch.go:216-229 | the block from a row on is one block and as long as one can be |
| BatchLayout.BlockMeans | batch.go:216-229 | rows form a block exactly when there are at most 32000, all with the same lengths column by column, and together at most one MiB unless there is only one |
| BatchBlocks.GreedyIsOptimal | batch.go:191-229 | no split, from the same row or an earlier one, has fewer blocks |
| BatchBlocks.ExecBatchBlocks | batch.go:191-212 | the blocks sent cover the rows in order with the fewest blocks, and the total counts the answered ones |
| BatchData.BuildBlockParameterMarkerData | batch.go:322-376 | fails exactly without rows, on different shapes or on too many columns, else builds the payload in either layout |
| BatchLayout.OriginalMeans | sql.go:4328-4346 | the original layout is used exactly when the server described it and 16 bits hold the columns and the bytes of a row |
| BatchLayout.BlockLayout | batch.go:322-376 | place by place: the big-endian header, FFFF or 0000 for every value, then every value at its row and column |
| BatchData.BuildParameterMarkerData | sql.go:4395-4445 | the payload of a single row is, byte for byte, that of a block of one row |
| BatchParsing.ParseResultData | sql.go:2330-2413 | the reader returns the block the payload holds, or fails when it is too short |
| BatchLayout.PayloadReads | sql.go:2330-2413 | what the reader makes of any bytes: nothing if shorter than their header says, else the numbers, a null flag exactly for FFFF, and the row bytes |
| BatchParsing.ParseBuilt | batch.go:322-376 | parsing a built block returns every null flag and every row's bytes |
| BatchParsing.RowRead | sql.go:2405-2411 | row r of the data is the r-th slice of the row size |
| SqlScanners.CountSqlPlaceholders | stmt.go:351-425 | the number of placeholders outside quotes and comments, or an error when one is not closed |
| SqlScanners.RewriteNamedParams | stmt.go:480-587 | names become ? and are listed in order; an error exactly for text with a colon and an open quote or comment |
| SqlScanners.ScanAgain | stmt.go:480-587 | rewritten text scans to the same pieces in the same states, so that quotes and comments are untouched, with as many placeholders and no names |
| SqlScanners.RewriteIdempotent | stmt.go:480-587 | rewriting twice is rewriting once |
| SqlScanners.ReorderNamedArgs | stmt.go:592-613 | argument i carries the value bound last to the i-th name; an error exactly when a name is not bound |
| SqlPieces.Marker | stmt.go:351-425 | outside quotes and comments a ? is one placeholder without a name |
| SqlPieces.NamePlaceholder | stmt.go:480-587 | a colon and a name, up to the first character that is no letter, digit or underscore, is one placeholder of that name and becomes ? |
| SqlPieces.DoubleColon | stmt.go:480-587 | two colons are no placeholder |
| SqlPieces.Character | stmt.go:351-425 | a character that begins nothing is copied |
| SqlPieces.QuotedText | stmt.go:351-425 | quoted text, with doubled quotes inside, is copied and holds no placeholders |
| SqlPieces.LineOfComment | stmt.go:351-425 | so is a comment up to the end of its line |
| SqlPieces.BlockOfComment | stmt.go:351-425 | and a block comment up to its first end mark |
| SqlPieces.UnclosedQuote | stmt.go:413-425 | quoted text without its closing quote is an error |
| SqlPieces.UnclosedComment | stmt.go:413-425 | so is a block comment without its end |
| SqlPieces.LineToEnd | stmt.go:413-425 | a line comment may end with the text |
| SqlScanners.PackageMarkers | package.go:254-313 | the tokenizer counts the markers its nesting of comments leaves |
| SqlNesting.CommentSkipped | package.go:277-291 | for the tokenizer a comment ends at the end mark that matches its opening, over the comments inside it |
| SqlNesting.CommentUnclosed | package.go:277-291 | a comment that lacks an end mark, its own or one inside it, hides the rest of the text |
| SqlScanners.ScannersAgree | package.go:254-313 | unless a comment opens inside a comment, both scanners see the same ? markers, and agree on every rewritten query |
| SqlScanners.NestedCommentExample | package.go:277-291 | a query on which they differ |

## Left out

- The insertion of LRM and RLM marks into the output: only its effect on the recorded points and the levels is modelled.
- The character class of a code point, the orientation of contextual text, and the packing of insertion points into 32 bits: classes and resolved orientations are parameters, points are records.
- ArabicForms.FormsByRule: is not stated for texts of more than 30000 units that end in a stretch of marks going back to place 30000, which the loop takes for "no such unit".
- Which insertion points the marker tables record, and the meaning of their levels.
- The property map's word-break and flag bits.
- Shaping to initial, middle, final or isolated forms only, and the lam-alef, Seen, yeh-with-hamza and tashkeel options other than the defaults, which the driver never sets.
- Reordering and shaping composed into one round trip: `ArabicSurvival` takes the padding of left-to-right output to stand in front of the text in reading order, as it does for purely Arabic text.
- MixedCodec.MixedRoundTripIff: takes tables without a double-byte code for U+000E. Of the mixed CCSIDs only 937 has one; for it `MixedCodec.MixedRoundTrip` covers the texts without U+000E.
- The conversion between UTF-16 and strings, and the contents of the CCSID tables.
- SqlScanners.ScannersAgree: is not stated the other way round, because with nested comments the counts can agree by accident.
- The tokens of the package tokenizer and the choice of what to package.
- The text of decimal and DECFLOAT parameters before parsing (numbers of other Go types), and Go's 64-bit overflow of extreme exponents.
- Scrolling cursors, the decoding of a row into values, and blank cursor names.
- The closing of a connection with statements in its cache, and the reuse of statement handles.
- Parts of a message: a write or read succeeds or fails as a whole, and a failure closes the socket.
- Statement classification, block execution requests around the data, LOB locators, and row-by-row batches.
- Sockets, TLS, the port mapper, signon, connection strings, dates and times.
