# Verilator 3.880: a verified model of its hardest algorithms

Verilator translates Verilog designs into C++ and ships a runtime for the generated code. This
project models six parts of it in Dafny and proves what they are for.

- **Wide arithmetic** (`Bits`, `Words`, `WideArith`, `KnuthDigit`, `KnuthDivide`, `Signed`,
  `BitMoves`, `Shifts`, `Streaming`, `StreamFast`). Values wider than 64 bits are arrays of 32-bit
  words. Each routine is a method over arrays, proved equal to its meaning as a number: Knuth's
  Algorithm D divides exactly on all its paths, signed division truncates toward zero, shifts and
  selections move exactly the bits they should, and the branch-free streaming operator equals the
  slice loop.
- **The case compiler** (`CaseModel`, `CaseTable`, `CaseTree`, `CaseChain`, `CaseParallel`). A case
  statement becomes a reduced decision tree over bits or a chain of IFs in groups of eight. Both
  run the first matching item for every value, they agree, and the runtime check of parallel cases
  is only dropped when it could not fire - except in one situation, which is stated exactly.
- **Surgery on the syntax tree** (`AstForest`, `AstEdits`). Nodes are objects linked by next, back,
  head-tail and operand pointers. A forest, a map from list owners to node sequences, says what
  the pointers of the whole heap must be; every edit is proved to change the forest as intended
  and the pointers of every node accordingly.
- **The VCD writer** (`VcdHeader`, `VcdScopes`, `VcdOpened`, `VcdDump`, `VcdDeclare`, `VcdText`,
  `VcdTrace`, `VcdLayout`, `VcdTriQuad`). A stack reader recovers the scope tree from the header exactly for
  names without empty parts, no scope is opened twice unless two scopes are written alike, and
  after every dump, over any number of files, a reader of the value changes has for every signal
  a text that stands for its current value.
- **Save and restore** (`SaveRestore`). Bytes go through 256 KiB buffers over partial system calls
  and come back unchanged.
- **Text codecs** (`Text`, `Names`, `Radix`). Identifier mangling and number printing are undone by
  their inverses.

Check everything with `dafny verify dfyconfig.toml`.

## Reading the model

- `IData` is `Word`, an integer below 2^32. `&`, `|`, `^` and the shifts are defined bit by bit in
  `Bits`, with lemmas for their arithmetic meaning. Every 64-bit intermediate is written with
  `U64`, `S64` or `Mul64`, and the proofs show that nothing is lost. A shift by 32 in a term
  masked by `shift_mask` is taken as 0.
- C arrays are `array<Word>`. An output is required to differ from an input only where the C code
  clears or overwrites the output before it has read the input.
- Methods follow the loops of the source. Long C functions are cut into methods along their
  phases; ghost parameters carry the abstract state.
- Where code and documentation disagree the model follows the code. `VL_SHIFTL_WWI` is documented
  as clean for clean inputs and is not on its aligned path; `case inside` items with an X never
  match although the standard makes X a wildcard; the range test of `VL_SEL_WWII` is off by one;
  `swapWith` is a no-op for a node followed by its partner, and breaks the links exactly when the
  partner comes first; the test in `checkTreeIterList` for null in the middle of a list can never
  fail, because it compares a node with itself; an empty part of a name breaks the VCD header;
  scopes that differ only in the kind of their brackets are written alike; `chgTriQuad` compares
  the upper word with the old enables; and a default added by full_case can hide a failing
  parallel check. But for the test in `checkTreeIterList`, the table has a member for each.
  The invariant here is stronger than that function: the head-tail pointer is null in the middle
  of every list.

## Model

| member | source | states |
|---|---|---|
| `Words.Mul64IsProduct` | verilator-3.880/include/verilated.cpp:251 | The 64-bit product used by the division loop, built by shifting and adding, is the mathematical product modulo 2^64 |
| `Words.CleanIsLow` | verilator-3.880/include/verilated.h:499-503 | Masking the last word keeps exactly the low nbits of the whole number |
| `Words.ValBit` | verilator-3.880/include/verilated.h:403 | Testing a bit inside its word is testing that bit of the number the words stand for |
| `WideArith.WrapIsMod` | verilator-3.880/include/verilated.h:1012-1064 | What is meant below by keeping n words of an integer, negative or not: the remainder modulo 2^(32 n) |
| `WideArith.AddW` | verilator-3.880/include/verilated.h:1012-1020 | The words written are the sum of the two numbers modulo 2^(32 words): no carry is lost, also when the output is one of the inputs |
| `WideArith.SubW` | verilator-3.880/include/verilated.h:1022-1031 | The words written are the difference modulo 2^(32 words), in place or not |
| `WideArith.NegateW` | verilator-3.880/include/verilated.h:1039-1048 | The words written are minus the number modulo 2^(32 words), in place or not |
| `WideArith.MulW` | verilator-3.880/include/verilated.h:1050-1064 | The words written are the product modulo 2^(32 words), whatever carries ripple through the upper words |
| `WideArith.RippleAdd` | verilator-3.880/include/verilated.h:1055-1059 | One 64-bit partial product is added at its word position with every carry propagated, modulo the words there are |
| `KnuthDigit.TrialDigit` | verilator-3.880/include/verilated.cpp:236-246 | After the `again` loop the trial digit is below 2^32 and at most one too large, for any window below divisor * 2^32 and any divisor whose top bit is set (TAOCP 4.3.1, theorems A and B) |
| `KnuthDigit.TooLarge` | verilator-3.880/include/verilated.cpp:241-242 | When the test fires, the trial digit really is too large, so lowering it never undershoots |
| `KnuthDigit.CloseEnough` | verilator-3.880/include/verilated.cpp:241-246 | When the test no longer fires, the digit exceeds the true one by at most 1 |
| `KnuthDigit.MultiplySubtract` | verilator-3.880/include/verilated.cpp:248-257 | The window minus digit * divisor, modulo one word more than the divisor, with the sign of the last `t` telling exactly whether it went below zero; signed and unsigned 64-bit intermediates lose nothing |
| `KnuthDigit.AddBack` | verilator-3.880/include/verilated.cpp:260-270 | The add-back adds the divisor once modulo the window, and changes nothing outside it |
| `KnuthDigit.DivideDigit` | verilator-3.880/include/verilated.cpp:234-271 | One turn of the main loop: old window = digit * divisor + new window, with 0 <= new window < divisor; words outside the window keep their values |
| `KnuthDivide.MostSetBitP1` | verilator-3.880/include/verilated.h:852-865 | One more than the position of the highest bit set, and 0 exactly for the number 0 |
| `KnuthDivide.DivideByWord` | verilator-3.880/include/verilated.cpp:195-200 | Division by one word: dividend = quotient * divisor + k with k < divisor |
| `KnuthDivide.ShortDivide` | verilator-3.880/include/verilated.cpp:194-206 | The one-word path returns floor(l / r) or l mod r over all output words |
| `KnuthDivide.Normalise` | verilator-3.880/include/verilated.cpp:208-231 | Both operands are held multiplied by 2^s, the divisor has its top bit set, and no bit is lost at the top or through the shift by 32 - s when s = 0 |
| `KnuthDivide.MainLoop` | verilator-3.880/include/verilated.cpp:233-271 | Invariant of Algorithm D over all digits: dividend = quotient so far * divisor + what is left, and what is left stays below the divisor times the next weight; dividends shorter than the divisor included |
| `KnuthDivide.Denormalise` | verilator-3.880/include/verilated.cpp:273-282 | Quotient and remainder of the normalised numbers give those of the original ones, the remainder shifted back |
| `KnuthDivide.LongDivide` | verilator-3.880/include/verilated.cpp:208-282 | The path for two words and more returns floor(l / r) or l mod r |
| `KnuthDivide.ModDivW` | verilator-3.880/include/verilated.cpp:176-283 | For operands of up to 16 words and an output that is neither input: floor(l / r) or l mod r when r is not 0, and 0 when it is; words above stay as they were |
| `Signed.Mod2IsMod` | verilator-3.880/include/verilated.h:1083-1177 | What is meant below by keeping n bits of an integer, negative or not: the remainder modulo 2^n |
| `Signed.Magnitude` | verilator-3.880/include/verilated.h:1083-1088 | Negating and cleaning a number with the sign bit set gives its absolute value, 2^(lbits-1) for the most negative one |
| `Signed.SignMagnitude` | verilator-3.880/include/verilated.h:1083-1094 | The sign flag, and an operand that holds the absolute value: the input itself, or a fresh negated copy |
| `Signed.MulsW` | verilator-3.880/include/verilated.h:1077-1109 | The result agrees with the product of the signed operands modulo 2^lbits |
| `Signed.SignedMulIs` | verilator-3.880/include/verilated.h:1077-1109 | The signed product in that contract is ordinary multiplication |
| `Signed.DivsW` | verilator-3.880/include/verilated.h:1136-1155 | The clean two's-complement pattern of the quotient truncated toward zero, 0 for a zero divisor, and MIN / -1 wrapped to MIN |
| `Signed.ModDivsW` | verilator-3.880/include/verilated.h:1157-1177 | The clean pattern of the remainder with the sign of the dividend, 0 for a zero divisor |
| `Signed.TruncIdentity` | verilator-3.880/include/verilated.h:1136-1177 | The quotient and remainder meant there satisfy l = q*r + m with |m| < |r| and m of the sign of l (IEEE 1364-2005 section 5.1.5) |
| `Signed.DivisionIdentity` | verilator-3.880/include/verilated.h:1136-1177 | The two results of a division satisfy l = q*r + m modulo 2^lbits for every r other than 0, MIN / -1 included |
| `BitMoves.InsertWW` | verilator-3.880/include/verilated.h:1280-1324 | Bits lbit to hbit become the low bits of the source and no other bit of any word changes, on the aligned path and on both unaligned ones |
| `BitMoves.InsertLower` | verilator-3.880/include/verilated.h:1299-1322 | One unaligned source word: its part for the lower destination word lands there and only there |
| `BitMoves.InsertUpper` | verilator-3.880/include/verilated.h:1308-1320 | The rest of that source word lands at the bottom of the next destination word |
| `Shifts.ShiftL` | verilator-3.880/include/verilated.h:1571-1584 | Below obits the result is l * 2^rd for every shift amount; all of it is clean except on the aligned path, where what it holds is stated exactly |
| `Shifts.AlignedShiftClean` | verilator-3.880/include/verilated.h:1568-1584 | The aligned left shift is clean exactly when no bit of l is shifted past obits |
| `Shifts.AlignedShiftDirty` | verilator-3.880/include/verilated.h:1568-1584 | A clean input whose aligned shift is not clean exists for every such width: the comment "oclean=lclean" does not hold |
| `Shifts.ShiftR` | verilator-3.880/include/verilated.h:1589-1613 | A clean number shifted right is floor(l / 2^rd), for every rd |
| `Shifts.ShiftRS` | verilator-3.880/include/verilated.h:1633-1664 | With lbits = obits the result is the clean pattern of floor(l / 2^rd) of the signed number |
| `Shifts.FloorShiftIsDiv` | verilator-3.880/include/verilated.h:1615-1664 | The shift of a signed number meant there is floor division by a power of two |
| `Shifts.ConcatWWW` | verilator-3.880/include/verilated.h:1546-1551 | The result is r + l * 2^rbits over all its words |
| `Shifts.SelWWII` | verilator-3.880/include/verilated.h:1726-1751 | When the range test of the routine passes, bits lsb to lsb + width - 1 moved to the bottom; otherwise all ones |
| `Shifts.SelReadsPast` | verilator-3.880/include/verilated.h:1726-1751 | That test lets the bit after the last one through; the routine stays within the words of an lbits-wide operand exactly when it is not asked for that bit with lbits a multiple of 32 |
| `Shifts.SelUndoesConcat` | verilator-3.880/include/verilated.h:1546-1751 | VL_CONCAT_WWW and then VL_SEL_WWII of either part: the arrays hold the two operands again |
| `Streaming.SrcDest` | verilator-3.880/include/verilated.h:1471-1486 | Every input bit has one place in the output, and the place determines the bit |
| `Streaming.DestSrc` | verilator-3.880/include/verilated.h:1471-1486 | Every output bit below lbits comes from one input bit: the streaming is a permutation |
| `Streaming.InvolutionIff` | verilator-3.880/include/verilated.h:1471-1486 | Streaming twice is the identity exactly when the slice size divides the width or covers it |
| `Streaming.StreamlWWI` | verilator-3.880/include/verilated.h:1471-1486 | The output bits are the input bits in slice-reversed order and nothing is set above them (IEEE 1800-2012 section 11.4.14) |
| `Streaming.StreamTwice` | verilator-3.880/include/verilated.h:1471-1486 | Two runs of the wide operator give the input back, word for word, under that condition |
| `StreamFast.StreamlIII` | verilator-3.880/include/verilated.h:1447-1457 | The narrow slice loop produces the same permutation of bits, for slice sizes up to a word |
| `StreamFast.SwappedBit` | verilator-3.880/include/verilated.h:1406-1416 | The switch that falls through its bit swaps reverses all 32 bits in groups of 2^k |
| `StreamFast.PreShiftBit` | verilator-3.880/include/verilated.h:1399-1404 | The pre-shift moves the bits of the partial top slice up to make it whole, leaves the others, and sets none in between |
| `StreamFast.FastSrcIs` | verilator-3.880/include/verilated.h:1378-1418 | The bit that the pre-shift and the swaps bring to place p is the one the slice loop puts there |
| `StreamFast.StreamlFastIII` | verilator-3.880/include/verilated.h:1378-1418 | The branch-free operator yields that permutation for every clean input, slice 2^k <= lbits < 32 |
| `StreamFast.FastIsSlow` | verilator-3.880/include/verilated.h:1378-1457 | The fast and the slow operator return the same word |
| `CaseModel.FirstIsStandard` | verilator-3.880/src/V3Case.cpp:172-206 | With the default last, the first item that matches is the item IEEE 1364-2005 section 9.5 selects: the earliest non-default match, or the default |
| `CaseModel.MaskIsRule` | verilator-3.880/src/V3Case.cpp:178-188 | `(i & mask) == val` together with neverItem holds exactly for the values whose bits fit the four-state item, wildcards by kind of case |
| `CaseModel.TwoStateFits` | verilator-3.880/src/V3Case.cpp:442-451 | An item without X or Z fits exactly its own value |
| `CaseModel.FitsIsFilling` | verilator-3.880/src/V3Case.cpp:442-451 | An item fits exactly the values of the two-state constants got by filling its wildcards: z and ? in casez and inside, x too in casex, none in plain case |
| `CaseModel.UnknownNeverFits` | verilator-3.880/src/V3Case.cpp:442-451 | An item with an X or Z fits nothing in a plain case, and one with an X nothing outside casex |
| `CaseModel.NeverItemExact` | verilator-3.880/src/V3Case.cpp:442-451 | neverItem agrees with the standard for every value exactly unless the item is a `case inside` item with an X, where the standard (IEEE 1800-2012 section 11.4.6) has a wildcard |
| `CaseTable.ItemsWidthIs` | verilator-3.880/src/V3Case.cpp:154-162 | The measured width is at most w exactly when every item is a constant no wider than w |
| `CaseTable.CaseVisitor.MeasureItems` | verilator-3.880/src/V3Case.cpp:150-161 | The width and the number of conditions of the whole statement |
| `CaseTable.CaseVisitor.EnterCond` | verilator-3.880/src/V3Case.cpp:178-198 | One condition fills the free entries it matches and no other, and clears the no-overlap flag exactly when it meets an entry already taken |
| `CaseTable.CaseVisitor.EnterItem` | verilator-3.880/src/V3Case.cpp:174-205 | After an item the table holds, per value, the first of the items so far that matches; the flag tells whether any two conditions overlapped |
| `CaseTable.CaseVisitor.ConvertItems` | verilator-3.880/src/V3Case.cpp:214-219 | The table of items becomes the table of their bodies |
| `CaseTable.CaseVisitor.IsCaseTreeFast` | verilator-3.880/src/V3Case.cpp:149-221 | True exactly for analysable, fully covered statements of more than three conditions; then entry v is the body of the first item matching v, and the flag says exactly whether all is covered without overlap |
| `CaseTree.RecurseSelects` | verilator-3.880/src/V3Case.cpp:223-272 | For every value of its region the tree runs the statements the table has for that value |
| `CaseTree.RecurseOrdered` | verilator-3.880/src/V3Case.cpp:223-272 | Every path tests bits in falling order, each at most once |
| `CaseTree.RecurseReduced` | verilator-3.880/src/V3Case.cpp:223-272 | No IF in the tree has halves that select alike for all values, and original statements are only returned bare, never linked into a tree |
| `CaseTree.RecurseAccounted` | verilator-3.880/src/V3Case.cpp:236-270 | Each IF allocated is exactly once in the result or exactly once among the deleted, never both |
| `CaseTree.RecurseDeletes` | verilator-3.880/src/V3Case.cpp:248-251 | What is deleted is always a freshly made IF with nothing of the original bodies in it |
| `CaseTree.FastTreeIsCase` | verilator-3.880/src/V3Case.cpp:223-301 | The decision tree runs the first matching item for every value of every width, has depth at most the width, is reduced, and holds clones only |
| `CaseTree.FastTreeDeletes` | verilator-3.880/src/V3Case.cpp:248-251 | For the whole table: deleteTree frees only new IFs, each once, and none still in use |
| `CaseChain.CondExprIs` | verilator-3.880/src/V3Case.cpp:326-361 | The expression built for one condition is true exactly when the condition fits |
| `CaseChain.ItemExprIs` | verilator-3.880/src/V3Case.cpp:319-369 | The conditions of an item joined by || are true exactly when one of them fits |
| `CaseChain.BuildCondition` | verilator-3.880/src/V3Case.cpp:320-369 | The loop over the conditions builds that joined expression |
| `CaseChain.BuildBranches` | verilator-3.880/src/V3Case.cpp:311-379 | Items become conditions and bodies, the default true, with an empty default added exactly when there is none |
| `CaseChain.GroupTreeRuns` | verilator-3.880/src/V3Case.cpp:381-421 | The tree with conditions ORed per group of 8, and the 8th condition of a group replaced by true, runs exactly the first branch whose condition holds |
| `CaseChain.GroupTreeLevels` | verilator-3.880/src/V3Case.cpp:381-421 | The IFs nest at most ceil(n/8) + 8 deep |
| `CaseChain.ChainIsCase` | verilator-3.880/src/V3Case.cpp:303-430 | The IF chain runs the first matching item for every value and any number of items, within that depth |
| `CaseChain.FastIsChain` | verilator-3.880/src/V3Case.cpp:274-430 | Decision tree and IF chain run the same statements for every value |
| `CaseChain.StartGroup` | verilator-3.880/src/V3Case.cpp:396-402 | A new outer IF is hung on the last one, and everything built before still denotes what it did |
| `CaseChain.ContinueGroup` | verilator-3.880/src/V3Case.cpp:403-408 | The condition of the open group takes in one more, and the inner IF is hung below |
| `CaseChain.BuildTree` | verilator-3.880/src/V3Case.cpp:386-421 | The linked IF objects that the loop builds through groupnextp and itemnextp denote the group tree |
| `CaseChain.ReplaceCaseComplicated` | verilator-3.880/src/V3Case.cpp:303-430 | From any items to linked IF objects that denote the chain above |
| `CaseParallel.VisitCase` | verilator-3.880/src/V3Assert.cpp:223-266 | For every value the check that is left behind fires exactly when there is a condition and, under parallel, unique or unique0, two conditions match it, or none does without a default or unique0; never without these pragmas. Under full_case or priority the added report runs exactly where nothing else would, and otherwise the statement runs as before |
| `CaseParallel.CheckFires` | verilator-3.880/src/V3Assert.cpp:238-264 | The built one-hot expression, with or without its zero case, decides exactly those two violations: no condition matching, or two |
| `CaseParallel.CompletedRuns` | verilator-3.880/src/V3Assert.cpp:226-237 | With the default of full_case or priority every value runs some item, and the report exactly those for which nothing matched |
| `CaseParallel.GatheredItemsCount` | verilator-3.880/src/V3Assert.cpp:245-254 | The concatenated comparisons have as many bits set as conditions match |
| `CaseParallel.AtMostOne` | verilator-3.880/src/V3Case.cpp:185-196 | No two conditions overlapping in the table means at most one condition matches any value |
| `CaseParallel.DiscardedNeverFires` | verilator-3.880/src/V3Assert.cpp:255-264 | For a two-state `case` proven free of overlap and covered, the discarded check would hold for every value exactly when there was a default, or unique0, or the conditions alone cover every value |
| `CaseParallel.DiscardIsSafe` | verilator-3.880/src/V3Case.cpp:432-440 | Without a default added by full_case or priority, the check that is dropped could never have fired |
| `CaseParallel.LostCheck` | verilator-3.880/src/V3Assert.cpp:230-257 | A full_case parallel_case statement whose added default hides a check that fires: the value 4 of `case (v) 0, 1, 2, 3` on three bits |
| `AstForest.PutStruct` | verilator-3.880/src/V3Ast.cpp:237-324 | Linking a loose list into any gap of any list leaves every node in exactly one place of one list |
| `AstForest.TakeStruct` | verilator-3.880/src/V3Ast.cpp:420-518 | So does cutting out any stretch of nodes |
| `AstForest.PutTake` | verilator-3.880/src/V3Ast.cpp:420-559 | Putting back what was taken out restores the whole forest |
| `AstForest.AstNode.AddNextHere` | verilator-3.880/src/V3Ast.cpp:278-324 | The new list stands right after this node, at the end or in the middle; next, back, head-tail and operand pointers of every node of the heap are those of the new lists |
| `AstForest.AstNode.FindTail` | verilator-3.880/src/V3Ast.cpp:237-260 | The last node of the list, by the head-tail shortcut or by walking from the middle |
| `AstForest.AstNode.AddNext` | verilator-3.880/src/V3Ast.cpp:237-271 | Appends to the end of the list from any of its nodes; adding to null returns the new node |
| `AstForest.AstNode.RelinkOneLink` | verilator-3.880/src/V3Ast.cpp:561-584 | The new list goes in front of the operand, and every pointer of every other node stays |
| `AstForest.AstNode.LinkAtOp` | verilator-3.880/src/V3Ast.cpp:520-584 | The list becomes the head of operand k, in front of what was there |
| `AstForest.AstNode.AddOp` | verilator-3.880/src/V3Ast.cpp:326-400 | The list becomes operand k, or its continuation |
| `AstForest.AstNRelinker.Record` | verilator-3.880/src/V3Ast.h:871-886 | The relinker remembers whether the node hung on a next pointer or on which operand |
| `AstForest.AstNode.UnlinkFrBack` | verilator-3.880/src/V3Ast.cpp:468-518 | Exactly this node leaves its list and becomes a list of its own; the whole-heap invariant holds for the rest |
| `AstForest.AstNode.UnlinkFrBackWithNext` | verilator-3.880/src/V3Ast.cpp:420-466 | This node and all after it leave together as one list |
| `AstForest.AstNode.Relink` | verilator-3.880/src/V3Ast.cpp:520-559 | The loose list goes into the gap the relinker describes |
| `AstEdits.Determined` | verilator-3.880/src/V3Ast.cpp:917-945 | The lists determine the place, and so every pointer, of every node |
| `AstEdits.UnlinkAndRelink` | verilator-3.880/src/V3Ast.cpp:468-559 | unlinkFrBack then relink of the same node leaves every pointer of every node as it was |
| `AstEdits.UnlinkWithNextAndRelink` | verilator-3.880/src/V3Ast.cpp:420-559 | So does unlinkFrBackWithNext then relink |
| `AstEdits.ReplaceWith` | verilator-3.880/src/V3Ast.cpp:402-408 | The new list stands in the place of the node, the node is alone, and all other lists are unchanged |
| `AstEdits.AddHereThisAsNext` | verilator-3.880/src/V3Ast.cpp:586-592 | The new list stands right before the node and the rest is unchanged |
| `AstEdits.SwapWith` | verilator-3.880/src/V3Ast.cpp:594-601 | Unless this node directly follows bp, the two change places wherever they are; when bp directly follows this node, the tree is left as it was |
| `AstEdits.NotSelfBack` | verilator-3.880/src/V3Ast.cpp:917-945 | In a consistent heap a node points back to itself only if it is its own operand |
| `AstEdits.SwapBackward` | verilator-3.880/src/V3Ast.cpp:594-601 | When this node directly follows bp, whatever else hangs on the two, swapWith leaves bp pointing back to itself: no forest describes the heap any more |
| `AstEdits.SwapOutcome` | verilator-3.880/src/V3Ast.cpp:594-601 | swapWith leaves a heap that some forest describes exactly when this node does not directly follow bp |
| `VcdHeader.SplitInjective` | verilator-3.880/include/verilated_vcd_c.cpp:412-415 | The scope path of a name determines its text and back |
| `VcdHeader.SpacesAreScopes` | verilator-3.880/include/verilated_vcd_c.cpp:434-442 | One space is passed per scope still to leave |
| `VcdHeader.DownsAtSpace` | verilator-3.880/include/verilated_vcd_c.cpp:444-456 | From a space on, exactly the remaining scopes of the path are entered, but for an empty last one |
| `VcdScopes.StepScopes` | verilator-3.880/include/verilated_vcd_c.cpp:423-456 | From one name to the next, the scopes left and entered turn the path of the first into that of the second |
| `VcdScopes.BodyReads` | verilator-3.880/include/verilated_vcd_c.cpp:418-461 | A stack reader run over the lines finds every variable under its own path exactly when no part of a name is empty; the grammar of a scope or variable needs an identifier (IEEE 1364-2005 section 18.2) |
| `VcdScopes.HeaderReads` | verilator-3.880/include/verilated_vcd_c.cpp:395-473 | The whole header is read back as the name map, paths written with the brackets replaced, exactly when no part of a name is empty; then both depth assertions hold |
| `VcdScopes.EmptyScopeInside` | verilator-3.880/include/verilated_vcd_c.cpp:444-456 | The name a..b.c, with an empty scope in the middle, is written as a header that is not read back |
| `VcdScopes.EmptyScopeLost` | verilator-3.880/include/verilated_vcd_c.cpp:444-456 | Two names for which an empty last scope makes a reader misplace a variable |
| `VcdScopes.EnteredOnce` | verilator-3.880/include/verilated_vcd_c.cpp:418-460 | Of the scopes as named, before brackets are replaced, one that is entered has been entered for no earlier name |
| `VcdOpened.OpenedOnceIff` | verilator-3.880/include/verilated_vcd_c.cpp:395-473 | In the header as written no scope is opened twice exactly when no two names have scopes that differ but are written alike |
| `VcdOpened.NoBracketsApart` | verilator-3.880/include/verilated_vcd_c.cpp:444-456 | That holds whenever no scope has a square bracket in it |
| `VcdOpened.BracketsReplaced` | verilator-3.880/include/verilated_vcd_c.cpp:450-454 | No scope is written with a square bracket, and exactly the scopes without one are written as they are |
| `VcdOpened.OpenedTwiceExample` | verilator-3.880/include/verilated_vcd_c.cpp:444-456 | The scopes a(0) and a[0] are written alike, and the header opens that scope twice |
| `VcdOpened.ReadingDetermines` | verilator-3.880/include/verilated_vcd_c.cpp:395-473 | Two maps whose headers are read alike have the same signals under the same scopes, when none of their scopes are written alike |
| `VcdDump.TopKey` | verilator-3.880/include/verilated_vcd_c.cpp:205-222 | The prefix turns a name without scopes into one under top, and puts top above any other path |
| `VcdDump.TopLess` | verilator-3.880/include/verilated_vcd_c.cpp:205-222 | Prefixing keeps the order of the names |
| `VcdDump.NameMapSorted` | verilator-3.880/include/verilated_vcd_c.cpp:191-224 | After makeNameMap all names have a scope and are still in order |
| `VcdDump.HeaderWriter.MakeNameMap` | verilator-3.880/include/verilated_vcd_c.cpp:201-223 | The loops prefix all names when any of them has no scope, and none otherwise |
| `VcdDump.HeaderWriter.FindJoint` | verilator-3.880/include/verilated_vcd_c.cpp:423-431 | The place where the common prefix ends, moved back to a space, a tab or the start |
| `VcdDump.HeaderWriter.LeaveScopes` | verilator-3.880/include/verilated_vcd_c.cpp:434-442 | One $upscope per scope left, with the depth counter in step |
| `VcdDump.HeaderWriter.EnterScopes` | verilator-3.880/include/verilated_vcd_c.cpp:444-456 | One $scope per scope entered, brackets replaced, with the depth counter in step |
| `VcdDump.HeaderWriter.CloseScopes` | verilator-3.880/include/verilated_vcd_c.cpp:462-465 | The last loop leaves exactly the scopes still open |
| `VcdDump.HeaderWriter.DumpHeader` | verilator-3.880/include/verilated_vcd_c.cpp:395-473 | The lines are the header of the name map, and the two assertions hold exactly when that header is balanced |
| `VcdDeclare.DeclareKey` | verilator-3.880/include/verilated_vcd_c.cpp:506-540 | The loop over the name, and the array index after it, make the key described next |
| `VcdDeclare.KeyScopes` | verilator-3.880/include/verilated_vcd_c.cpp:506-540 | The scopes of the key are the pieces of the name between separators, without the empty ones in front and without the last piece, which comes after the tab with the index |
| `VcdDeclare.IndexReads` | verilator-3.880/include/verilated_vcd_c.cpp:536-540 | The index is written between brackets in decimal: read from the left in base ten it is arraynum, without a leading zero |
| `VcdDeclare.IndexApart` | verilator-3.880/include/verilated_vcd_c.cpp:506-544 | Signals of one name with different indices, or with and without one, have different keys and different references |
| `VcdDeclare.DeclaredUnder` | verilator-3.880/include/verilated_vcd_c.cpp:191-224 | In the map that is written each signal stands under the scopes of its name, below top exactly when the name of some signal has no scopes, with its own reference |
| `VcdDeclare.InnerGapIff` | verilator-3.880/include/verilated_vcd_c.cpp:510-519 | One of those scopes is empty exactly when two separators meet after the first character that is none |
| `VcdDeclare.BaseEmptyIff` | verilator-3.880/include/verilated_vcd_c.cpp:510-519 | The last piece is empty exactly when the name is, or ends in a separator |
| `VcdDeclare.DeclaredReads` | verilator-3.880/include/verilated_vcd_c.cpp:395-544 | The header of any declared names is read back exactly when each has no two separators together after its first letter, and no separator at its end unless an index follows |
| `VcdText.BitsRead` | verilator-3.880/include/verilated_vcd_c.h:218-246 | A printed value has as many characters as bits, all 0 or 1, and read from the left as a binary number it is the low bits of the value |
| `VcdText.TriRead` | verilator-3.880/include/verilated_vcd_c.h:247-290 | A printed tristate value has at place k from the right the bit k of the value, or z where it is enabled |
| `VcdTrace.TextMeans` | verilator-3.880/include/verilated_vcd_c.h:212-290 | The text of any signal stands for the current value cut to its width: its number, or its 0, 1 and z per bit |
| `VcdTrace.PrintCode` | verilator-3.880/include/verilated_vcd_c.h:133-138 | The code written into the buffer is the text of stringCode |
| `VcdTrace.CodeInjective` | verilator-3.880/include/verilated_vcd_c.h:139-145 | Codes below 94^4 + 94^3 have different texts |
| `VcdTrace.CodePrintable` | verilator-3.880/include/verilated_vcd_c.h:139-145 | Every code is one to four printable characters without a space |
| `VcdTrace.CodeCollides` | verilator-3.880/include/verilated_vcd_c.h:139-145 | The code 94^4 + 94^3 has the text of 94^3: the bound is exact |
| `VcdTrace.TraceWriter.FullBit` | verilator-3.880/include/verilated_vcd_c.h:212-217 | Prints one bit, of an input that need not be clean, stores what it printed, and touches no other entry of the old-value array |
| `VcdTrace.TraceWriter.FullBus` | verilator-3.880/include/verilated_vcd_c.h:218-226 | Prints the low bits, highest first, stores what it printed, and touches no other entry of the old-value array |
| `VcdTrace.TraceWriter.FullQuad` | verilator-3.880/include/verilated_vcd_c.h:227-235 | Prints two words as one number, highest bit first, stores what it printed, and touches no other entry of the old-value array |
| `VcdTrace.TraceWriter.FullArray` | verilator-3.880/include/verilated_vcd_c.h:236-246 | Prints any number of words, highest bit first, stores what it printed, and touches no other entry of the old-value array |
| `VcdTrace.TraceWriter.FullTriBit` | verilator-3.880/include/verilated_vcd_c.h:247-254 | Prints 0, 1 or z, stores what it printed, and touches no other entry of the old-value array |
| `VcdTrace.TraceWriter.FullTriBus` | verilator-3.880/include/verilated_vcd_c.h:255-265 | Prints 0, 1 or z per bit, stores what it printed, and touches no other entry of the old-value array |
| `VcdTrace.TraceWriter.FullTriArray` | verilator-3.880/include/verilated_vcd_c.h:277-290 | Prints 0, 1 or z per bit, with value and enable words interleaved, stores what it printed, and touches no other entry of the old-value array |
| `VcdTrace.TraceWriter.ChgBit` | verilator-3.880/include/verilated_vcd_c.h:314-322 | Either prints and stores the new value, or does nothing because the stored bits already print the same |
| `VcdTrace.TraceWriter.ChgBus` | verilator-3.880/include/verilated_vcd_c.h:323-330 | Either prints and stores the new value, or does nothing because the stored bits already print the same |
| `VcdTrace.TraceWriter.ChgQuad` | verilator-3.880/include/verilated_vcd_c.h:331-338 | Either prints and stores the new value, or does nothing because the stored bits already print the same |
| `VcdTrace.TraceWriter.ChgArray` | verilator-3.880/include/verilated_vcd_c.h:339-346 | Either prints and stores the new value, or does nothing because the stored bits already print the same |
| `VcdTrace.TraceWriter.ChgTriBit` | verilator-3.880/include/verilated_vcd_c.h:347-356 | Either prints and stores the new value, or does nothing because the stored bits already print the same |
| `VcdTrace.TraceWriter.ChgTriBus` | verilator-3.880/include/verilated_vcd_c.h:357-365 | Either prints and stores the new value, or does nothing because the stored bits already print the same |
| `VcdTrace.TraceWriter.ChgTriArray` | verilator-3.880/include/verilated_vcd_c.h:375-383 | Either prints and stores the new value, or does nothing because the stored bits already print the same |
| `VcdTrace.NotedSeen` | verilator-3.880/include/verilated_vcd_c.h:314-383 | One signal noted keeps every other signal's stored value equal to its last printed one |
| `VcdLayout.DeclareAll` | verilator-3.880/include/verilated_vcd_c.cpp:191-200 | makeNameMap runs the callbacks one after another, each from the next code on; what they declare and the code they leave are those of the function described next |
| `VcdLayout.DeclaredBelow` | verilator-3.880/include/verilated_vcd_c.cpp:479-498 | Whatever codes a callback uses, as long as its own signals do not share words, all signals declared so far are one or share no words, and end at or below m_nextCode |
| `VcdLayout.TracedLayout` | verilator-3.880/include/verilated_vcd_c.cpp:479-498 | So the signals traced, each once, have words of their own and different texts: the layout that dumping rests on, for any callbacks, in any order, aliases included |
| `VcdLayout.AssignedOk` | verilator-3.880/src/V3Trace.cpp:479-487 | The codes that the generator counts up by words are such a callback, in any order of declaration |
| `VcdLayout.ReservedReused` | verilator-3.880/src/V3AstNodes.h:3009-3010 | A 32-bit signal takes one code of the generator and two of declare: the next signal of the callback starts inside what declare has reserved |
| `VcdTrace.TraceWriter.DumpFull` | verilator-3.880/include/verilated_vcd_c.cpp:607-614 | After a full dump a reader of the current file alone has for every signal a text that reads as its current value, as a number in binary or as 0, 1 and z per bit |
| `VcdTrace.TraceWriter.OpenNext` | verilator-3.880/include/verilated_vcd_c.cpp:147-189 | The next file begins after all lines so far, and is owed a full dump |
| `VcdTrace.TraceWriter.Dump` | verilator-3.880/include/verilated_vcd_c.cpp:616-633 | After every dump, a reader of all files in a row has for every signal a text that reads as its current value, cut to its width, as a number in binary or as 0, 1 and z per bit; a reader of the current file alone has them too, except right after a rollover, when the full dump is still due; a writer that is not open writes nothing |
| `VcdTriQuad.TriQuadQuiet` | verilator-3.880/include/verilated_vcd_c.h:366-374 | chgTriQuad, whose two stored words overlap, stays quiet for 33 to 64 bits exactly when the low words agree, the enables agree, and the shown bits of the upper word equal the old enables |
| `SaveRestore.VerilatedSave.Flush` | verilator-3.880/include/verilated_save.cpp:177-198 | Whatever the sizes of the partial writes, the file gains exactly the buffered bytes in order and the buffer is empty |
| `SaveRestore.VerilatedSave.BufferCheck` | verilator-3.880/include/verilated_save.h:80-87 | There is room for a block afterwards, and no byte is lost |
| `SaveRestore.VerilatedSave.Write` | verilator-3.880/include/verilated_save.h:88-98 | File and buffer together gain exactly the given bytes, for any size, and the cursor stays in the buffer |
| `SaveRestore.VerilatedRestore.Fill` | verilator-3.880/include/verilated_save.cpp:200-229 | Whatever the sizes of the partial reads, the buffer is full, the unread bytes come first, and what follows is the file, then zeros |
| `SaveRestore.VerilatedRestore.Read` | verilator-3.880/include/verilated_save.h:115-125 | Returns the next bytes of the stream, for any size, and leaves the rest |
| `SaveRestore.VerilatedRestore.ReadDiffers` | verilator-3.880/include/verilated_save.cpp:51-59 | True exactly when the next bytes differ from the expected ones, which are consumed |
| `SaveRestore.SaveAll` | verilator-3.880/include/verilated_save.cpp:71-96 | The file is the header, the model data, all chunks and the trailer, whatever the partial writes |
| `SaveRestore.RestoreAll` | verilator-3.880/include/verilated_save.cpp:81-106 | The chunks read are the bytes of the file after the header, and the signatures are accepted exactly when they are there |
| `SaveRestore.RoundTrip` | verilator-3.880/include/verilated_save.cpp:71-106 | Reading chunks of the sizes written returns the chunks written and finds both signatures |
| `SaveRestore.SaveThenRestore` | verilator-3.880/include/verilated_save.cpp:71-106 | A whole save and a whole restore over any partial transfers in both directions: accepted, and every chunk equal |
| `Names.EncodeName` | verilator-3.880/src/V3Ast.cpp:95-117 | The loop produces the encoding piece by piece |
| `Names.PrettyName` | verilator-3.880/src/V3Ast.cpp:167-207 | The loop produces the decoding, markers first, and strips TOP. and TOP-> |
| `Names.PartsDecoded` | verilator-3.880/src/V3Ast.cpp:167-207 | For any encoded parts joined by the five markers, the decoding is the parts joined by what the markers stand for: a dot for __DOT__ and ->, square brackets for __BRA__ and __KET__, nothing for __PVT__ |
| `Names.TopStripped` | verilator-3.880/src/V3Ast.cpp:204-205 | Of a decoded name only TOP. and then TOP-> at its start are taken away |
| `Names.EscapeDecoded` | verilator-3.880/src/V3Ast.cpp:191-198 | An escape decodes to the character with that code, whatever the case of its hexadecimal digits |
| `Names.DecodeEncode` | verilator-3.880/src/V3Ast.cpp:95-207 | Decoding an encoded name gives the name back, for every 7-bit name |
| `Names.PrettyUndoesEncode` | verilator-3.880/src/V3Ast.cpp:95-207 | prettyName undoes encodeName exactly for the names that do not start with TOP. or TOP-> |
| `Names.EncodeInjective` | verilator-3.880/src/V3Ast.cpp:95-123 | Different names have different encodings |
| `Names.EncodedIdentifier` | verilator-3.880/src/V3Ast.cpp:95-117 | An encoded name is an identifier: letters, digits and underscores, with no digit in front |
| `Names.PlainUnchanged` | verilator-3.880/src/V3Ast.cpp:95-117 | An identifier without double underscores is encoded as itself |
| `Names.OtherEscaped` | verilator-3.880/src/V3Ast.cpp:110-115 | Any other character, and a digit in front, is encoded as __0 and the two digits of its code |
| `Names.EncodedHasNoMarker` | verilator-3.880/src/V3Ast.cpp:95-123 | No encoding contains __DOT__, __BRA__, __KET__, __PVT__ or -> anywhere |
| `Radix.DigitsBack` | verilator-3.880/include/verilated.cpp:542-572 | Scanning n printed digits gives the low bits they were made from |
| `Radix.RoundTrip` | verilator-3.880/include/verilated.cpp:379-572 | The text that any value is printed as with %b, %o or %x, padded or trimmed, read from the left as a number in its base, has the same low lbits; bits above the width come through in %x only |
| `Radix.ScannedIs` | verilator-3.880/include/verilated.cpp:547-572 | Setting digits from the right, each at the place above the last, makes the number that the text is when read from the left: each place multiplies by the base, x, z and ? are a digit 0 that takes a place |
| `Radix.ReadsChar` | verilator-3.880/include/verilated.cpp:551-569 | The digits recognised are 0 to 9, a to f and A to F with their usual values, and x, z and ? of either case as 0 |
| `Radix.UnderscoresPassed` | verilator-3.880/include/verilated.cpp:547-572 | Taking out the underscores of a text does not change its number |
| `Radix.LowerReads` | verilator-3.880/include/verilated.cpp:526-540 | Changing a text to lower case does not change its number |
| `Radix.AcceptedIs` | verilator-3.880/include/verilated.cpp:668-685 | Accepted are underscores and exactly the characters whose digit is below the base |
| `Radix.PrintedLength` | verilator-3.880/include/verilated.cpp:376-482 | A padded number has the least number of digits that cover its width; zero is trimmed to a single digit |
| `Radix.NoLeadingZero` | verilator-3.880/include/verilated.cpp:379-380 | A number trimmed by %0 has no leading zero unless it is zero |
| `Radix.OctalDigit` | verilator-3.880/include/verilated.cpp:442-452 | The octal digit fetched bit by bit is bits lsb to lsb + 2 of the value, across word borders and cut at the width |
| `Radix.HexDigit` | verilator-3.880/include/verilated.cpp:476-481 | The hexadecimal digit fetched by one shift is bits lsb to lsb + 3 of the value |
| `Radix.PrintBinary` | verilator-3.880/include/verilated.cpp:436-440 | All digits from the start bit down, highest first |
| `Radix.PrintOctal` | verilator-3.880/include/verilated.cpp:442-453 | All octal digits from the one that holds the start bit down |
| `Radix.PrintHex` | verilator-3.880/include/verilated.cpp:476-482 | All hexadecimal digits from the one that holds the start bit down |
| `Radix.PrintField` | verilator-3.880/include/verilated.cpp:376-482 | The text of the value, from its highest set bit on when the width is %0 |
| `Radix.SetBit` | verilator-3.880/include/verilated.cpp:542-546 | The bits of the digit are assigned at lsb, cut at the width; no other bit changes |
| `Radix.Based` | verilator-3.880/include/verilated.cpp:547-572 | The destination holds the number that the text is when read from the left in its base, modulo 2^obits; x, z and ? are digits 0 and underscores are passed over |
| `Radix.ScanField` | verilator-3.880/include/verilated.cpp:616-688 | The longest run of accepted characters after any spaces is read as a number, of either case, into the cleared destination; without any the result is 0 and the scan fails |
| `Radix.FieldRoundTrip` | verilator-3.880/include/verilated.cpp:526-572 | A printed clean value followed by anything that is not a digit of its base is the field that is read, and its number is the value |

## Left out

Wide arithmetic:
- Signed.MulsW: compares the result modulo 2^lbits only, because the source declares its last output word dirty.
- Shifts.ShiftRS: lbits = obits; the source reads the sign from the top output word and masks that word to lbits, which only fit together then.
- Shifts.SelWWII: obits is taken equal to the selected width, and the result is compared below it, because the last word may be dirty.
- Streaming.StreamlWWI: requires lbits + rd < 2^31, so that the loop counter does not overflow a C int.
- StreamFast.StreamlIII: slices of at most 32 bits; the source says that a slice never exceeds the operand, and its mask wraps around above a word.
- StreamFast.StreamlFastIII: excludes lbits = 32, where the C mask is shifted by the full word width.
- Narrow and quad variants of the same operators, power, reductions, decimal and string formatting.

Case compiler:
- The widths of items and case expression are equal, as V3Width leaves them; constants are sequences of four-state bits in place of V3Number; real-valued items count as non-constant expressions.
- The flag ignoreOverlap, which no code of the repository sets, stays false in the table methods' main contract.
- Lint warnings, statistics and source positions.
- CaseParallel.VisitCase: a range item, for which the source has no C form there, counts as equal to a value when both its ends are, and X and Z bits of an item count as 0 in the comparison, as they do in a two-state C constant.
- A parallel pragma on a statement with a default only: the source builds a one-hot test of a null operand, and the model gives that check no meaning.

Syntax tree:
- Nodes are their links only: data types, user fields, edit counts, cloning, deletion and the iterator pointer m_iterpp are not modelled.
- Acyclicity of parenthood is not part of the invariant, as it is not checked by the source; swapping a node with its own ancestor is described at the level of lists.

VCD writer:
- Indentation, time scale, dates, time stamps, file names and the write buffer.
- VcdTrace.TraceWriter.Dump: whether the file has grown past its limit, and whether the next one can be opened, are inputs; the names of the files are not modelled.
- VcdTrace.TraceWriter.FullTriBit: needs clean input, since the source indexes a four-character table with it.
- VcdTrace.TraceWriter.ChgTriBit: needs clean input for the same reason.
- VcdScopes.HeaderReads: the reader works on scope and variable lines; that a scope named like a keyword of the format would confuse a reader of text is not modelled.
- Floating-point signals, dumps of X, and chgTriQuad as a method; its test is VcdTriQuad.TriQuadQuiet.
- VcdDeclare.DeclareKey: the name is taken with its module prefix, and the separator is the default one.
- A key declared twice: the map keeps the first, and the model starts from a map of different keys.

Save and restore:
- SaveRestore.VerilatedRestore.ReadDiffers: at most one block of 16 KiB, since the source checks the buffer once and then reads on; it is called for signatures only.
- The operating system is a schedule of transfer sizes with eventual progress; error codes, closing, fatal errors and the string operators are not modelled. Reads past the end give zeros.

Text codecs:
- Names are 7-bit and, where they are decoded, have no NUL, which ends a C string; encoding is taken before the hashing of long names.
- Radix: formats other than %b, %o and %x, file cursors, and the fixed length of the scan buffer.
