# A verified model of TinyCC's runtime library and build-time generators

This project models, in Dafny, the parts of the repository whose correctness is arithmetic, pointer surgery or
interleaving, and proves what they are for.

**Quadruple-precision arithmetic** (`lib/lib-arm64.c`). A datum is a pair of 64-bit words. `IeeeFormat` gives every
encoding its exact value as a whole number of units of 2^-16494 and defines rounding to nearest, ties to even, as a
competition among *all* encodings of the format, infinity included (sections 3.4, 4.3.1 and 5.4.1 of IEEE 754-2019);
`NearestEvenUnique` shows that there is one winner. Addition, subtraction, multiplication, division, the conversions
to and from `double`, `float` and 64-bit integers, and the comparisons are methods on word pairs that keep the code's
shifts, masks, guard and sticky bits and loops, each proved against that definition for every input: subnormals,
cancellation, overflow, signed zeros, infinities and NaNs. `Sticky` is the theory behind the guard bits: a value with
its lost bits jammed into the lowest one takes every rounding decision the exact value takes.

**Integer division and conversion** (`lib/armeabi.c`, `lib/libtcc1.c`). Two independent 64-bit divisions, one by
16-bit digits with at most two corrections each and one by estimate and one correction, are proved exact and so
equal; the signed wrappers truncate toward zero. The direct integer-to-float routes are proved to round correctly and
so to equal the exact conversion to quadruple precision followed by narrowing.

**The bounds checker** (`lib/bcheck.c`). The top-down splay tree is modelled on heap nodes with the code's pointer
assignments. A `Memory` is the pointer part of the nodes as a value; `Holds` ties it to the heap and `Spells` says it
forms a given tree. Splaying keeps the in-order sequence and splits the regions at the address sought; insertion and
deletion keep tree and reuse list equal to a set of disjoint regions; on top of that come pointer arithmetic, the
quarantine ring of a hundred freed blocks as a class over whole runs of malloc, free, realloc and pointer arithmetic,
the clean-up of frames and of long jumps.

**Atomic read-modify-write** (`lib/stdatomic.c`). Any number of compare-and-swap loops on one cell, interleaved in
any way with any spurious failures, as a state machine over its steps with the history of successful exchanges. What
each operation does to the cell is stated in arithmetic modulo the type and bit by bit.

**Build-time generators** (`gen_predef_table.c`, `gen_kw_index.c`, and their consumer `source/frontend/tccpp.c`).
Flattening a conditional macro text into flagged entries keeps its meaning, exactly within two limits; the generated
hash chains find what a scan from the end would find.

**Archives, strings and memory** (`source/driver/tcctools.c`, `source/obj/tccelf_load.c`, `lib/builtin.c`,
`lib/armeabi.c`). Writing and then reading an archive, the symbol index from the writer to the linker's lookup, the
word-at-a-time string routines with the zero-byte bit trick, and overlapping copies.

Machine words are naturals below a power of two with every wrap-around written out; `Words` connects shifts, masks
and disjunctions with arithmetic. The allocator's answers, frame addresses, thread identities and the symbols an
object file defines are parameters. Semaphores are taken to make each bounds-checker entry atomic.

Seven results are about the code not doing quite what its surroundings suggest:

- The archive reader takes nine of the ten characters of a size, so members are listed again exactly when every size
  is below 10^9 and no name is empty (`Archive.RoundTrip`), although the writer accepts sizes up to 2^31 - 2
  (`Archive.TenDigitMember`). An index of ten digits is misread in the same way (`Archive.TenDigitIndex`). Extraction
  gives back every file exactly when, besides, no two different members have the same name in its first 15 characters
  (`Archive.ExtractRoundTrip`, `Archive.NameClash`).
- An archive cut short is reported when the cut is within a member's contents and not when it is within a header
  (`Archive.CutShort`). Of several members that define a symbol the linker finds the last
  (`ArchiveIndex.CreateAndLink`).
- The compiler walks a predefine's chain newest first and pushes every active entry, so the *first* live definition
  of the text ends up in force, while in the text the last does; the two agree on a name exactly when these have the
  same body (`Predefines.CompilerAgrees`, `Predefines.TextAgrees`, `Predefines.Redefinition`).
- The flattening handles the three kinds of group that its comment lists, but not every text made of them. It is
  right after every line and under every setting of the options exactly when no version test has an `#else` and every
  `#ifndef` asks for a name with no entry so far, with an unflagged one, or with entries in both underscore arms
  (`Predefines.InStepIff`, `Predefines.GuardDecidable`; `Predefines.ElseOnVersionTest` and
  `Predefines.GuardOnFlaggedName` are the failing texts).
- Passing a quarantined pointer to `realloc` drops its region but not its place in the ring; the ring and the invalid
  regions stay the same exactly when that is not done (`Quarantine.Checker.Realloc`, `Quarantine.ReallocFreed`).
- The string routines align to 4 whatever the size of their words. With words of 4 bytes no read leaves the aligned
  word that holds the terminator; with words of 8 a read can. Each routine's contract gives the end of its reads, and
  `Strings.ReadsWithinWord` says exactly when that end is within the word (`Strings.EightOverruns` is a call where it
  is not).
- The most negative 64-bit integer divided by -1 wraps to itself, with remainder 0, in both signed divisions
  (`SignedDivision.LDivMod`, `SignedDivision.DivMod3`).

## Model

| member | source | states |
|---|---|---|
| `IeeeFormat.NearestEvenUnique` | lib/lib-arm64.c:148-184 | Rounding to nearest with ties to even has one result, so any two routes proved against it agree bit for bit. |
| `IeeeFormat.UnitsMono` | lib/lib-arm64.c:634-647 | Values increase strictly with the encoded magnitude. |
| `IeeeFormat.OverflowThreshold` | lib/lib-arm64.c:178-179 | Infinity is the nearest encoding exactly from half a unit in the last place above the largest finite value, in every format. |
| `Sticky.JamCompose` | lib/lib-arm64.c:129-146 | Sticky shifts compose: shifting by j and then by k keeps exactly what one shift by j + k keeps. |
| `Sticky.RoundCorrect` | lib/lib-arm64.c:148-184 | Rounding a number that holds an exact fraction in two guard bits with a jammed low bit gives the encoding nearest that fraction, ties to even, through every carry into the exponent. |
| `Quad.F3Unpack` | lib/lib-arm64.c:95-107 | Sign, exponent and mantissa reproduce the magnitude of the encoding and its exact value. |
| `Quad.F3DetectNaNs` | lib/lib-arm64.c:68-93 | Reports a NaN exactly when an operand is one, and yields that operand with its quiet bit set and the rest unchanged: a signalling one before a quiet one, the left before the right. |
| `Quad.F3Normalise` | lib/lib-arm64.c:109-127 | The top bit is set and the value is unchanged: mantissa times 2 to the exponent drop. |
| `Quad.F3StickyShift` | lib/lib-arm64.c:129-146 | The result is the jammed right shift for every shift count, 0, 64, 128 and beyond included. |
| `Quad.F3Round` | lib/lib-arm64.c:148-184 | From a normalised mantissa that stands for any exact fraction: the nearest encoding, ties to even, with the given sign. |
| `AddTf3.F3Add` | lib/lib-arm64.c:186-247 | For all operands: the exact sum or difference of the signed values rounded to nearest even, its sign that of the exact result, with IEEE 754 signs of exact zeros, infinities, the propagated NaN and the default NaN. |
| `AddTf3.HoldsSub` | lib/lib-arm64.c:231-246 | Subtracting a jammed aligned operand still holds the exact difference, so cancellation after a sticky shift is safe. |
| `AddTf3.AddTf3` | lib/lib-arm64.c:249-252 | Addition of signed values is correctly rounded for all inputs. |
| `AddTf3.SubTf3` | lib/lib-arm64.c:254-257 | Subtraction of signed values is correctly rounded for all inputs. |
| `MulTf3.Columns` | lib/lib-arm64.c:299-305 | No column sum leaves 64 bits, and each column is its carry and a 30-bit digit of the carried product. |
| `MulTf3.ProductDigits` | lib/lib-arm64.c:299-305 | The digits of carried columns spell the exact product. |
| `MulTf3.MulTop` | lib/lib-arm64.c:306-310 | The upper words are the top of the exact product with all lower digits jammed into the low bit. |
| `MulTf3.MulTf3` | lib/lib-arm64.c:259-322 | Multiplication is correctly rounded for all inputs, negative exactly when the operands' signs differ, with the special operands of IEEE 754. |
| `DivTf3.DivLoop` | lib/lib-arm64.c:356-368 | 116 steps give the quotient of a * 2^115 by b and twice its remainder, with a below 2b before every step. |
| `DivTf3.DivTf3` | lib/lib-arm64.c:324-374 | Division is correctly rounded for all inputs, negative exactly when the operands' signs differ, with the special operands of IEEE 754. |
| `Narrow.TruncTfDf2` | lib/lib-arm64.c:457-487 | Narrowing to double is correctly rounded for every number; a NaN keeps its top fraction bits with the quiet bit set. |
| `Narrow.TruncTfSf2` | lib/lib-arm64.c:426-455 | The same to float. |
| `Widen.ExtendDfTf2` | lib/lib-arm64.c:402-424 | Widening a double keeps its exact value, subnormals and signed zeros included; a NaN becomes a quiet NaN with its fraction on top. |
| `Widen.ExtendSfTf2` | lib/lib-arm64.c:376-400 | The same from float. |
| `RoundTrips.DoubleRoundTrip` | lib/lib-arm64.c:402-487 | Widening a double and narrowing it again gives the same bits, and for a NaN the same bits with the quiet bit set. |
| `RoundTrips.FloatRoundTrip` | lib/lib-arm64.c:376-455 | The same for float. |
| `RoundTrips.DoubleThereAndBack` | lib/lib-arm64.c:402-487 | The two routines in sequence give back every double, a NaN made quiet. |
| `RoundTrips.FloatThereAndBack` | lib/lib-arm64.c:376-455 | The same for float. |
| `Integers.FloatDiTf` | lib/lib-arm64.c:570-593 | Every signed 64-bit integer is converted exactly. |
| `Integers.FloatUnDiTf` | lib/lib-arm64.c:614-632 | Every unsigned 64-bit integer is converted exactly. |
| `Integers.FixTfDi` | lib/lib-arm64.c:504-517 | The value truncated toward zero, saturated at the ends of the signed range. |
| `Integers.FixUnsTfDi` | lib/lib-arm64.c:532-543 | The value truncated toward zero, saturated at 0 and at the top of the unsigned range. |
| `Integers.IntegerRoundTrip` | lib/lib-arm64.c:504-593 | Converting a signed integer and back is the identity on all 2^64 of them. |
| `Integers.UnsignedRoundTrip` | lib/lib-arm64.c:532-632 | The same for unsigned integers. |
| `Integers.SignedThereAndBack` | lib/lib-arm64.c:504-593 | The two routines in sequence give back every signed 64-bit integer. |
| `Integers.UnsignedThereAndBack` | lib/lib-arm64.c:532-632 | The same for unsigned integers. |
| `Compare.CmpOrders` | lib/lib-arm64.c:634-647 | The comparison orders all numbers by value, -0 equal to 0, and answers 2 exactly when an operand is a NaN. |
| `Compare.EntryPoints` | lib/lib-arm64.c:649-677 | The comparison entry points decide less, greater and equal by value, with NaNs unordered. |
| `Bits32.Clz32` | lib/armeabi.c:638-668 | The count of leading zeros: 32 for zero, else the operand lies between the two powers of two it names. |
| `Bits32.Msb64` | lib/armeabi.c:671-677 | The position of the highest set bit of a non-zero word. |
| `IntToFloat.Ul2d` | lib/armeabi.c:734-781 | Unsigned to double is correctly rounded, with carry into the exponent. |
| `IntToFloat.Ul2f` | lib/armeabi.c:685-732 | Unsigned to float is correctly rounded. |
| `IntToFloat.L2d` | lib/armeabi.c:841-897 | Signed to double is correctly rounded, the most negative integer included. |
| `IntToFloat.L2f` | lib/armeabi.c:783-839 | Signed to float is correctly rounded. |
| `IntToFloat.RoutesAgree64` | lib/armeabi.c:734-781 | The direct route to double equals the exact conversion to quadruple precision followed by narrowing, bit for bit. |
| `IntToFloat.RoutesAgree32` | lib/armeabi.c:685-732 | The same for float. |
| `IntToFloat.SignedRoutes` | lib/armeabi.c:783-897 | The direct routines and the pairs through quadruple precision, run on the same signed integer, give the same correctly rounded double and float. |
| `IntToFloat.UnsignedRoutes` | lib/armeabi.c:685-781 | The same for unsigned integers. |
| `Division.Digit` | lib/armeabi.c:326-335 | A 16-bit digit estimate, corrected at most twice, is the exact digit, and the wrapped remainder is the true one. |
| `Division.TwoDigits` | lib/armeabi.c:319-348 | Two digits give the quotient and remainder of a 64-bit number by a normalised 32-bit one. |
| `Division.NarrowDivisor` | lib/armeabi.c:278-349 | Exact quotient and remainder for a divisor of one word. |
| `Division.WideDivisor` | lib/armeabi.c:355-447 | Exact quotient and remainder for a divisor of two words: the estimate lowered by one is at most one too small. |
| `Division.MulWide` | lib/armeabi.c:426-433 | The product of two words from 16-bit halves, no sum of which wraps. |
| `Division.ULDivMod` | lib/armeabi.c:270-454 | n = q * d + r with r below d for every n and every d above 0; 0 and 0 for d = 0. |
| `UDivModDi4.OneWord` | lib/libtcc1.c:166-197 | Exact quotient and remainder for a divisor of one word. |
| `UDivModDi4.AtMostOne` | lib/libtcc1.c:323-343 | The estimate from the top words is at most one too large, even when the normalising shift is 31. |
| `UDivModDi4.EstimateStep` | lib/libtcc1.c:336-350 | Estimate, multiply and at most one correction, in wrapping arithmetic, give quotient and remainder of the shifted operands. |
| `UDivModDi4.UDivMod` | lib/libtcc1.c:148-362 | n = q * d + r with r below d for every n and every d above 0. |
| `SignedDivision.LDivMod` | lib/armeabi.c:472-506 | Truncation toward zero with the dividend's sign on the remainder; only the most negative integer by -1 wraps; 0 and 0 for d = 0. |
| `SignedDivision.DivMod3` | lib/libtcc1.c:366-409 | The same for the generic signed quotient and remainder. |
| `SignedDivision.TruncatedUnique` | lib/libtcc1.c:366-409 | Truncating division has one quotient and one remainder. |
| `SignedDivision.HelpersAgree` | lib/libtcc1.c:148-409 | The ARM and the generic division give the same words for every dividend and every non-zero divisor, unsigned and signed. |
| `SignedDivision.UIDiv` | lib/armeabi.c:210-228 | The quotient of every pair of words, 0 for a zero divisor. |
| `SignedDivision.Restoring` | lib/armeabi.c:215-226 | The 32 restoring steps give exact quotient and remainder; the running remainder never outgrows the word. |
| `SignedDivision.IDiv` | lib/armeabi.c:231-250 | 32-bit signed division truncates toward zero. |
| `SplayTree.RotateRight` | lib/bcheck.c:2109-2111 | The pointer rotation keeps the nodes, their order and both half-built trees. |
| `SplayTree.RotateLeft` | lib/bcheck.c:2121-2123 | The mirror image. |
| `SplayTree.LinkRight` | lib/bcheck.c:2114-2116 | Hanging the root on the right-hand tree keeps nodes and order and leaves a smaller tree to search. |
| `SplayTree.LinkLeft` | lib/bcheck.c:2126-2128 | The mirror image. |
| `SplayTree.Assemble` | lib/bcheck.c:2133-2136 | The four closing assignments join everything into one tree with all nodes in order. |
| `SplayTree.Splay` | lib/bcheck.c:2091-2192 | For any address and any tree of disjoint non-empty regions the loop ends; nodes and in-order sequence are the same; regions before the new root lie below the address and those after it above, by start or by end. |
| `RegionIndex.ContainedAtRoot` | lib/bcheck.c:2201-2206 | After splaying, the address lies in some region exactly when it lies in the root's. |
| `RegionIndex.HeldDisjoint` | lib/bcheck.c:2194-2269 | The index only ever holds non-empty disjoint regions. |
| `RegionIndex.Add` | lib/bcheck.c:2207-2236 | Taking a node from the reuse list or a new one, placing and filling it, adds exactly the given region. |
| `RegionIndex.SplayInsert` | lib/bcheck.c:2194-2238 | The set of regions gains exactly the new one, or is unchanged when its address is taken; nodes are reused when there are any. |
| `RegionIndex.LastOnTop` | lib/bcheck.c:2253-2258 | The left subtree, splayed at an address above it, has its last node on top, so its right child is empty. |
| `RegionIndex.SplayDelete` | lib/bcheck.c:2243-2269 | Exactly the region starting at the address goes; its node is first on the reuse list; no node is lost. |
| `BoundsChecker.OwnerUnique` | lib/bcheck.c:548-560 | A pointer belongs to at most one region: the one it points into or, failing that, the one it is just past. |
| `BoundsChecker.Locate` | lib/bcheck.c:548-560 | Root, splay by start and splay by end find the owner exactly when there is one, whatever the shape of the tree. |
| `BoundsChecker.PtrAdd` | lib/bcheck.c:536-581 | The result is a function of the set of regions. Over the integers: an owned pointer moves by the signed offset to anywhere in its block or just past it, and everything else, and every move once the block is freed, is the invalid pointer; a pointer without an owner moves freely modulo the address space. |
| `BoundsChecker.ForbiddenIs` | lib/bcheck.c:560-570 | In signed terms: refused exactly when the block was freed or p + offset is neither in it nor just past it, for sizes below half the address space. |
| `Quarantine.RingPush` | lib/bcheck.c:1595-1597 | Overwriting the slot and advancing the index is a push on a queue of a hundred, and the slot held what the push evicts. |
| `Quarantine.LastHundred` | lib/bcheck.c:1595-1600 | The queue holds the last hundred frees and all earlier ones have left, each once and in order. |
| `Quarantine.Lifetime` | lib/bcheck.c:1595-1600 | A freed block stays for 99 later frees and leaves at exactly the hundredth. |
| `Quarantine.QueueOfRun` | lib/bcheck.c:1565-1642 | After any lawful run of calls, realloc included, the quarantine is what pushing the run's successful frees makes of it. |
| `Quarantine.Conserved` | lib/bcheck.c:1588-1604 | Over any lawful run the blocks handed back, in order, followed by the quarantine at the end are the quarantine at the start followed by the run's frees: each is released once or still kept. |
| `Quarantine.NotFreedAgain` | lib/bcheck.c:1576-1587 | A quarantined block cannot be freed successfully before it has left. |
| `Quarantine.Quarantined` | lib/bcheck.c:1565-1642 | Through any lawful run with fewer than a hundred later successful frees a freed block stays registered as invalid; at the hundredth it is gone. |
| `Quarantine.StaysLive` | lib/bcheck.c:1507-1642 | Through any lawful run a block keeps its region until it is itself freed or moved. |
| `Quarantine.MarkedFree` | lib/bcheck.c:1588-1601 | A free keeps the queue equal to the starts of the invalid regions, each once. |
| `Quarantine.Checker.Free` | lib/bcheck.c:1565-1605 | All outcomes: ignored, unregistered, double free (nothing changes), or kept, with what is released. |
| `Quarantine.Checker.Malloc` | lib/bcheck.c:1507-1521 | Registers the block with its type; the quarantine is untouched. |
| `Quarantine.Checker.Realloc` | lib/bcheck.c:1610-1642 | Size 0 is a free; otherwise the old block's region is replaced by the new one and the ring is untouched. The ring still lists exactly the invalid regions if and only if the old pointer was not a quarantined one. |
| `Quarantine.ReallocFreed` | lib/bcheck.c:1610-1642 | Malloc, free and realloc of one block: its region is gone and the ring still lists it. |
| `Quarantine.Checker.Add` | lib/bcheck.c:536-581 | Pointer arithmetic on the running checker: the answer over the integers, and no region changes. |
| `Quarantine.MallocThenAdd` | lib/bcheck.c:1507-1521 | On any checker, after malloc of n bytes a pointer to them moves by exactly 0 to n, by 0 to 1 for n = 0, and any other offset is refused. |
| `Quarantine.ReallocThenAdd` | lib/bcheck.c:1610-1642 | After realloc the same for the new block and size. |
| `Quarantine.FreeThenAdd` | lib/bcheck.c:1565-1605 | After free every pointer into the block is refused, whatever the offset. |
| `Quarantine.FreeTwice` | lib/bcheck.c:1587-1592 | The second free of a block is reported and changes nothing. |
| `Quarantine.Checker.Run` | lib/bcheck.c:1507-1642 | Every lawful run of malloc, free, realloc and pointer arithmetic leaves regions and quarantine as the plain description of the calls says, and releases exactly the blocks evicted, in order. |
| `Unwinding.FindStart` | lib/bcheck.c:893-897 | The descent finds a region that starts in the range exactly when there is one. |
| `Unwinding.DeleteRange` | lib/bcheck.c:888-918 | The loop ends and removes exactly the regions that start in the range, and for each the first alloca record of its block. |
| `Unwinding.ReleasedMore` | lib/bcheck.c:899-914 | Releasing the records of one start after others is releasing them together, in any order. |
| `Unwinding.ReleasedAll` | lib/bcheck.c:899-914 | With one record per block, exactly the records of the deleted regions go and the others keep their order. |
| `Unwinding.DropAhead` | lib/bcheck.c:869-887 | Exactly this thread's records ahead of the target go; the others keep their order. |
| `Unwinding.LongJump` | lib/bcheck.c:852-925 | Regions, jump list and alloca records after a long jump, and no change when the target is unknown. |
| `Unwinding.JumpLaw` | lib/bcheck.c:869-887 | After a long jump every other thread's records are all there in order, and this thread's first record is the one with the caller's environment. |
| `Unwinding.LocalDelete` | lib/bcheck.c:685-744 | Leaving a frame removes exactly the regions that start at a variable, at its signed offset from the frame, or at one of its allocas, and the frame's records. |
| `Atomics.StepKeeps` | lib/stdatomic.c:59-69 | Every step of every call keeps the invariant that ties cell, log and calls together. |
| `Atomics.CellIsFold` | lib/stdatomic.c:59-96 | In every reachable state the cell is the fold of the operations in exchange order. |
| `Atomics.History` | lib/stdatomic.c:59-96 | In every reachable state each operation had its effect on what the one before it left: sum and difference modulo 2^w, the bitwise operations bit by bit, from the start value to the cell. |
| `Atomics.Conserved` | lib/stdatomic.c:59-96 | When only additions and subtractions took effect, the cell is the start value plus all added less all subtracted, modulo 2^w, for every interleaving. |
| `Atomics.OneEffect` | lib/stdatomic.c:59-96 | A call that returned took effect at exactly one exchange between its start and its return, and returned the value before or after it as its variant requires. |
| `Atomics.NoEffectYet` | lib/stdatomic.c:59-69 | A call still in its loop has had no effect. |
| `Atomics.RealTime` | lib/stdatomic.c:59-69 | If one call returned before another began, its effect comes first. |
| `Atomics.LockFree` | lib/stdatomic.c:63-67 | An exchange fails, other than spuriously, only if another operation took effect since the load. |
| `HashIndex.Build` | gen_kw_index.c:54-73 | Every bucket's chain lists exactly the keys of that bucket, newest first, with strictly decreasing links. |
| `HashIndex.HashOf` | source/frontend/tccpp.c:708-711 | The shifting and adding loop computes the hash in 32-bit arithmetic. |
| `HashIndex.Lookup` | source/frontend/tccpp.c:723-735 | The walk finds the newest entry with the key, exactly when there is one, as a scan from the end would. |
| `Predefines.Flatten` | gen_predef_table.c:342-476 | The generator's loop computes the flattening, or fails exactly when there would be more than 512 entries or the conditionals do not balance. |
| `Predefines.FlattenShaped` | gen_predef_table.c:342-476 | Texts of the three kinds of group with all groups closed and at most 512 definitions are accepted, and none with a group left open. |
| `Predefines.GuardedDefinition` | gen_predef_table.c:15-18 | A guarded definition takes effect exactly when the name has none yet. |
| `Predefines.VersionDefinition` | gen_predef_table.c:18-20 | A definition for the newer version takes effect exactly when that is chosen. |
| `Predefines.UnderscoreDefinition` | gen_predef_table.c:21-22 | Of two arms the one that the underscore option chooses takes effect. |
| `Predefines.GuardDecidable` | gen_predef_table.c:349-358 | Whether a name has an entry says whether it is defined, under every setting of the options, exactly when it has none, an unflagged one, or one in both underscore arms. |
| `Predefines.InStepIff` | gen_predef_table.c:342-395 | On texts of the three kinds of group, not nested: generator and text agree after every line under every setting of the options exactly when no version test has an #else and every #ifndef name is decidable. |
| `Predefines.FlatteningPreservesMeaning` | gen_predef_table.c:14-22 | For every such text within the two limits and every setting of the options, the active entries define the macros the text defines. |
| `Predefines.ElseOnVersionTest` | gen_predef_table.c:381-388 | Without the first limit the meaning changes. |
| `Predefines.GuardOnFlaggedName` | gen_predef_table.c:349-358 | Without the second limit the meaning changes. |
| `Predefines.Materialise` | source/frontend/tccpp.c:5738-5758 | The chain walk pushes the bodies of the active entries of the name, newest first, and nothing else. |
| `Predefines.TextTakesNewest` | gen_predef_table.c:396-433 | The text's definition is the newest active entry's. |
| `Predefines.CompilerAgrees` | source/frontend/tccpp.c:5746-5757 | Compiler and table agree on a name exactly when its first and last active entries have the same body. |
| `Predefines.TextAgrees` | source/frontend/tccpp.c:5746-5757 | Compiler and text agree on a name exactly when its first and last live definition lines have the same body. |
| `Predefines.Redefinition` | source/frontend/tccpp.c:5746-5757 | For the text of two definitions of one name the compiler keeps the first and the text the second. |
| `Predefines.OnceEach` | source/frontend/tccpp.c:5738-5758 | When no two definitions of a name are live together, the compiler's definition is the text's. |
| `Archive.SizeRead` | source/driver/tcctools.c:193-194 | The reader's nine characters give the size below 10^9 and a tenth of it above. |
| `Archive.BodyRead` | source/driver/tcctools.c:183-234 | Members in a row come back, names cut to 15 characters, exactly when no size has ten digits and no name is empty. |
| `Archive.ParsedSizes` | source/driver/tcctools.c:193-194 | No file whatever makes the reader list a member of 10^9 bytes or more. |
| `Archive.ReadArchive` | source/driver/tcctools.c:170-245 | The reading loop lists exactly what the grammar of the file says, on any bytes, and extraction writes exactly the listed files, the last of each name, over what was there. |
| `Archive.RestoredIff` | source/driver/tcctools.c:211-231 | Extraction leaves every listed item on disk exactly when items of one name have one contents. |
| `Archive.LastWins` | source/driver/tcctools.c:211-231 | Of several items of one name the last is on disk. |
| `Archive.SkippedNames` | source/driver/tcctools.c:204-207 | The reader skips "/" and "/SYM64/" and no other name. |
| `Archive.AtoiReads` | source/driver/tcctools.c:193-194 | Blanks, a sign or none, digits and anything after them give the signed number. |
| `Archive.CutShort` | source/driver/tcctools.c:183-202 | An archive cut short lists exactly the members before the cut, and reports a cut within contents and not one within a header. |
| `Archive.RoundTrip` | source/driver/tcctools.c:170-450 | Create, then list: with an index below 10^9 bytes all names and contents are read again exactly when no size has ten digits and no name is empty; with any index, only when no size has ten digits. |
| `Archive.ExtractRoundTrip` | source/driver/tcctools.c:170-450 | Create, then extract: with an index below 10^9 bytes every member has its file again exactly when no size has ten digits, no name is empty and members of one cut name are equal; with any index, only when sizes and names are so. |
| `Archive.NameClash` | source/driver/tcctools.c:211-231 | Two different files whose names are equal in the first 15 characters are both listed, and one is lost on extraction. |
| `Archive.IndexRead` | source/driver/tcctools.c:183-234 | For every archive, where the reader goes on after the index: at the members, or a tenth of the way into an index of ten digits. |
| `Archive.TenDigitMember` | source/driver/tcctools.c:193-194 | Every archive of one file of 10^9 bytes is written and comes back neither listed nor extracted. |
| `Archive.TenDigitIndex` | source/driver/tcctools.c:193-194 | An archive of one file, with any contents that fit, that defines a symbol of 10^9 letters is written and is no archive to the reader. |
| `Archive.SwappedInMemory` | source/driver/tcctools.c:49-52 | The swapped word in little-endian memory is the word most significant byte first; swapping twice is the identity. |
| `Archive.IndexPoints` | source/driver/tcctools.c:408-435 | Every index entry is the file offset of the header of the member that defines the symbol, through all padding. |
| `Archive.HeaderLayout` | source/driver/tcctools.c:107-108 | The seven fields of a header, each text followed by spaces. |
| `Archive.MemberLayout` | source/driver/tcctools.c:381-402 | A member as any reader finds it: mode 100644, owner and date 0, its size in decimal, its contents, and a NUL after an odd number of bytes. |
| `ArchiveIndex.IndexReadsBack` | source/driver/tcctools.c:415-435 | From byte 68 of the file on stand the number of symbols, their members' offsets and their names, and they are read back exactly. |
| `ArchiveIndex.GetBe` | source/obj/tccelf_load.c:708-714 | The number of four bytes, most significant first. |
| `ArchiveIndex.LoadIndex` | source/obj/tccelf_load.c:836-912 | The names come off their table and every bucket's chain lists exactly the symbols of that bucket, for any hash. |
| `ArchiveIndex.Resolve` | source/obj/tccelf_load.c:789-796 | A lookup finds the last entry of the name, exactly when there is one, and its offset. |
| `ArchiveIndex.CreateAndLink` | source/obj/tccelf_load.c:914-943 | Writer and linker in sequence: a symbol is found exactly when an input defines it, and at the offset found stands the last member that does. |
| `Archive.BaseOf` | source/driver/tcctools.c:382-384 | The part of a path after its last separator. |
| `Archive.WriteArchive` | source/driver/tcctools.c:268-450 | The writing loops produce the archive, or fail exactly when an input or all members together are too large. |
| `Archive.CreateAndRead` | source/driver/tcctools.c:170-450 | Writer and reader run in sequence on paths and contents: refused exactly when too large, and both round trips with their exact conditions otherwise. |
| `WordScan.HasNullIff` | lib/builtin.c:20-22 | The bit trick fires exactly when some byte of the word is zero, for any word size. |
| `WordScan.MagicWords` | lib/builtin.c:20-21 | The two constants as the macros compute them. |
| `Strings.StrLen` | lib/builtin.c:697-730 | The distance to the first zero byte, for any alignment and word size, and the exact end of the reads. |
| `Strings.ReadsWithinWord` | lib/builtin.c:701-720 | The end of the reads is within the aligned word that holds the terminator exactly when the first word is itself aligned, or the last one starts in the word before. |
| `Strings.WordsFit` | lib/builtin.c:701-720 | For word sizes that divide 4 the reads end within the aligned word that holds the terminator, so memory of whole words is always enough. |
| `Strings.EightOverruns` | lib/builtin.c:701-720 | strlen with words of 8 bytes, called on the empty string at address 4: the first 8 bytes hold it and 12 are read. |
| `Strings.StrCmp` | lib/builtin.c:629-690 | The byte difference where the strings first part or end, for any alignments and word size, and the exact ends of the reads from both. |
| `Strings.CmpWordsFit` | lib/builtin.c:643-680 | For word sizes that divide 4 memory of whole words is always enough for both strings. |
| `Strings.MemCmp` | lib/builtin.c:519-535 | The difference at the first byte where the blocks differ, else 0. |
| `Strings.StrCpy` | lib/builtin.c:870-930 | Memory afterwards is memory before with the string and its terminator copied, and nothing else written; the exact end of the reads. |
| `Strings.MemCpy` | lib/armeabi.c:80-112 | Word steps, at aligned addresses only, and byte steps copy the original source whenever a forward copy can. |
| `Strings.MemMove` | lib/armeabi.c:114-134 | Every byte of the destination gets the source's original byte, for all overlaps and alignments. |
| `Strings.CopiedAt` | lib/armeabi.c:80-134 | A copy byte by byte: the destination has the source's original bytes and nothing else changes. |

## Left out

- SplayTree.Splay: addresses are unbounded naturals there; `BoundsChecker.PtrAdd` adds that regions do not wrap the address space.
- BoundsChecker.PtrAdd: warnings, statistics and the switch that turns checking off are not modelled.
- Quarantine.Checker.Malloc: assumes the allocator answers with a block that meets no registered one, quarantined blocks included.
- RegionIndex.SplayInsert: assumes a new region is not empty and meets no other, unless its address is taken, when nothing changes.
- UDivModDi4.UDivMod: a zero divisor, on which the code divides by zero on purpose, is excluded.
- Quarantine.Checker.Run: a run passes only live pointers to realloc; `Quarantine.Checker.Realloc` says what any other pointer does.
- Predefines.Flatten: lines are already split into directives; continuation lines, raw declarations and parameter lists are not modelled.
- Archive.WriteArchive: assumes that the file offsets of the symbols' members fit in an int, as the code does; the defined symbols of each input are given, and object file parsing, option letters and file system errors, names that cannot be created included, are not modelled.
- Archive.RoundTrip: with an index of ten digits the reader goes on inside the symbol names, which may spell headers, so the condition there is `Archive.IndexRead` and no simpler one.
- ArchiveIndex.CreateAndLink: assumes an index below 10^9 bytes, file and symbol names without NUL and file names that are not empty; the loader trusts the counts in the file, and loading the object found is not modelled.
- `__bound_ptr_indirN`, whose wrapped end test needs extra conditions on accesses below a region.
- The 32-bit integer conversions of `lib/lib-arm64.c`, shift helpers of `lib/libtcc1.c`, `memset` and the bit-count builtins, which would only add easy members.
- String interning and body tokenising in the predefine generator.
- Compiler passes, assemblers, ELF linking and the command line driver.
