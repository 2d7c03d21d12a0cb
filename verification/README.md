# Unpopped: a verified model

Unpopped generates compute kernels. This project models the parts of it that decide what a kernel
reads, which kernel serves which call and in what order the generated serial code runs, and proves
what the code and its documentation promise of them, or exactly when they keep it.

Check everything with `dafny verify dfyconfig.toml`.

## How it is laid out

- **Layout algebra.** `Modes` is the theory of flat mode lists (mixed-radix digits, spans, when a list
  fills an interval); `Layouts`, `LayoutOps`, `Composition`, `Carries`, `Complement`, `Inverse` and
  `Products` are the operations on nested `shape:stride` trees, `ComposeSuccess` when they succeed. Integers are mathematical; the 64-bit
  bounds that `Layout::new` and the checked operations enforce are part of the model (`Valid`).
- **Structure keys.** `Text` and `KeyCodes` spell the parts, `StructureKeys` prints and reads tokens,
  `KeyRoundTrip`, `KeyReading` and `KeySpelling` say what survives which way, `KeyVerdicts` is the typed
  reader, `KeyCodec` the string building and the cursors as they run, `KeyTokens` the spellings of the
  wire. `Targets` and `Interning` are the
  target grammar and the table behind it. `Classify` and `BatchRoles` derive key fields from operands.
- **Serialized kernels.** `Runs` and `ThreadMachine` are the meaning of a launched kernel: threads
  taking single steps in any order, meeting at barriers; `ThreadMeaning` is what one thread's code means
  as it is written, and proves that the steps come to just that. `Admission` is what a launch may hold.
  `ThreadLoop`, `ThreadLoopRefines` and
  `DevicePhases` are the lowering and the proof that what it emits is one of those orders; `EmittedEnds`
  adds that it comes to an end when the kernel does, `ThreadOrder` in which order the threads get their
  turns. `LaunchIds`, `CallGraph`, `Collectives` and `MatrixMultiply` are the ids, the emission order
  and the block-level constructs, `MatrixLaws` what the last computes, over plain indices.
- **Shape expressions** (`ShapeExprs`, with their exact values in `ShapeValues`) and **dispatch**
  (`Dispatch`, `Ranking`).
- `Arith`, `Sorting`, `Distinctness` and `Wrappers` are shared.

A routine that loops or changes state in the source is a method here, proved equal to a function or
against a contract; the theorems are lemmas about those functions.

## Where the code and its documentation part

The model follows the code. Each of these is stated as a theorem.

- `composition` promises the composed function on every success. It delivers it if and only if adding
  the right-hand side's modes carries out of no mode of `self` (`Carries.CompositionExact`,
  `Carries.CarryCounterexample`).
- `coalesce` promises the same function at every index. Below the size that is so; beyond it, if and
  only if a last mode of extent 1 carries on where the last larger one stops
  (`LayoutOps.CoalesceExtrapolates`).
- `complement` hedges its size promise for small cotargets; the hedge is not needed, and the size is
  known exactly (`Complements.ComplementCompletes`).
- `right_inverse` is said to be as large as the modes allow. The search takes the first mode that fits
  and can miss a larger one (`Inverses.RightInverseTooSmall`). The first offset it leaves out is one
  `self` does not read if and only if the modes fill to a gap, a condition on `self` alone
  (`Inverses.RightInverseLargest`); then no larger inverse exists (`Inverses.NoLargerInverse`), which
  covers every layout that reads no offset twice (`Inverses.InjectiveLargest`). For the absence of a
  larger inverse the condition is sufficient and not necessary (`Inverses.GapNotNecessary`).
- `left_inverse` is said to decline what `complement` declines. It also declines every layout at the
  deepest level (`Inverses.DeepestHasNoLeftInverse`); `Inverses.LeftInverse` has the whole condition.
- `logical_product` is said not to overlap whenever `rhs` reads no offset twice. It can, because the
  composition it is built from can carry (`Products.ProductOverlaps`). Where the composition carries
  nowhere, which separated strides ensure (`Products.SeparatedProduct`), the product overlaps if and
  only if `rhs` does (`Products.ProductInjective`); a product that carries may still not overlap
  (`Products.CarryNotNecessary`).
- A key outside `ctr` whose accumulator is `c64` or `c128` prints a token its own reader refuses
  (`KeyRoundTrip.ComplexAccumulatorRefused`); `KeyRoundTrip.TokenRoundTrip` has the whole condition.
- The reduce-field reader is documented to reject every non-canonical spelling. It takes `rlast` at
  rank 1 (`KeySpelling.LastOfOneAxis`). The number leaves let signs, leading zeros and capitals through,
  and an identity order may be spelled out (`KeySpelling.LooseSpellings`); `KeySpelling.PrintsBack` lists all
  of it.
- `parse_token` reads the reduce field before it checks the rank against the ceiling, and shifts a byte
  by the rank. Whatever a shift past the width gives, the two readers accept the same tokens
  (`KeyVerdicts.ReadersAgree`), and only the reason of a decline can depend on it
  (`KeyVerdicts.ShiftOnlyInTheReason`).
- The intern table's error speaks of 65535 targets; it is given at 65536 (`Interning.FullIsFull`).
- The module check looks for cycles among calls only. The emission order also follows extern
  references, where a cycle can remain (`CallGraph.ReferenceCycle`).
- The emitted order is said to run each thread to the next barrier before the next thread starts. A
  block-level `If` or `For` ends a thread loop as well, and then the next thread starts before any
  barrier (`ThreadOrder.NotToNextBarrier`). Every way through the emitted code is in the documented
  order if and only if no statements of a thread loop follow those of another without a rendezvous
  between them, which the body shows (`ThreadOrder.OrderIffKept`, `ThreadOrder.OrderKept`). What always
  holds is that the order is one the barrier semantics allows (`DevicePhases.EmittedIsInterleaving`),
  and for kernels without races the only outcome (`DevicePhases.EmittedIsTheOutcome`).

## Model

| member | source | states |
|---|---|---|
| Layouts.New | crates/unpopped-vocab/src/layout_algebra.rs:276-301 | a shape and stride tree are accepted exactly when they are congruent, non-empty, not too deep, of positive extents and non-negative strides, and size and cosize fit 64 bits; then nothing is changed |
| LayoutOps.Call | crates/unpopped-vocab/src/layout_algebra.rs:412-431 | reading an index overflows exactly when the offset itself does not fit, and otherwise gives the offset of the flattened modes; a negative index is out of range |
| LayoutOps.CoordinateRoundTrip | crates/unpopped-vocab/src/layout_algebra.rs:182-203 | splitting an index into its natural coordinate and reading that coordinate gives the offset of the index, for every nesting and every index below the size |
| LayoutOps.CoordinateExact | crates/unpopped-vocab/src/layout_algebra.rs:433-461 | a coordinate is read if and only if it has the profile of the shape, or an index where that has a sub-layout, and is in range everywhere; the offset is within the span, and never an overflow |
| LayoutOps.ColMajorIdentity | crates/unpopped-vocab/src/layout_algebra.rs:310-326 | the compact column-major layout of a shape keeps the shape and reads every index as itself |
| LayoutOps.Coalesce | crates/unpopped-vocab/src/layout_algebra.rs:463-485 | the result is a valid layout of the same size and cosize, on at most one level, reading the same offset at every index below the size; no mode of extent 1 is left and no two neighbours could be one, and a layout of one index becomes `1:0` |
| LayoutOps.CoalesceAgrees | crates/unpopped-vocab/src/layout_algebra.rs:463-485 | coalescing keeps the size and every offset below it |
| LayoutOps.CoalesceExtrapolates | crates/unpopped-vocab/src/layout_algebra.rs:463-466 | the documented agreement at every index holds if and only if dropping the extent-1 modes does not move where the last mode would carry on; the code's claim is not true without that condition |
| LayoutOps.CoalesceExtrapolationDiffers | crates/unpopped-vocab/src/layout_algebra.rs:463-466 | `(2,1):(1,7)` coalesces to `2:1` and reads 2 where the layout reads 7 |
| Composition.ComposeLeaf | crates/unpopped-vocab/src/layout_algebra.rs:624-669 | the walk over the modes of `self` with its running extent and stride gives modes of the extent asked for that read `self` at the multiples of the stride; it succeeds if and only if the divisibility condition holds and the strides it needs fit 64 bits, and says not divisible only of a mode that does not line up and overflow only of one whose strides have no room |
| Composition.WalkExact | crates/unpopped-vocab/src/layout_algebra.rs:624-669 | in closed form, when the walk ends and why not: if and only if every boundary between modes of `self` falls on a step of the stride, and then on a whole turn of the extent or beyond it, and the stride of every mode of `self` the steps reach, times what is left of the given stride there, fits 64 bits |
| Composition.ComposeTreeExact | crates/unpopped-vocab/src/layout_algebra.rs:601-620 | a nested right-hand side composes if and only if each of its modes meets both conditions on its own; the reason of a decline is one of a mode of it |
| Composition.ExpressibleButDeclined | crates/unpopped-vocab/src/layout_algebra.rs:489-492 | `(4,2):(1,4) o 2:3` is declined although `2:3` is the composed function |
| Composition.WalkCorrect | crates/unpopped-vocab/src/layout_algebra.rs:624-669 | a composed mode has the extent asked for and reads `self` at the multiples of its stride |
| Composition.ComposeTreeFlat | crates/unpopped-vocab/src/layout_algebra.rs:601-620 | composing a nested right-hand side is composing its flattened modes, with the nesting kept |
| Composition.ComposeReads | crates/unpopped-vocab/src/layout_algebra.rs:493-497 | what a successful composition reads, whatever the right-hand side: the sum of the images of the digits |
| ComposeSuccess.ComposeExact | crates/unpopped-vocab/src/layout_algebra.rs:493-497 | composition succeeds if and only if every mode of the right-hand side composes with `self`, the levels added by modes that spread over several of `self` stay within sixteen, and the last reads add up to less than 64 bits hold; and which of the three a decline reports |
| Carries.CompositionExact | crates/unpopped-vocab/src/layout_algebra.rs:486-497 | a successful composition C satisfies C(i) = self(rhs(i)) at every index below the size of rhs if and only if adding the contributions of the rhs modes carries out of no mode of `self` |
| Carries.SeparatedComposes | crates/unpopped-vocab/src/layout_algebra.rs:486-497 | for a right-hand side whose smaller modes span less than each larger stride the composition is the composed function, for any nesting and any `self` |
| Carries.SingleModeComposes | crates/unpopped-vocab/src/layout_algebra.rs:486-497 | a right-hand side of one mode needs no hypothesis |
| Carries.CarryCounterexample | crates/unpopped-vocab/src/layout_algebra.rs:486-497 | `(6,2):(1,100) o (3,2):(2,3)` succeeds and reads 7 at index 5 where the composed function reads 101 |
| Complements.Complement | crates/unpopped-vocab/src/layout_algebra.rs:507-538 | the sorted walk succeeds if and only if the cotarget is positive, the modes of extent above 1 step over one another, and reach and result fit 64 bits; then (self, R) is a bijection onto the least multiple of the reach of `self` not below the cotarget, and the strides of R strictly increase |
| Complements.ComplementCompletes | crates/unpopped-vocab/src/layout_algebra.rs:499-538 | the same for the specification function, whatever order the modes of `self` come in: the size of (self, R) is exactly the cotarget rounded up to the reach of `self`, for every cotarget |
| Complements.ComplementExact | crates/unpopped-vocab/src/layout_algebra.rs:504-538 | when `complement` succeeds, as a condition on `self` and the cotarget a caller can look up |
| Complements.ComplementWhy | crates/unpopped-vocab/src/layout_algebra.rs:513-538 | the reason of a decline: no positive cotarget, then a stride of 0, then modes that do not step over one another or a reach or result past 64 bits |
| Complements.CompletableIffNested | crates/unpopped-vocab/src/layout_algebra.rs:504-506 | some list of modes completes `self` if and only if its modes step over one another, whatever their reach |
| Complements.ComplementDeclinesOnlyHopeless | crates/unpopped-vocab/src/layout_algebra.rs:504-506 | if any mode list at all completes `self`, it is declined only where a mode reaches past 64 bits, and then as an overflow |
| Inverses.RightInverse | crates/unpopped-vocab/src/layout_algebra.rs:555-577 | the search with its marks gives a valid, coalesced layout R with self(R(i)) = i below its size; that size is the first offset `self` does not read if and only if the modes of `self` fill to a gap; on a bijection R has the size of `self` and inverts on both sides |
| Inverses.RightInverseInverts | crates/unpopped-vocab/src/layout_algebra.rs:549-577 | self(R(i)) = i at every index below the size of the right inverse |
| Inverses.RightInverseTwoSided | crates/unpopped-vocab/src/layout_algebra.rs:552-554 | for a bijection onto its size the right inverse has that size and inverts on both sides |
| Inverses.RightInverseLargest | crates/unpopped-vocab/src/layout_algebra.rs:549-551 | every offset below the size of R is read by `self`; the next one is not if and only if for some n the modes of stride up to n fill the first n offsets, each starting where the smaller ones end |
| Inverses.NoLargerInverse | crates/unpopped-vocab/src/layout_algebra.rs:549-551 | under that condition no layout at all inverts more of `self` from the right; one direction only |
| Inverses.InjectiveLargest | crates/unpopped-vocab/src/layout_algebra.rs:549-551 | every `self` that reads no offset twice meets the condition |
| Inverses.RightInverseTooSmall | crates/unpopped-vocab/src/layout_algebra.rs:549-551 | without it the documented size is not reached: `(2,4):(1,1)` gives `2:1`, and `4:2` inverts four offsets |
| Inverses.GapNotNecessary | crates/unpopped-vocab/src/layout_algebra.rs:549-551 | `(2,2):(1,1)` does not meet it and has no larger inverse than the `2:1` it gets |
| Inverses.BijectionIffFilled | crates/unpopped-vocab/src/layout_algebra.rs:552-554 | a layout reads an interval onto itself if and only if its modes, by stride, each start where the smaller ones end |
| Inverses.LeftInverse | crates/unpopped-vocab/src/layout_algebra.rs:579-586 | it succeeds if and only if the modes of `self` step over one another, their reach fits 64 bits and `self` is less than sixteen levels deep, and otherwise says what the complement says or that it is too deep; a left inverse L has L(self(i)) = i at every index of `self` and exactly the reach of `self` as its size, which is at least the cosize |
| Inverses.DeepestHasNoLeftInverse | crates/unpopped-vocab/src/layout_algebra.rs:579-586 | `2:1` under sixteen levels is a bijection with a complement and has no left inverse: the documentation names only what the complement declines |
| ComposeSuccess.DivideExact | crates/unpopped-vocab/src/layout_algebra.rs:540-547 | division succeeds if and only if the modes of the tiler step over one another, the tiling fits 64 bits, every mode of the tiler and of its complement composes with `self`, and there is a level and room for the result; a decline is reported as the first of these to fail |
| ComposeSuccess.DividesStrided | crates/unpopped-vocab/src/layout_algebra.rs:540-547 | `8:1` divided by the strided `4:2` is `(4,2):(2,1)` |
| Products.DivideReads | crates/unpopped-vocab/src/layout_algebra.rs:540-547 | a successful division reads `self` through a bijection built from the tiler and its complement, as large as the size of `self` rounded up to the reach of the tiler |
| Products.DivideKeepsSize | crates/unpopped-vocab/src/layout_algebra.rs:540-547 | the result has the size of `self` if and only if the reach of the tiler divides it |
| Products.DivideRearranges | crates/unpopped-vocab/src/layout_algebra.rs:540-547 | then division permutes the offsets of `self` |
| ComposeSuccess.ProductExact | crates/unpopped-vocab/src/layout_algebra.rs:588-598 | a product succeeds if and only if size times cosize fits 64 bits, `self` has a complement up to it, every mode of rhs composes with that complement, and there is a level and room for the pair; a decline is reported as the first of these to fail |
| ComposeSuccess.MultipliesLines | crates/unpopped-vocab/src/layout_algebra.rs:588-598 | `2:1` times `3:1` is `(2,3):(1,2)` |
| Products.ProductStartsWithSelf | crates/unpopped-vocab/src/layout_algebra.rs:588-598 | mode 0 of every product is `self`, whatever the right-hand side |
| Products.ProductInjective | crates/unpopped-vocab/src/layout_algebra.rs:588-598 | where composing the complement with rhs carries nowhere, the copies of a complementable `self` never overlap if and only if rhs reads no offset twice |
| Products.SeparatedProduct | crates/unpopped-vocab/src/layout_algebra.rs:588-598 | a right-hand side whose smaller modes span less than each larger stride carries nowhere |
| Products.ProductOverlaps | crates/unpopped-vocab/src/layout_algebra.rs:588-598 | the documented promise fails without that: `2:60` times the injective `(2,2,3,2):(20,15,12,1)` succeeds, and a later copy reads an offset of `self` |
| Products.CarryNotNecessary | crates/unpopped-vocab/src/layout_algebra.rs:588-598 | carrying does not always overlap: `2:6` times `(3,2):(2,3)` carries and reads no offset twice |
| StructureKeys.ReadEach | crates/unpopped-vocab/src/structure_key.rs:3069-3078 | the operand list is read exactly when every sub-key is, each to its own place |
| KeyCodec.WriteToken | crates/unpopped-vocab/src/structure_key.rs:2779-2885 | appending the fields one after the other, the tenth chosen by the cell class, spells a token that reads back to the key, with dtypes folded, if and only if the key is readable |
| KeyCodec.WriteContraction | crates/unpopped-vocab/src/structure_key.rs:2836-2883 | the group is appended component by component, the optional ones only when present |
| KeyCodec.ReadOrderDigits | crates/unpopped-vocab/src/structure_key.rs:3272-3294 | reading digits with a set of those seen accepts what the order reader accepts: a permutation of the rank, spelled digit for digit by the input |
| KeyCodec.ReadGeometryCursor | crates/unpopped-vocab/src/structure_key.rs:3114-3171 | a cursor over the optional components takes batch, left and right order in that sequence and leaves nothing over |
| KeyCodec.ReadOperandSlots | crates/unpopped-vocab/src/structure_key.rs:3060-3073 | filling the operand slots from the left, with the early refusals, reads the list exactly when every sub-key is readable and there are at most as many as slots |
| KeyTokens.DTypeSpelled | crates/unpopped-vocab/src/structure_key.rs:4165-4215 | every element-type code spells out its kind, its width in bits and, for the small floats, exponent, mantissa and suffix |
| KeyTokens.ReservedAndElements | crates/unpopped-vocab/src/element.rs:1312-1330 | reserved are the eight-bit formats of the `fnuz` kind and of six exponent bits; block elements are the floats of fewer than eight bits |
| KeyTokens.NumberedCodes | crates/unpopped-vocab/src/structure_key.rs:4110-4150 | elementwise classes are spelled with their arity, index widths, vector widths and divisors with their number |
| KeyTokens.WordCodes | crates/unpopped-vocab/src/structure_key.rs:604-655 | the fixed words of the other vocabularies |
| KeyTokens.KnownOperands | crates/unpopped-vocab/kiss/structure_key_vectors.json:185-188 | operand sub-keys spelled out: broadcast masks in two digits, a reversed and a dequantized operand |
| KeyTokens.KnownReduction | crates/unpopped-vocab/kiss/structure_key_vectors.json:228 | the published token of a reduction over axes 1 and 3 of four |
| KeyTokens.KnownContraction | crates/unpopped-vocab/src/structure_key.rs:3386-3393 | a batched contraction with both operands reordered spells `tll/d16/bt/ol021/or102/f32/f32/f32/rm` |
| KeyTokens.OperandCeiling | crates/unpopped-vocab/src/structure_key.rs:3060-3073 | an operand list is read if and only if it has at most eight sub-keys and each of them is readable |
| KeyRoundTrip.OperandRoundTrip | crates/unpopped-vocab/src/structure_key.rs:4038-4086 | a printed operand sub-key reads back to itself |
| KeyRoundTrip.ReduceRoundTrip | crates/unpopped-vocab/src/structure_key.rs:4289-4390 | a set of axes the frame has reads back from its spelling, and one naming a missing axis is declined |
| KeyRoundTrip.OrderRoundTrip | crates/unpopped-vocab/src/structure_key.rs:3256-3294 | a spelled permutation reads back at its own rank and is refused at any other |
| KeyRoundTrip.ContractionRoundTrip | crates/unpopped-vocab/src/structure_key.rs:3093-3196 | a printed contraction group reads back, folded, if and only if its orders fit the cell's rank, no dtype is reserved and the accumulator is no MX element |
| KeyRoundTrip.TokenRoundTrip | crates/unpopped-vocab/src/structure_key.rs:3014-3219 | for every key the constructors can build, the printed token is read if and only if a condition on the key's own fields holds, and then to the key with dtypes folded and identity orders at the cell's rank |
| KeyRoundTrip.TokensIdentify | crates/unpopped-vocab/src/structure_key.rs:2764-2778 | two readable keys print the same token if and only if they denote the same key |
| KeyRoundTrip.ReprintsIdentically | crates/unpopped-vocab/src/structure_key.rs:2764-2769 | reading a printed token and printing it again gives the same token |
| KeyRoundTrip.ComplexAccumulatorRefused | crates/unpopped-vocab/src/structure_key.rs:3082-3084 | a reduction accumulating in `c64` prints a token the reader refuses, because its tenth field starts like a contraction's |
| KeyReading.AcceptedIsNormal | crates/unpopped-vocab/src/structure_key.rs:3014-3219 | whatever the strict reader accepts is a readable key in normal form, and its printed token reads back to it |
| KeySpelling.PrintsBack | crates/unpopped-vocab/src/structure_key.rs:4316-4340 | an accepted token prints back byte for byte if and only if its numbers have no sign, leading zero or capital, no identity order is spelled out and `rlast` is not used at rank 1 |
| KeySpelling.LooseSpellings | crates/unpopped-vocab/src/structure_key.rs:4316-4340 | what is let through beside the printed spelling: a sign, leading zeros, capital hex digits, an identity order spelled out |
| KeySpelling.LastOfOneAxis | crates/unpopped-vocab/src/structure_key.rs:4283-4288 | at rank 1 the reader takes `rlast` for the set whose one spelling is `rall` |
| KeySpelling.NumbersRead | crates/unpopped-vocab/src/structure_key.rs:4227-4237 | a version is read up to 65535 and a rank up to 255, whatever is made of it after |
| KeyVerdicts.ReadersAgree | crates/unpopped-vocab/src/structure_key.rs:2908-3008 | the typed and the strict reader accept the same tokens and read the same keys, for every token and whatever a shift by a rank past the width gives |
| KeyVerdicts.ShiftOnlyInTheReason | crates/unpopped-vocab/src/structure_key.rs:2908-3008 | the result of that shift can only show past the rank ceiling, in the reason of a token both readers decline |
| KeyVerdicts.ReservedIsSaid | crates/unpopped-vocab/src/structure_key.rs:2925-2936 | a token of this schema with a reserved dtype as a whole atom is declined as reserved, whatever else is wrong with it, its rank included, and the strict reader refuses it |
| KeyVerdicts.ReasonIsTrue | crates/unpopped-vocab/src/structure_key.rs:2908-3008 | whatever reason the typed reader gives is true of the token, at any rank within the ceiling: the field it names is the one at fault |
| Targets.Validate | crates/unpopped-vocab/src/target.rs:298-320 | the scan accepts exactly the well-formed target tokens |
| Targets.VerdictIsGrammar | crates/unpopped-vocab/src/target.rs:227-238 | a token passes if and only if it is two non-empty parts around its one colon, of allowed bytes; namespace and capability set put it together again |
| Targets.AllowedBytes | crates/unpopped-vocab/src/target.rs:300-308 | a token may hold the printable bytes of ASCII but for `|`, `;` and `/` |
| Targets.VerdictReason | crates/unpopped-vocab/src/target.rs:296-320 | which violation is reported: the first forbidden byte with its place, then the number of colons, then an empty namespace, then an empty capability set |
| Targets.InternTable.Parse | crates/unpopped-vocab/src/target.rs:180-214 | the same token always gets the same id, ids fit 16 bits and are never reassigned, and a refusal changes nothing; refused are ill-formed tokens and new ones past 65536 entries |
| Targets.InternTable.AsStr | crates/unpopped-vocab/src/target.rs:217-223 | the token of an id is the one that was interned under it, and it is well formed |
| Interning.EveryRun | crates/unpopped-vocab/src/target.rs:188-214 | however many threads interleave their scans and rechecked writes, the table stays free of duplicates and only grows |
| Interning.IdsAreTokens | crates/unpopped-vocab/src/target.rs:175-187 | an id names its token forever, and any two answers, by any threads at any times, are equal if and only if their tokens are |
| Interning.Progress | crates/unpopped-vocab/src/target.rs:188-214 | no interleaving deadlocks |
| Interning.ReadersShare | crates/unpopped-vocab/src/target.rs:188-199 | any number of threads may scan at once; a scan waits only while some thread holds the write lock |
| Interning.FullIsFull | crates/unpopped-vocab/src/target.rs:125-133 | the table is declared full at 65536 entries, one past the documented 65535, and only for a token it does not hold |
| Classify.ClassifyMatLayout | crates/unpopped-vocab/src/structure_key.rs:1676-1714 | an order is given exactly when the walk finds the stored axes packed, and it says where each axis stands in storage |
| Classify.OrderMeansPacked | crates/unpopped-vocab/src/structure_key.rs:1655-1671 | an order means the coordinates of the non-broadcast axes are mapped, by absolute stride, one to one onto the product of their extents |
| Classify.OrderIffPacked | crates/unpopped-vocab/src/structure_key.rs:1655-1671 | an order is given if and only if the stored axes are a bijection onto their product and every stored axis of extent 1 has the stride of its place |
| Classify.UnitAxisDeclines | crates/unpopped-vocab/src/structure_key.rs:1697-1705 | an axis of extent 1 is held to a stride no index uses: `[1,4]` with strides `[1,1]` is declined, `[4,1]` is not |
| Classify.IdentityIffDescending | crates/unpopped-vocab/src/structure_key.rs:1672-1675 | the storage order is the identity if and only if the strides never grow from one axis to the next |
| Classify.ClassifyContiguity | crates/unpopped-vocab/src/structure_key.rs:2317-2345 | broadcast exactly when some axis of more than one index has stride 0, contiguous exactly when it is not broadcast and the row strides match, inner-contiguous exactly when it is neither and the last axis of more than one index has stride 1, forwards or backwards |
| Classify.ContigIffRowMajor | crates/unpopped-vocab/src/structure_key.rs:77-92 | the row strides match if and only if every coordinate lands, by absolute stride, on its place in row-major order |
| Classify.MaxTouchedOffset | crates/unpopped-vocab/src/structure_key.rs:2408-2418 | the saturating loop computes the exact spread, cut off at the largest 64-bit number |
| Classify.IndexWidth | crates/unpopped-vocab/src/structure_key.rs:1561-1572 | 32-bit offsets are chosen exactly when every keyed operand's elements span less than 2^31 |
| Classify.SpreadIsExact | crates/unpopped-vocab/src/structure_key.rs:2408-2409 | the spread bounds every element's offset and is attained between two corners |
| BatchRoles.DeriveBatchClass | crates/unpopped-vocab/src/structure_key.rs:813-837 | the loop gives the first refusal, or the class of the whole batch extent, which saturation never changes |
| BatchRoles.SlotsLoseNothing | crates/unpopped-vocab/src/structure_key.rs:697-770 | the sixteen stored slots give the same class or the same refusal as the caller's list, however long it is, on every frame of at most eight axes |
| BatchRoles.ClassIffAcceptable | crates/unpopped-vocab/src/structure_key.rs:804-811 | a class is given if and only if the axes are in range, in the output, of positive extent, apart from M, N and K, and none repeats |
| BatchRoles.ClassByVolume | crates/unpopped-vocab/src/structure_key.rs:208-217 | the class is the product of the batch extents held against 8, 128 and 2048 |
| BatchRoles.FirstWrong | crates/unpopped-vocab/src/structure_key.rs:813-837 | the refusal names what is wrong with the first entry anything is wrong with, range before repetition before role before output before extent |
| BatchRoles.ClassIgnoresOrder | crates/unpopped-vocab/src/structure_key.rs:804-811 | the class does not depend on the order the axes are listed in |
| ThreadLoop.EmitPhases | crates/unpopped-cpu-c/src/launch.rs:413-441 | the loop with its pending run computes the phases, and refuses admitted statements exactly when a jump leaves a thread loop |
| ThreadLoop.SpelledUnlessLoose | crates/unpopped-cpu-c/src/launch.rs:27-30 | admitted statements have phases if and only if no `Break` or `Continue` leaves a loop that holds a barrier, at any nesting |
| Admission.AdmittedExactly | crates/unpopped-cpu-c/src/launch.rs:173-195 | statements are admitted if and only if, at any depth, there is no device barrier, no `While` around a barrier and no `Return` beside one |
| Admission.BarrierWithin | crates/unpopped-cpu-c/src/launch.rs:149-171 | a block holds a barrier if and only if one stands in it at some depth |
| Admission.LaunchAdmitted | crates/unpopped-cpu-c/src/launch.rs:86-109 | a launch is admitted if and only if its block has 1 to 1024 threads, a grid cut by device barriers has at most 65536, and everything between those barriers is allowed |
| ThreadMeaning.EmittedCounters | crates/unpopped-cpu-c/src/launch.rs:489-521 | an emitted loop makes a pass for each of the counters s + j*st before e, in order, for either sign of the step, and no other |
| ThreadMeaning.CountersExact | crates/unpopped-cpu-c/src/launch.rs:507-511 | those counters are, in closed form, the whole steps from the start that have not come to the end |
| ThreadMeaning.CountsUp | crates/unpopped-cpu-c/src/launch.rs:507-511 | from 0 to 4 by 1 the emitted loop runs its body four times |
| ThreadMeaning.CountsDown | crates/unpopped-cpu-c/src/launch.rs:507-511 | from 5 down to 0 by 2 it runs three times |
| ThreadMeaning.BlockIfRuns | crates/unpopped-cpu-c/src/launch.rs:464-487 | where the threads of a block agree on a condition the emitted `If` runs the branch it chooses |
| ThreadMeaning.BlockForRuns | crates/unpopped-cpu-c/src/launch.rs:489-521 | where they agree on the bounds the emitted `For` passes over the counters, and a step of zero is status 2 |
| ThreadMeaning.RunIsMeaning | crates/unpopped-cpu-c/src/kernel.rs:183-242 | a thread that steps through its code frame by frame, to an end or a fault, comes to what the code means as it is written: statements in order, `If` on a non-zero condition, counted and conditional loops, `Break` and `Continue` of the innermost loop, `Return`, loads, stores and atomics with their bounds |
| ThreadMeaning.MeaningRuns | crates/unpopped-cpu-c/src/kernel.rs:183-242 | and whatever the code means is what some number of steps comes to |
| ThreadMachine.SchedulesAgree | crates/unpopped-cpu-c/src/launch.rs:44-48 | every schedule of a race-free kernel can be carried on to the one end, in as many steps, and one that cannot go on is there |
| ThreadLoopRefines.LoopSim | crates/unpopped-cpu-c/src/launch.rs:443-461 | a loop that runs one thread after the other is a schedule of the machine |
| ThreadLoopRefines.PhasesSim | crates/unpopped-cpu-c/src/launch.rs:411-441 | the emitted phases of a block are a schedule: where they end, all its threads stand behind the statements with those locals and that memory |
| DevicePhases.DeviceSegments | crates/unpopped-cpu-c/src/launch.rs:114-131 | the loop that remembers where the open segment starts cuts the body into segments without a device barrier that glue back to it |
| DevicePhases.GlueSegments | crates/unpopped-cpu-c/src/launch.rs:111-131 | the segments glued back together at device barriers are the body, and none holds one at its top level |
| DevicePhases.SegmentsGlue | crates/unpopped-cpu-c/src/launch.rs:111-131 | every list of uncut segments is the cut of what it glues to |
| DevicePhases.LowerKernel | crates/unpopped-cpu-c/src/launch.rs:301-322 | the emitted grid phases are the phases of the segments; an admitted kernel is refused exactly when a jump leaves a thread loop |
| DevicePhases.EmittedIsInterleaving | crates/unpopped-cpu-c/src/launch.rs:262-322 | for every launched kernel that is admitted and spelled, the end of the emitted program is the end of some schedule, with the same locals and memory, and an error status it returns is one some schedule meets |
| DevicePhases.EmittedIsTheOutcome | crates/unpopped-cpu-c/src/launch.rs:42-48 | for a kernel without races the emitted result is what every schedule comes to |
| EmittedEnds.EmittedEnds | crates/unpopped-cpu-c/src/launch.rs:262-322 | if some schedule of a race-free kernel ends after n steps, the emitted program ends within n rounds of its loops and in the same state, unless threads of one block disagree on a block-level condition |
| DevicePhases.RacingSchedulesDiffer | crates/unpopped-cpu-c/src/launch.rs:42-48 | without that hypothesis it is not: two threads writing one element leave 1 in the emitted order and 0 in another |
| ThreadOrder.OrderKept | crates/unpopped-cpu-c/src/launch.rs:44-48 | if no barrier-free statements of a body follow others without a rendezvous between them, every run of the emitted code takes each thread to the next barrier before the next thread starts |
| ThreadOrder.OrderIffKept | crates/unpopped-cpu-c/src/launch.rs:44-48 | with two threads or more, all control paths of the emitted code are in that order if and only if the body meets that condition |
| ThreadOrder.NotToNextBarrier | crates/unpopped-cpu-c/src/launch.rs:44-48 | the documented order fails for a statement followed by a block-level `If` that holds another and a barrier: thread 1 runs the first before thread 0 runs the second |
| LaunchIds.IdsOfThread | crates/unpopped-cpu-c/src/launch.rs:235-246 | the coordinates of a thread are in the block, and the linear id made of them is the thread's |
| LaunchIds.ThreadOfIds | crates/unpopped-cpu-c/src/launch.rs:358-361 | coordinates inside the grid have a linear id inside it, from which they are read back |
| LaunchIds.NeighbourIds | crates/unpopped-cpu-c/src/launch.rs:346-361 | the linear id runs through x fastest, then y, then z |
| LaunchIds.SlotsPartition | crates/unpopped-cpu-c/src/launch.rs:324-390 | the slices of the grid's arrays are disjoint and cover them |
| LaunchIds.SlotInside | crates/unpopped-cpu-c/src/launch.rs:324-390 | every element of a block's slice is inside the grid array |
| LaunchIds.BlockLoops | crates/unpopped-cpu-c/src/launch.rs:346-352 | the three nested loops visit every block once, in ascending linear order |
| CallGraph.CollectCalls | crates/unpopped-cpu-c/src/module.rs:121-141 | the calls of a body and the references of the externs it calls are pushed in order, at any nesting: what is in the list afterwards was there or is mentioned by the body |
| CallGraph.CollectedMentions | crates/unpopped-cpu-c/src/module.rs:121-141 | a function is collected if and only if the body calls it or an extern it stands for, at some nesting |
| CallGraph.Postorder | crates/unpopped-cpu-c/src/module.rs:103-119 | exactly the functions the entry reaches are listed, each once, the entry last, and every callee stands before its caller unless the call closes a cycle |
| CallGraph.CalleesFirstIffAcyclic | crates/unpopped-cpu-c/src/module.rs:103 | every callee stands before its callers if and only if nothing the entry reaches is on a cycle |
| CallGraph.ClosedReferencesAcyclic | crates/unpopped/src/kernel_module.rs:23-50 | a module that passes the check, and whose references reach no extern call, has no cycle |
| CallGraph.ReferenceCycle | crates/unpopped/src/kernel_module.rs:78-101 | the check alone does not rule cycles out: it passes a module whose extern reference calls back the function that calls the extern |
| ShapeExprs.FloorDivIsFloor | crates/unpopped-vocab/src/shape_expr.rs:189-190 | the quotient leaves a remainder smaller than the divisor and on its side of zero, for both signs |
| ShapeExprs.FloorDivFits | crates/unpopped-vocab/src/shape_expr.rs:181-188 | the quotient of two 64-bit numbers fits 64 bits except for the one pair that is declined |
| ShapeValues.EvaluatesToValue | crates/unpopped-vocab/src/shape_expr.rs:145-195 | an expression whose exact value, and that of every part of it, fits 64 bits evaluates to it, quotients rounded toward minus infinity |
| ShapeValues.OperatorValue | crates/unpopped-vocab/src/shape_expr.rs:175-195 | what an operator makes of two values: the exact sum, difference or product or the end of the range it is past, the floor quotient, and the two declines of a division |
| ShapeValues.DeclinedWhenRefused | crates/unpopped-vocab/src/shape_expr.rs:105-195 | an expression is declined for a reason if and only if that is the first its operands, read left to right, run into |
| ShapeValues.GapWhenSymbolic | crates/unpopped-vocab/src/shape_expr.rs:136-138 | what is not declined is a gap if and only if it reads a symbolic extent |
| ShapeExprs.EvalMonotone | crates/unpopped-vocab/src/shape_expr.rs:132-144 | filling symbolic extents in never changes a value and never lifts a decline |
| ShapeExprs.NoGapWhenKnown | crates/unpopped-vocab/src/shape_expr.rs:136-138 | with every extent known there is a value or a decline, never a gap |
| ShapeExprs.DeclineReasonChanges | crates/unpopped-vocab/src/shape_expr.rs:170-173 | the reason of a decline can change when an extent becomes known |
| ShapeExprs.PushDim | crates/unpopped-vocab/src/shape_expr.rs:276-314 | the recursive pushes into the buffer append the encoding |
| ShapeExprs.EncodeDim | crates/unpopped-vocab/src/shape_expr.rs:270-274 | the pushes into an empty buffer give a blob that decodes to the normalised expression if every child fits its prefix, and is declined as truncated otherwise |
| ShapeValues.LeafBytes | crates/unpopped-vocab/src/shape_expr.rs:560-582 | the bytes of an extent with the last axis as 0xFF, of constants lowest byte first and in two's complement, and of a parameter |
| ShapeValues.OperatorBytes | crates/unpopped-vocab/src/shape_expr.rs:582-595 | the bytes of each operator: its tag, and its children behind two-byte lengths |
| ShapeValues.TagDeclines | crates/unpopped-vocab/src/shape_expr.rs:376-380 | which first bytes are reserved and which unknown |
| ShapeExprs.CutIsTruncated | crates/unpopped-vocab/src/shape_expr.rs:337-405 | an encoding cut short anywhere is declined as truncated, never read as something else |
| ShapeExprs.DecodeEncode | crates/unpopped-vocab/src/shape_expr.rs:264-335 | decoding an encoding gives the expression back, the index 255 as the trailing axis, if and only if every child's length fits its prefix; otherwise it is declined as truncated |
| ShapeExprs.EncodeDecode | crates/unpopped-vocab/src/shape_expr.rs:325-405 | every accepted blob is the encoding of what it decodes to |
| MatrixMultiply.Gather | crates/unpopped-cpu-c/src/mma.rs:128-150 | through an id table that covers the matrix the fragments of a subgroup fill it, lane for lane |
| MatrixMultiply.ExpandSparse | crates/unpopped-cpu-c/src/mma.rs:152-171 | the zeroed matrix ends with the two kept values of every group of every row where the metadata puts them |
| MatrixLaws.ExpandedPlace | crates/unpopped-cpu-c/src/mma.rs:152-171 | element r + m*(4q + o) of the expanded operand is the second kept value where the high half of the nibble names o, the first where the low half does, and zero elsewhere |
| MatrixMultiply.SparseSum | crates/unpopped-cpu-c/src/mma.rs:152-171 | for metadata in ascending order the dense sum of an element is the compressed one, term for term |
| MatrixMultiply.Multiply | crates/unpopped-cpu-c/src/mma.rs:173-200 | every element is its C and the scaled products in ascending k |
| MatrixLaws.PlainElement | crates/unpopped-cpu-c/src/mma.rs:173-200 | without scales element row + m*col is its C and the terms a[row + m*i] * b[i + k*col], added in ascending i |
| MatrixLaws.ScaledIsPrescaled | crates/unpopped-cpu-c/src/mma.rs:186-192 | a block-scaled product is the plain product of operands scaled beforehand, element (r, i) of A by sa[r + m*(i/block)] and (i, c) of B by sb[i/block + (k/block)*c] |
| MatrixLaws.ScaledElement | crates/unpopped-cpu-c/src/mma.rs:186-192 | element row + m*col of a scaled product is its C and the terms of the scaled operands, in ascending i |
| MatrixLaws.ScalesCount | crates/unpopped-cpu-c/src/mma.rs:186-192 | three times five with scales 2 and 1 is thirty |
| MatrixMultiply.Mma | crates/unpopped-cpu-c/src/mma.rs:50-126 | every lane of every subgroup ends with its fragment of that subgroup's A.B + C, computed from the fragments as they stood before, also where D is stored over an input |
| MatrixLaws.LaneElement | crates/unpopped-cpu-c/src/mma.rs:107-150 | for a dense unscaled atom, from the fragments alone: the slot of D whose id is row + m*col ends with the narrowed sum, from its own C, of the widened products of any slots that hold the row of A and the column of B |
| Dispatch.NormalizedLastWriter | crates/unpopped-vocab/src/dispatch.rs:511-524 | normalizing leaves one row a token in strict order, the last written of each |
| Dispatch.TableUnique | crates/unpopped-vocab/src/dispatch.rs:485-492 | two strictly sorted tables that answer alike are the same table |
| Dispatch.LessIsLexicographic | crates/unpopped-vocab/src/dispatch.rs:514-524 | rows are ordered by token, byte by byte, a beginning before what it begins |
| Dispatch.DispatchTable.Normalize | crates/unpopped-vocab/src/dispatch.rs:514-524 | reversing, sorting stably and dropping repeats keeps the last writer |
| Dispatch.DispatchTable.FromEntries | crates/unpopped-vocab/src/dispatch.rs:502-509 | a table built from rows answers every token with the last of them, and has one row a token in order |
| Dispatch.DispatchTable.Merge | crates/unpopped-vocab/src/dispatch.rs:566-628 | each cell of the merged table is what the feed, in order, makes of it, the table is sorted and unique again, and a table built by earlier feeds is now built by those and this one |
| Dispatch.DispatchTable.Lookup | crates/unpopped-vocab/src/dispatch.rs:526-533 | the row found is the first of the key's token |
| Dispatch.FeedsOnlyAdvance | crates/unpopped-vocab/src/dispatch.rs:537-553 | over any feed a filled cell stays filled, an observed row never goes back to a seed, and capture times of observed rows never decrease |
| Dispatch.FirstRowFills | crates/unpopped-vocab/src/dispatch.rs:566-588 | an empty cell takes the first row of finite margin that is a seed, a measurement or a report from its own target |
| Dispatch.RowTakesOver | crates/unpopped-vocab/src/dispatch.rs:590-624 | a filled cell takes a row if and only if it is observed, the cell is a seed or older, and the route stays or the margin is at least 1.10 |
| Dispatch.LatestClearWinner | crates/unpopped-vocab/src/dispatch.rs:536-553 | an observation of margin at least 1.10 captured after all others of its token is what the feed leaves, whatever comes before or after it |
| Dispatch.RoutesAreSticky | crates/unpopped-vocab/src/dispatch.rs:592-620 | without a row at or above the noise floor the implementor stays, and so does the entry point once there is one |
| Dispatch.RowsComeFrom | crates/unpopped-vocab/src/dispatch.rs:566-588 | every row of the result was there or came in with a finite margin and, if reported, from its own target |
| Dispatch.MergesCompose | crates/unpopped-vocab/src/dispatch.rs:536-566 | merging a feed in two parts gives the same table as merging it whole |
| Dispatch.ReportedStaysHome | crates/unpopped-vocab/src/dispatch.rs:552-554 | in a table that any feeds built from the empty one, a reported row that a key finds was observed on the key's own target |
| Ranking.WinnerOf | crates/unpopped-vocab/src/dispatch.rs:325-372 | the row carries every sound candidate in order, the first as winner, and the ratio of the first two as a margin of at least 1; there is none exactly when no candidate is sound |
| Ranking.RankedMembers | crates/unpopped-vocab/src/dispatch.rs:325-372 | ranked are the candidates with a finite time above zero, each as often as it comes |
| Ranking.FastestFirst | crates/unpopped-vocab/src/dispatch.rs:308-316 | no sound candidate is faster than the first of the ranking |
| Ranking.RankedBy | crates/unpopped-vocab/src/dispatch.rs:308-316 | of two ranked candidates the one before is faster, or at equal times has the code first in byte order, or at equal codes no entry point or an earlier one |
| Ranking.CodeOrder | crates/unpopped-vocab/src/dispatch.rs:308-316 | at equal times the order is bespoke, cublas, cudnn, cutlass, gen |
| Ranking.RankingIgnoresOrder | crates/unpopped-vocab/src/dispatch.rs:283-306 | permuting the candidates changes nothing |
| Collectives.Collective | crates/unpopped-cpu-c/src/collective.rs:59-80 | after the groups have run one after another every thread holds what the contributions of its own group give it |
| Collectives.GroupsPartition | crates/unpopped-cpu-c/src/collective.rs:59-68 | every thread is in exactly one group, the one that starts at the last multiple of the group size |
| Collectives.ReduceGroup | crates/unpopped-cpu-c/src/collective.rs:122-133 | every lane of the group gets the left fold of its contributions, and no other lane changes |
| Collectives.FoldOfThree | crates/unpopped-cpu-c/src/collective.rs:122-133 | the fold takes the lanes from the left |
| Collectives.ScanGroup | crates/unpopped-cpu-c/src/collective.rs:135-155 | lane by lane the prefix fold, with the lane's own value or, after an identity, without it |
| Collectives.LastOfScan | crates/unpopped-cpu-c/src/collective.rs:135-155 | the last lane of an inclusive scan holds the reduction |
| Collectives.ShuffleGroup | crates/unpopped-cpu-c/src/collective.rs:158-179 | each lane gets the contribution of the lane its operand names |
| Collectives.ShiftReads | crates/unpopped-cpu-c/src/collective.rs:158-167 | `Up` by d brings the value of lane - d and `Down` that of lane + d, and where there is no such lane the own value stays |
| Collectives.ShiftsUndo | crates/unpopped-cpu-c/src/collective.rs:158-167 | shifting up undoes shifting down by the same operand on every lane not pushed out |
| Collectives.VoteGroup | crates/unpopped-cpu-c/src/collective.rs:181-199 | every lane gets all, any or the mask of the group's votes |
| Collectives.SourceInGroup | crates/unpopped-cpu-c/src/collective.rs:161-173 | the lane read is in the group for every operand, and an index wraps modulo the group for both signs |
| Collectives.XorExchanges | crates/unpopped-cpu-c/src/collective.rs:168-170 | an exchange by one common operand is its own inverse |
| Collectives.XorBit | crates/unpopped-cpu-c/src/collective.rs:168-170 | the partner of an exchange differs from the lane in just the bits of the operand |
| Collectives.ExclusiveIsPrefix | crates/unpopped-cpu-c/src/collective.rs:144-149 | an exclusive scan is, at every lane, the fold of the identity and the lanes before it |
| Collectives.BallotBit | crates/unpopped-cpu-c/src/collective.rs:190-194 | bit i of a ballot is the vote of lane i, and there are no bits past the lanes |
| Collectives.VotesFromBallot | crates/unpopped-cpu-c/src/collective.rs:181-199 | `All` holds exactly when the ballot has every bit, `Any` when it has one |
| Collectives.SumWrapsOnce | crates/unpopped-cpu-c/src/collective.rs:228-230 | a sum wrapped at every step is the exact sum wrapped once |
| Collectives.ExtremeOfFloats | crates/unpopped-cpu-c/src/collective.rs:215-226 | a floating-point Max or Min is a NaN if and only if some contribution is, and otherwise the extreme one of them |

## Left out

- ThreadLoop.EmitPhases: emitted code is a tree of statements, not C text; names, indentation and type spellings are not modelled.
- ThreadLoopRefines.PhasesSim: barrier-free statements are transformers of a thread's own locals and single accesses to memory, so calls and asynchronous copies inside a thread loop are not; local values are integers without a width, so the cast that copies a loop counter into a narrower local is not modelled.
- DevicePhases.EmittedIsInterleaving: that block-level conditions and bounds agree across a block is what the kernel checker proves; a run where they do not has no claim.
- DevicePhases.EmittedIsTheOutcome: freedom from races is over the states schedules reach and counts two atomics on one element as a race, since their order shows in the values they return.
- MatrixMultiply.Mma: the atom tables are not listed; that they cover their matrices, and that lanes sharing an element of a broadcast operand agree, are hypotheses. Metadata and scales are read-only sequences, so storing D over them is not modelled. Widening, narrowing, addition and multiplication are arbitrary functions.
- MatrixMultiply.SparseSum: a zero factor has to add nothing, which in floating point fails against an infinity or a NaN in B.
- Collectives.ExtremeOfFloats: infinities and signed zeros are not told apart from other numbers.
- Collectives.BallotBit: a ballot over more than 32 lanes is outside what the program claims, and so outside the mask modelled as an unbounded number.
- Ranking.WinnerOf: times and margins are rationals or not finite; rounding of the quotient is not modelled.
- Dispatch.DispatchTable.Merge: assumes the table has one row a token, the invariant its type documents; a table built by hand with repeats is only normalized.
- KeyRoundTrip.TokenRoundTrip: a target stands as its text; interning is modelled apart, and a full intern table as a reason to decline a token is not.
- Targets.InternTable.Parse: the method is one thread's view; any number of threads is the state machine of `Interning`.
- Classify.OrderMeansPacked: positive extents whose product fits 64 bits are assumed; past that the running product saturates.
- CallGraph.ClosedReferencesAcyclic: of the module check only what bears on cycles is modelled.
- The other key fields (vector width, divisibility, work class, frame and broadcast masks, cell class) are direct case distinctions with little to prove.
- `reported_entry` and `seed_winner` of the dispatch table, `slice` and `swizzle` of the layout algebra, capability lookup tables, packing of element codes, artifact and link files.
- The generated prelude, function signatures and buffer bounds checks of the C backend beyond the status they return.
- Poisoned locks, hashing and display.
