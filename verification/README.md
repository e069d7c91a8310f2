# Legate: models and proofs

Dafny models of the parts of Legate that hold logic of their own, and proofs of what they promise.
`dafny verify dfyconfig.toml` checks everything.

**Half precision** (`Powers`, `BitOps`, `Rounding`, `Ieee`, `HalfConvert`, `DoubleRounding`, `HalfArith`,
`HalfOrder`, `HalfOperators`, `HalfWide`, `HalfReduce`). `Rounding.Rne` is roundTiesToEven of IEEE 754-2019
(section 4.3.1) for any format, characterised as the nearest encoding and the only one that is; `Ieee` gives the
two formats, their data and the exact operations on reals, and is the definition of the hardware float
operations as well as the specification of `Half`. The two conversions are modelled step by step on bit
patterns, shifts, masks and the normalisation loop included, and proved equal to that specification. The main
result is that an operation done in binary32 and rounded back to binary16 gives the exact sum, difference,
product or quotient of what the operands are read as, rounded *once*, for all operands; `HalfOperators` says
what that is in real numbers and bits; `DoubleRounding` says exactly when rounding twice differs and why no half
operands get there. What the code does not do is stated as well: from a `double` the answer is not always the
nearest (exact condition and a concrete input), -0 is read as +0, so that dividing by it gives the wrong
infinity (`DivideZeros` and its neighbours say exactly which results differ from those of the encodings), `==`
compares bit patterns while `<=` and `>=` do not, so it disagrees with them exactly on NaNs and on the two
zeros, and a NaN in a min reduction makes it forget what came before: for any contributions and any grouping,
the reductions are right exactly when what they keep covers what they do not.

**Scopes** (`Machines`, `ScopeModel`, `ScopeClass`, `ScopeCell`, `ScopeRuns`, `ScopeNesting`). The classes
follow `Scope`, `Scope::Impl` and the runtime's scope; each method is proved against a function on the saved
fields and the six global parameters. Runs interleave construction, moves, sets and destruction of any number of
scopes. The class documentation says that parameters are in effect for the lifetime of the object; the code
keeps that only when, for each parameter, scopes end in the reverse order of their sets. `RunExact` proves that
condition necessary as well as sufficient for parameters to be in effect throughout a run (with distinct
values), `Restoration` proves it sufficient for the initial values to come back, `RestorationExact` says for
runs in any order exactly when they do, and `NestedLifetimesLeak` gives two properly nested scopes after which
the priority is not what it was.

**Version bounds** (`Decimals`, `Versions`, `Constraints`, `ConfigLines`, `Rereading`, `ConfigFile`,
`ConfigTwice`, `TextLines`, `ConfigText`, `ConfigAgain`, `KeyMarkers`, `ConfigChanges`, `ConstraintText`,
`LineText`, `ConfigEffects`). The updater of conda upper bounds on concrete text: parsing and printing versions,
finding bounds, replacing the last one, list items, markers, blocks, and the text of the file, cut into lines
and joined as the code does. The new bound is the least version of its precision that admits the new release.
`ConstraintText`, `LineText` and `ConfigEffects` say of the characters and lines what is found, what is written
and what is refused. `CalmExactly` says for every text when an update leaves it alone. From it follows when a
second run does: exactly when a value given by a marker or a data file lasts, which `Rereading.Lasting` decides
from the value, the quote and the version, and every list item in the block ends at a newline or at the end of
the file. The first fails for a value with a quote that a comment seems to follow and the bound after it
(`UpdateNotTwice`); the second for an item line that ends at a form feed or another separator, to which every
run adds a blank line (`FormFeedGrows`).

**Task submission** (`TaskModel`, `TaskClass`, `TaskRuns`, `TaskHistory`). Descriptors shared by copies of a
handle, user references counted per storage, and the stream of operations, where losing the last user reference
of a storage queues its discard. Over all programs that create, copy, share, use, submit and drop handles and
stores, no queued task comes after the discard of a storage it uses, none is queued twice, and a storage is
discarded, once, exactly when the last reference to it is gone. Each queued task has exactly the storages that
the program gave it, which `TaskHistory` reads off the events. `ClearingFirst` says for which tasks clearing the
references before submitting would have been wrong.

**Symbolic expressions** (`Projections`) print to equal strings exactly when they are equal as functions, unless
a weight other than zero stands on the dimension that means "no dimension", as in a default-constructed
expression.

**Scoped allocator** (`AllocatorModel`, `AllocatorClass`): alignment of what is returned, which addresses are
live, and every buffer destroyed once.

Cited lines are those of the code that a member models. Functions that only compute have no row; the row is that
of the lemma or method about them.

## Model

| member | source | states |
|---|---|---|
| Rounding.RneNearest | src/cpp/legate/type/half.cc:49-52 | rounding picks the nearest encoding, the even one of two as near, and no other encoding is that |
| Rounding.RneMono | src/cpp/legate/type/half.cc:21-57 | rounding never reverses order, in any format |
| Rounding.RneExact | src/cpp/legate/type/half.cc:21-57 | rounding leaves the numbers of a format alone |
| HalfConvert.FloatFields | src/cpp/legate/type/half.cc:26-40 | what the masks and shifts of the narrowing conversion pick out of a word |
| HalfConvert.NarrowTiny | src/cpp/legate/type/half.cc:34 | below 2^-25 zero is the nearest half, so flushing is right |
| HalfConvert.NarrowHuge | src/cpp/legate/type/half.cc:37-38 | from 2^16 on rounding reaches infinity, so the branch is right |
| HalfConvert.SubnormalBits | src/cpp/legate/type/half.cc:41-52 | the denormal branch, increment included, gives the rounded encoding behind the sign |
| HalfConvert.NormalBits | src/cpp/legate/type/half.cc:44-52 | the normal branch gives the rounded encoding, with the carry into the exponent and into infinity |
| HalfConvert.ConvertFloatToHalfint | src/cpp/legate/type/half.cc:21-57 | for every float pattern the result encodes its value rounded to nearest even; infinities kept, NaNs canonical |
| HalfConvert.NormalizeStep | src/cpp/legate/type/half.cc:74-77 | the loop test, and that a turn doubles the mantissa without overflow, at most ten times |
| HalfConvert.SubnormalMag | src/cpp/legate/type/half.cc:71-79 | shifting the mantissa while lowering the exponent, which stays in 103..113, keeps the value |
| HalfConvert.ConvertHalfintToFloat | src/cpp/legate/type/half.cc:59-96 | the float has exactly the half's value and is its only encoding; -0 becomes +0, NaNs one NaN |
| HalfConvert.EncodeDecode | src/cpp/legate/type/half.cc:21-96 | encoding undoes decoding for every pattern that is no NaN, in both formats |
| HalfOperators.FieldsValue | src/cpp/legate/type/half.cc:59-96 | the real number a half stands for, by its sign, exponent and fraction |
| HalfOperators.FloatValue | src/cpp/legate/type/half.cc:21-40 | the same of a float, and which floats are infinities and NaNs |
| HalfOperators.NarrowsTo | src/cpp/legate/type/half.cc:21-57 | narrowing gives the nearest half of the float's real value, and infinities and NaNs by their bits |
| HalfOperators.WidensTo | src/cpp/legate/type/half.cc:59-96 | widening gives a float of the half's real value and sign, but for -0, and infinities and NaNs by their bits |
| DoubleRounding.TwiceDiffers | src/cpp/legate/type/half.cc:102-104 | two roundings differ from one only when the first lands on a midpoint from the side of the odd neighbour |
| DoubleRounding.PulledApart | src/cpp/legate/type/half.cc:102-104 | and whenever it does, they differ |
| DoubleRounding.SumOnce | src/cpp/legate/type/half.cc:176-184 | sums and differences of halves never get there: exact in binary32, or away from every midpoint |
| DoubleRounding.ProductOnce | src/cpp/legate/type/half.cc:186-189 | binary32 holds every product of two halves exactly, so only the second rounding rounds |
| DoubleRounding.QuotientAtMidpoint | src/cpp/legate/type/half.cc:191-194 | a quotient whose float is a midpoint is that midpoint |
| DoubleRounding.QuotientOnce | src/cpp/legate/type/half.cc:191-194 | so quotients round as they would directly |
| HalfArith.PlusRounded | src/cpp/legate/type/half.cc:176-179 | float addition then narrowing equals one rounding of the exact sum, for all operands |
| HalfArith.MinusRounded | src/cpp/legate/type/half.cc:181-184 | the same for differences |
| HalfArith.TimesRounded | src/cpp/legate/type/half.cc:186-189 | the same for products |
| HalfArith.OverRounded | src/cpp/legate/type/half.cc:191-194 | the same for quotients, by zero and by infinity included |
| HalfOperators.SignedRounds | src/cpp/legate/type/half.cc:21-57 | of any sign and magnitude: the nearest finite half below 65520, the infinity of that sign from there on |
| HalfOperators.RealRounds | src/cpp/legate/type/half.cc:21-57 | of any real number |
| HalfOperators.RoundsToOne | src/cpp/legate/type/half.cc:21-57 | and no other half is that |
| HalfOperators.HalfRealOrder | src/cpp/legate/type/half.cc:198-201 | halves are ordered by integer keys as their real numbers are |
| HalfOperators.SumIs | src/cpp/legate/type/half.cc:176-179 | what operator+ must return, in real numbers and bits alone |
| HalfOperators.DifferenceIs | src/cpp/legate/type/half.cc:181-184 | what operator- must return |
| HalfOperators.ProductIs | src/cpp/legate/type/half.cc:186-189 | what operator* must return |
| HalfOperators.QuotientIs | src/cpp/legate/type/half.cc:191-194 | what operator/ must return |
| HalfOperators.Add | src/cpp/legate/type/half.cc:176-179 | operator+: no finite half is nearer to the real sum than the result, ties are even, its sign is the sum's, +0 for zero; from 65520 on the infinity of that sign; infinities and NaNs by their bits (IsSum) |
| HalfOperators.Subtract | src/cpp/legate/type/half.cc:181-184 | operator-: the same of the real difference (IsDifference) |
| HalfOperators.Multiply | src/cpp/legate/type/half.cc:186-189 | operator*: the same of the real product, with the sign that the operands' signs give, and the infinities and NaNs by their bits (IsProduct) |
| HalfOperators.Divide | src/cpp/legate/type/half.cc:191-194 | operator/: the same of the real quotient of what the code reads, by zero and infinity included (IsQuotient); DivideZeros says where that is not what is encoded |
| HalfOrder.OverflowQuanta | src/cpp/legate/type/half.cc:34-53 | a magnitude rounds to a finite half exactly when it is below 65520 |
| HalfOrder.NearestHalf | src/cpp/legate/type/half.cc:21-57 | as signed reals: no finite half is nearer than the result, and ties are even |
| HalfOrder.LessByKey | src/cpp/legate/type/half.cc:198-201 | the order of values is an integer order of patterns that puts both zeros in one place |
| HalfOrder.LessThan | src/cpp/legate/type/half.cc:198-201 | < by that order, false on NaNs |
| HalfOrder.LessOrEqual | src/cpp/legate/type/half.cc:203 | <= by that order, but true when an operand is a NaN |
| HalfOrder.GreaterThan | src/cpp/legate/type/half.cc:205 | > by that order, false on NaNs |
| HalfOrder.GreaterOrEqual | src/cpp/legate/type/half.cc:207 | >= by that order, but true when an operand is a NaN |
| HalfOrder.EqualityGap | src/cpp/legate/type/half.inl:18 | equality of patterns and "neither is less" differ exactly on NaNs and opposite zeros |
| HalfOrder.RoundTrip | src/cpp/legate/type/half.cc:59-96 | half to float to half is the identity but for -0 and NaNs |
| HalfOrder.NegatedBits | src/cpp/legate/type/half.cc:172 | rounding the opposite value flips the sign bit; either zero becomes -0, a NaN the canonical one |
| HalfOrder.Negated | src/cpp/legate/type/half.cc:172 | unary minus does just that |
| HalfOrder.AddZeros | src/cpp/legate/type/half.cc:80-83 | reading -0 as +0 changes a sum exactly when both operands are -0 |
| HalfOrder.SubtractZeros | src/cpp/legate/type/half.cc:80-83 | a difference, exactly for -0 less +0 |
| HalfOrder.MultiplyZeros | src/cpp/legate/type/half.cc:80-83 | a product, exactly when one operand is -0 and the other is another finite half |
| HalfOrder.DivideZeros | src/cpp/legate/type/half.cc:80-83 | a quotient, exactly when one operand is -0 and the other is neither a zero nor a NaN: a number over -0 gets the wrong infinity |
| HalfWide.FromDouble | src/cpp/legate/type/half.cc:104 | a double is rounded to float and then to half |
| HalfWide.DoubleIsNearest | src/cpp/legate/type/half.cc:104 | the result is the nearest half if and only if the float is not pulled over a midpoint |
| HalfWide.DoubleNotNearest | src/cpp/legate/type/half.cc:104 | a double whose half is not the nearest one |
| HalfWide.TwiceFaithful | src/cpp/legate/type/half.cc:104 | on magnitudes, two roundings never pass a half that lies between them and the value |
| HalfWide.DoubleFaithful | src/cpp/legate/type/half.cc:104 | the half made from a double, with its sign and with overflow, is one of the two halves around it |
| HalfWide.DoubleMonotone | src/cpp/legate/type/half.cc:104 | a larger double never gives a smaller half, across signs |
| HalfWide.IntegerRounded | src/cpp/legate/type/half.cc:106-110 | for every integer the two roundings equal one |
| HalfWide.FromInteger | src/cpp/legate/type/half.cc:106-110 | the integer constructors are correctly rounded |
| HalfWide.Half.FromFloat | src/cpp/legate/type/half.cc:102 | a Half made from a float holds its correctly rounded encoding |
| HalfWide.Half.Assign | src/cpp/legate/type/half.cc:112-116 | so does one assigned from a float |
| HalfWide.Half.AddAssign | src/cpp/legate/type/half.cc:146-150 | += stores what IsSum says of the real sum, also when both sides are one object |
| HalfWide.Half.SubtractAssign | src/cpp/legate/type/half.cc:152-156 | -= stores what IsDifference says of the real difference |
| HalfWide.Half.MultiplyAssign | src/cpp/legate/type/half.cc:158-162 | *= stores what IsProduct says of the real product |
| HalfWide.Half.DivideAssign | src/cpp/legate/type/half.cc:164-168 | /= stores what IsQuotient says of the real quotient |
| HalfReduce.IdentityValue | src/cpp/legate/redop/half.h:82-113 | the identities are the largest finite magnitudes, by float and by double |
| HalfReduce.ReduceKept | src/cpp/legate/runtime/library.h:112-123 | the result of any grouping is the highest of the halves it keeps, and a NaN when it keeps none |
| HalfReduce.MaxKeeps | src/cpp/legate/type/half.cc:198-201 | max keeps the identity and every number of a sequence |
| HalfReduce.MinKeeps | src/cpp/legate/type/half.cc:198-201 | min keeps what follows the last NaN, and the identity only when there is no NaN |
| HalfReduce.KeptMembers | src/cpp/legate/runtime/library.h:112-123 | what is kept are numbers among the contributions, and identities |
| HalfReduce.ReduceExtreme | src/cpp/legate/runtime/library.h:112-123 | for all contributions, NaNs included, in any grouping: no number outranks the result if and only if what is kept covers what is not |
| HalfReduce.ReduceIsExtreme | src/cpp/legate/redop/half.h:82-113 | and the result is the extreme contribution if and only if, besides, the identity does not take the place of an infinity |
| HalfReduce.ReduceNumbers | src/cpp/legate/redop/half.h:82-113 | max, and min without NaNs: never outranked, and a contribution if and only if one is not the infinity below the identity |
| HalfReduce.MinAfterNaN | src/cpp/legate/type/half.cc:198-201 | a min over a sequence with a NaN is least among the numbers if and only if, for each number before the last NaN, something after it is as small |
| HalfReduce.JoinForgets | src/cpp/legate/type/half.cc:198-201 | a part that reduces to a NaN is forgotten on the left of a min and is the result on its right |
| HalfReduce.MinGoesWrong | src/cpp/legate/type/half.cc:198-201 | the min of 1, a NaN and 2 is 2; with the NaN first it is 1, with the NaN last a NaN |
| HalfReduce.ReduceNothing | src/cpp/legate/redop/half.h:82-113 | nothing to reduce gives the identity, in any grouping |
| HalfReduce.MinForgets | src/cpp/legate/type/half.cc:198-207 | folding a number after a NaN starts anew with that number, whatever came before |
| Machines.AndHas | src/cpp/legate/mapping/detail/machine.cc:196-206 | the intersection holds exactly the processors that both machines hold |
| Machines.EmptyHas | src/cpp/legate/mapping/detail/machine.cc:208-213 | a machine is empty exactly when it holds no processor |
| Machines.AndFails | src/cpp/legate/mapping/detail/machine.cc:196-206 | there is no intersection exactly when a common kind has another number of processors per node |
| ScopeModel.ThrowingConstructor | src/cpp/legate/tuning/scope.cc:163-176 | a constructor whose set throws leaves the globals as they were |
| ScopeModel.SetInstalls | src/cpp/legate/tuning/scope.cc:20-94 | a set that is done puts exactly what was asked in force, for a machine the processors that both machines hold, and changes nothing else but the window; the scope saves what was in force |
| ScopeModel.ThrowsExactly | src/cpp/legate/tuning/scope.cc:57-113 | the side effects throw exactly when the policies differ and, at the beginning, the old one is strict or the flush fails, at the end, the flush fails |
| ScopeModel.FailedSet | src/cpp/legate/tuning/scope.cc:20-94 | a failing set changes nothing if and only if it is not the first policy of its scope; that policy is in force and the end of the scope undoes it |
| ScopeModel.FailsExactly | src/cpp/legate/tuning/scope.cc:20-94 | when each kind of set fails, from the state and the argument alone |
| ScopeModel.FailsWith | src/cpp/legate/tuning/scope.cc:20-94 | with which error: a machine is looked at before the scope is asked, and a policy's side effects come after that |
| ScopeModel.FailedPolicyStays | src/cpp/legate/tuning/scope.cc:84-93 | a relaxed policy refused inside a strict one is in force nevertheless, with the larger window |
| ScopeClass.RuntimeScope.ExchangePolicy | src/cpp/legate/runtime/detail/scope.cc:119-122 | returns the old policy and installs the new one, nothing else |
| ScopeClass.Impl.SetPriority | src/cpp/legate/tuning/scope.cc:20-27 | once per scope: exchange and save, otherwise throw and change nothing |
| ScopeClass.Impl.SetExceptionMode | src/cpp/legate/tuning/scope.cc:29-37 | the same for the exception mode |
| ScopeClass.Impl.SetProvenance | src/cpp/legate/tuning/scope.cc:39-46 | the same for the provenance |
| ScopeClass.Impl.SetMachine | src/cpp/legate/tuning/scope.cc:48-55 | the same for the machine |
| ScopeClass.Impl.SetPolicy | src/cpp/legate/tuning/scope.cc:57-94 | raises the window for streaming, exchanges the policy whether or not the side effects throw |
| ScopeClass.Impl.TriggerEndScope | src/cpp/legate/tuning/scope.cc:105-113 | throws exactly when a saved policy's side effects do; changes nothing |
| ScopeClass.Impl.Destruct | src/cpp/legate/tuning/scope.cc:120-148 | puts back all that was saved and forgets it, so that a second call does nothing |
| ScopeClass.Scope.Moved | src/cpp/legate/tuning/scope.h:280 | a move leaves the source without an Impl |
| ScopeClass.Scope.SetMachine | src/cpp/legate/tuning/scope.cc:217-225 | puts the intersection with the machine in force in force (SetInstalls says which processors that is), refuses an empty one |
| ScopeClass.Scope.Close | src/cpp/legate/tuning/scope.cc:232-243 | the end of a scope restores everything whether or not it throws; a moved-from scope does nothing |
| ScopeClass.OpenWith | src/cpp/legate/tuning/scope.cc:163-176 | a scope with its parameter set, or none and unchanged globals |
| ScopeCell.EndBreaks | src/cpp/legate/tuning/scope.cc:120-148 | ending a setter keeps the value of the latest live setter if and only if it is the latest, or puts back the same value |
| ScopeCell.SetPresent | src/cpp/legate/tuning/scope.cc:20-94 | setting another value keeps the initial one in force or saved, in one place |
| ScopeCell.EndPresent | src/cpp/legate/tuning/scope.cc:120-148 | the end of a setter loses the initial value if and only if that is in force |
| ScopeCell.RestoredOutOfOrder | src/cpp/legate/tuning/scope.cc:120-148 | the initial value can come back although a scope ended out of order and a value was wrong in between |
| ScopeRuns.StepKeeps | src/cpp/legate/tuning/scope.cc:20-243 | in stack order every step keeps each parameter at what its latest live setter asked for |
| ScopeRuns.StepExact | src/cpp/legate/tuning/scope.cc:120-148 | with distinct values, ending a scope keeps that if and only if it is in stack order for each parameter |
| ScopeRuns.RunExact | src/cpp/legate/tuning/scope.cc:20-243 | with distinct values, after every event of a run the parameters are what their latest live setters gave them if and only if the run is in stack order |
| ScopeRuns.Restoration | src/cpp/legate/tuning/scope.cc:20-243 | after any stack-ordered run with no scope left, all six parameters are the initial ones, whatever was set, moved or thrown |
| ScopeRuns.RestorationExact | src/cpp/legate/tuning/scope.cc:120-148 | in any order: when no set gives a parameter its initial value, all six are the initial ones again if and only if, for each, no scope that saved it ends while it has its initial value |
| ScopeRuns.NestedLifetimesLeak | src/cpp/legate/tuning/scope.h:37-39 | two scopes with nested lifetimes that leave another priority behind |
| ScopeNesting.MachineShrinks | src/cpp/legate/tuning/scope.cc:217-225 | the machine is never empty and, per kind, a subset of that of every live scope and of the initial one |
| ScopeNesting.WindowWhileStreaming | src/cpp/legate/tuning/scope.cc:64-83 | the window is 1024 exactly while it was smaller and a live scope set a streaming policy |
| ScopeNesting.LogIsLive | src/cpp/legate/tuning/scope.cc:20-148 | the setters those statements range over are exactly the live scopes that saved the parameter |
| Decimals.NumberOfDigits | scripts/maint/renovate_update_conda_upper_bounds.py:100 | a printed number reads back as itself |
| Constraints.ParsePrint | scripts/maint/renovate_update_conda_upper_bounds.py:93-100 | a printed version parses as itself |
| Versions.UpperBoundPrecision | scripts/maint/renovate_update_conda_upper_bounds.py:103-117 | the loop finds the last segment that counts |
| Versions.StrictBound | scripts/maint/renovate_update_conda_upper_bounds.py:131-145 | for <, the least version of its precision strictly above the new one, with the old length |
| Versions.InclusiveBound | scripts/maint/renovate_update_conda_upper_bounds.py:131-148 | for <=, the least version of its precision at or above the new one |
| Versions.BoundMonotone | scripts/maint/renovate_update_conda_upper_bounds.py:131-148 | a later version never gives a lower bound |
| Constraints.ReplaceLastUpperBound | scripts/maint/renovate_update_conda_upper_bounds.py:120-154 | the method computes ReplaceLast, errors included; LastRenewed and RefusedExactly say of the characters what that is |
| ConstraintText.MatchReads | scripts/maint/renovate_update_conda_upper_bounds.py:15 | for every match the operator is what stands before the bound, the bound is the longest run of bound characters there, and matches follow each other |
| ConstraintText.NoneLeftOut | scripts/maint/renovate_update_conda_upper_bounds.py:15 | no < with a bound character after it is outside all matches |
| ConstraintText.ParseExactly | scripts/maint/renovate_update_conda_upper_bounds.py:24-100 | a text is a version exactly when it is digits in groups with one dot between each two |
| ConstraintText.CountsIs | scripts/maint/renovate_update_conda_upper_bounds.py:103-117 | which segments count: all after <=, after < those up to the last that is not zero, one at least |
| ConstraintText.LastRenewed | scripts/maint/renovate_update_conda_upper_bounds.py:120-154 | in the place of the last bound stands the least version, of the segments that counted, that admits the new one by the operator in the text; all around it stays |
| ConstraintText.RefusedExactly | scripts/maint/renovate_update_conda_upper_bounds.py:120-129 | it is refused exactly when some bound, or the new version, is no version text |
| Constraints.MatchesSplice | scripts/maint/renovate_update_conda_upper_bounds.py:15 | replacing the last bound replaces the last match of the pattern and no other |
| Constraints.ReplaceLastIs | scripts/maint/renovate_update_conda_upper_bounds.py:120-154 | only the last bound changes; operators, other bounds and the text around them stay, and the result parses |
| Constraints.ReplaceLastLeast | scripts/maint/renovate_update_conda_upper_bounds.py:120-154 | the bound in the new text is the least of the old precision that admits the version |
| Constraints.ReplaceLastTwice | scripts/maint/renovate_update_conda_upper_bounds.py:120-154 | replacing twice is replacing once |
| ConfigLines.ItemRoundTrip | scripts/maint/renovate_update_conda_upper_bounds.py:17-19 | a printed item reads back as itself if and only if no quote in it seems to be followed by a comment |
| ConfigLines.ItemRead | scripts/maint/renovate_update_conda_upper_bounds.py:17-19 | every item that is read is of that kind |
| ConfigLines.KeyIsPlain | scripts/maint/renovate_update_conda_upper_bounds.py:16-23 | the key line of a plain name is neither marker nor item |
| LineText.MarkerRoundTrip | scripts/maint/renovate_update_conda_upper_bounds.py:20-23 | a marker line of any indent, name, version and value is read as exactly that name and that value |
| LineText.MarkedReads | scripts/maint/renovate_update_conda_upper_bounds.py:20-23 | so is any line with the words of a marker in their places and any white space between them |
| LineText.MarkedShape | scripts/maint/renovate_update_conda_upper_bounds.py:20-23 | and every line that is read as a marker is such a line |
| LineText.StripIs | scripts/maint/renovate_update_conda_upper_bounds.py:246 | white space around the value is stripped, and nothing else |
| LineText.ItemReads | scripts/maint/renovate_update_conda_upper_bounds.py:17-19 | a line with a dash, a quote and the first same quote that nothing but a comment follows is read as an item of those parts |
| LineText.ItemShape | scripts/maint/renovate_update_conda_upper_bounds.py:17-19 | and every line that is read as an item is such a line |
| LineText.KeyReads | scripts/maint/renovate_update_conda_upper_bounds.py:16 | the name and _version:, with white space around them, is a key line |
| LineText.KeyShape | scripts/maint/renovate_update_conda_upper_bounds.py:16 | and every key line is that |
| LineText.BlockLineIs | scripts/maint/renovate_update_conda_upper_bounds.py:157-162 | a block goes on over exactly the blank lines, comments and items |
| Rereading.Reread | scripts/maint/renovate_update_conda_upper_bounds.py:17-19 | whatever is read back of a printed item, printing it gives the same line |
| Rereading.SeenEndSpliced | scripts/maint/renovate_update_conda_upper_bounds.py:17-19 | where reading a value stops moves with a bound before it and never into a bound |
| Rereading.PrefixMatches | scripts/maint/renovate_update_conda_upper_bounds.py:15 | a prefix that holds all matches has the same matches |
| Rereading.RenewedLasts | scripts/maint/renovate_update_conda_upper_bounds.py:120-154 | what is read back of a renewed value needs no renewal if and only if the value is lasting |
| Rereading.OpenLasts | scripts/maint/renovate_update_conda_upper_bounds.py:120-154 | a value in which no comment seems to follow a quote is lasting |
| ConfigFile.UpdatedBlockLines | scripts/maint/renovate_update_conda_upper_bounds.py:178-228 | the flags carried along give the value to one target, and say exactly whether a line was touched |
| ConfigFile.RewriterFrame | scripts/maint/renovate_update_conda_upper_bounds.py:178-228 | the output is the lines without markers, in order; others than items are untouched, items change in their value only |
| ConfigFile.FindBlock | scripts/maint/renovate_update_conda_upper_bounds.py:165-175 | the first key line and the longest run of block lines after it |
| ConfigFile.FirstMarkerValue | scripts/maint/renovate_update_conda_upper_bounds.py:242-248 | the value of the first marker that names the dependency; MarkedReads and MarkedShape say which lines those are |
| ConfigText.BuildConfig.UpdateFile | scripts/maint/renovate_update_conda_upper_bounds.py:231-279 | the text of the file, cut at every separator of the code and joined again, is the updated one, or the same when it fails or says that nothing changed; UpdateExactly says what is in it |
| ConfigEffects.TakesExactly | scripts/maint/renovate_update_conda_upper_bounds.py:185-212 | an item is given a value exactly when it is the first after the first marker and a marker names the dependency, or the first of all and only the data file has one |
| ConfigEffects.UpdateExactly | scripts/maint/renovate_update_conda_upper_bounds.py:231-279 | the update is refused exactly when a data file has no value and no marker names the dependency, or a value to renew cannot be read; otherwise the block is its lines without markers, each item with the last bound of its value, own or given, renewed |
| ConfigEffects.MarkerLineUpdates | scripts/maint/renovate_update_conda_upper_bounds.py:20-23 | for a marker line of the dependency: it is gone, and the next item has its value, renewed, and is otherwise the same |
| ConfigEffects.OneValue | scripts/maint/renovate_update_conda_upper_bounds.py:201-212 | an item is renewed from one value and no other |
| ConfigEffects.NothingToUpdate | scripts/maint/renovate_update_conda_upper_bounds.py:237-239 | with no key line the text stays |
| TextLines.JoinLines | scripts/maint/renovate_update_conda_upper_bounds.py:234 | cutting a text into lines and joining them gives the text, and lines that break only at their ends |
| TextLines.TranslateIs | scripts/maint/renovate_update_conda_upper_bounds.py:234 | a carriage return, with the newline after it if there is one, is read as a newline |
| TextLines.LinesJoin | scripts/maint/renovate_update_conda_upper_bounds.py:278 | and joining such lines and cutting again gives the lines |
| ConfigText.RenewedShape | scripts/maint/renovate_update_conda_upper_bounds.py:178-228 | a line is written as a line, unless it is an item that ends at a separator other than a newline: that one gets a newline after it |
| ConfigText.SameText | scripts/maint/renovate_update_conda_upper_bounds.py:178-228 | when the text of a block is written as it was read, so was every line: no marker, no item printed otherwise |
| ConfigText.CalmExactly | scripts/maint/renovate_update_conda_upper_bounds.py:231-279 | for any text and name: an update without a data file leaves the text alone, and says so, if and only if no marker is in the block and every item is printed as it reads and has nothing to renew |
| ConfigTwice.RenewBlockTwice | scripts/maint/renovate_update_conda_upper_bounds.py:178-228 | a written block has no markers, and is renewed as itself if and only if the given value lasts |
| ConfigTwice.FoundAgain | scripts/maint/renovate_update_conda_upper_bounds.py:165-175 | the spliced block is found again, exactly |
| ConfigAgain.UpdateTwice | scripts/maint/renovate_update_conda_upper_bounds.py:231-279 | a second run on the text leaves it alone, and says so, if and only if the given value lasts and every item in the block ends at a newline or at the end of the file |
| ConfigAgain.PlainRead | scripts/maint/renovate_update_conda_upper_bounds.py:231-279 | when the items end plainly, the second run reads the very lines that the first one wrote |
| ConfigAgain.FrayedNotCalm | scripts/maint/renovate_update_conda_upper_bounds.py:231-279 | when one does not, the second run finds it without the newline that it was given, and changes the text |
| ConfigTwice.PlainKeyStays | scripts/maint/renovate_update_conda_upper_bounds.py:16-23 | for every name that begins neither like a comment nor like a list item, the key line is written as it is |
| ConfigChanges.KeyLineLost | scripts/maint/renovate_update_conda_upper_bounds.py:231-279 | when the key line is an item that is no key line any more once renewed, a second run changes the next block of that name |
| ConfigChanges.OddNameNotTwice | scripts/maint/renovate_update_conda_upper_bounds.py:231-279 | one such name, file and version |
| KeyMarkers.KeyKind | scripts/maint/renovate_update_conda_upper_bounds.py:16-23 | a key line is a marker if and only if the key word is: white space around it does not matter |
| ConfigChanges.MarkerKeyTwice | scripts/maint/renovate_update_conda_upper_bounds.py:231-279 | when the key line is a marker, a second run changes nothing if and only if no key line of the name follows the block |
| ConfigChanges.Grows | scripts/maint/renovate_update_conda_upper_bounds.py:214-227 | with an item that ends at another separator, every run adds one more blank line |
| ConfigChanges.FormFeedGrows | scripts/maint/renovate_update_conda_upper_bounds.py:214-227 | one such text, with a form feed |
| ConfigTwice.UpdateTwiceOpen | scripts/maint/renovate_update_conda_upper_bounds.py:231-279 | a value lasts when no comment seems to follow a quote in it, and so does none |
| ConfigChanges.PairNotTwice | scripts/maint/renovate_update_conda_upper_bounds.py:231-279 | with any value that does not last, a second run changes a file of one item |
| ConfigChanges.UpdateNotTwice | scripts/maint/renovate_update_conda_upper_bounds.py:231-279 | one such file, value and version |
| TaskClass.AutoTask.ReleaseAutoTask | src/cpp/legate/operation/task.cc:53-61 | hands out a queued task once; an inline task stays in place and is refused |
| TaskClass.AutoTask.ReleasePhysicalTask | src/cpp/legate/operation/task.cc:63-71 | hands out an inline task once; any other stays in place and is refused |
| TaskClass.AutoTask.Add | src/cpp/legate/operation/task.cc:130-206 | the reference is recorded, and counted, before the store is given; an inline task records none; AddedExactly and StreamHasGiven say what the task then has |
| TaskClass.AutoTask.ClearRefs | src/cpp/legate/operation/task.cc:35 | drops every reference, discarding storages that lose their last one |
| TaskClass.ManualTask.Release | src/cpp/legate/operation/task.cc:357-365 | hands out the task once, refuses an empty descriptor |
| TaskClass.ManualTask.Add | src/cpp/legate/operation/task.cc:382-438 | reuse records nothing; otherwise store and partition references are recorded first, and the task has what AddedExactly says |
| TaskClass.ManualTask.ClearRefs | src/cpp/legate/operation/task.cc:329-333 | drops stores, then partitions |
| TaskClass.Runtime.Drop | src/cpp/legate/data/detail/user_storage_tracker.cc:21-30 | losing the last user reference queues the discard |
| TaskClass.Runtime.CreateAutoTask | src/cpp/legate/runtime/runtime.cc:64-74 | inline inside a task or when configured, otherwise queued |
| TaskClass.Runtime.Enqueue | src/cpp/legate/runtime/detail/runtime.cc:545-568 | validated before it joins the stream, even if the flush after that fails |
| TaskClass.Runtime.SubmitAutoTask | src/cpp/legate/runtime/runtime.cc:196-217 | release, queue or launch, then clear, in that order, with each way to fail |
| TaskClass.Runtime.SubmitManualTask | src/cpp/legate/runtime/runtime.cc:219-229 | the same for manual tasks |
| TaskModel.DropAllSound | src/cpp/legate/operation/task.cc:35 | dropping counted references discards each storage at its last one only, and keeps the stream sound |
| TaskModel.SubmittedSound | src/cpp/legate/runtime/runtime.cc:196-229 | submitting keeps the stream sound and the references balanced, however it ends |
| TaskModel.ClearingFirst | src/cpp/legate/runtime/runtime.cc:210-216 | clearing before submitting is safe if and only if every storage of the task has another reference |
| TaskHistory.AddedExactly | src/cpp/legate/operation/task.cc:130-206 | an addition gives the task the store exactly when it is accepted, and records its reference in any case; an inline task records none, an empty descriptor refuses |
| TaskHistory.SubmittedAdds | src/cpp/legate/runtime/runtime.cc:196-229 | a submission queues the task, or launches exactly that task when it is inline, then only discards; refused, it does nothing |
| TaskRuns.StepKeeps | src/cpp/legate/runtime/runtime.cc:196-229 | every step of every program keeps references counted, given storages held, and ids apart |
| TaskRuns.StreamIsSafe | src/cpp/legate/runtime/runtime.cc:210-216 | over all programs: no use after discard, nothing queued twice, discarded exactly when unreferenced |
| TaskRuns.NothingLeaks | src/cpp/legate/data/detail/user_storage_tracker.cc:21-30 | when the program holds nothing any more, every storage has been discarded |
| TaskRuns.SubmitHolds | src/cpp/legate/operation/task.cc:23-126 | at each submit all given storages are still held; after success none is, and all copies are empty |
| TaskHistory.StreamHasGiven | src/cpp/legate/operation/task.cc:130-206 | over all programs, from their events alone: each task queued or launched has exactly the stores accepted through any of its handles, in order, and comes before the discard of each |
| TaskHistory.SubmitQueuesGiven | src/cpp/legate/runtime/runtime.cc:196-229 | a submit that is not refused queues, or launches, that task with exactly those stores, all of them still held |
| TaskHistory.ReuseRefused | src/cpp/legate/runtime/runtime.cc:196-229 | after it, submitting through any handle of the task does nothing and is refused, and so is adding |
| Projections.ToString | src/cpp/legate/operation/projection.cc:15-30 | the appends build Text |
| Projections.PrintIs | src/cpp/legate/operation/projection.cc:15-30 | what is printed: the decimal weight and a star unless it is one, COORD and the dimension, the offset with its sign unless it is zero; with no weight only the offset |
| Projections.Prints | tests/cpp/unit/projection.cc:17-38 | the prints that the unit tests ask for |
| Projections.ReadText | src/cpp/legate/operation/projection.cc:15-30 | a parser gets back weight, dimension and offset from every print |
| Projections.EvalIs | src/cpp/legate/operation/projection.h:29-36 | an expression is worth its offset where its coordinate is zero, and its weight more with every step along it |
| Projections.PrintsAlike | src/cpp/legate/operation/projection.h:29-36 | equal prints if and only if equal at all points |
| Projections.PrintsItsWorth | src/cpp/legate/operation/projection.h:29-36 | an expression prints like its equals, and only them, if and only if no weight dangles on UNSET |
| Projections.DefaultPrintsWrong | src/cpp/legate/operation/projection.h:95-97 | the default expression is the constant zero and does not print like it |
| AllocatorModel.PowerOf2Is | src/cpp/legate/data/allocator.cc:56 | the bit test accepts exactly the powers of two |
| AllocatorModel.MaxIsMultiple | src/cpp/legate/data/allocator.cc:89 | the larger alignment is a multiple of both |
| AllocatorModel.AlignedAsAsked | src/cpp/legate/data/allocator.cc:79-99 | what is returned is a multiple of the alignment asked for and of the allocator's, and null only for no bytes |
| AllocatorModel.KeysAreOut | src/cpp/legate/data/allocator.cc:79-121 | an address has a buffer if and only if some call handed it out and none took it back since |
| AllocatorModel.RefusesExactly | src/cpp/legate/data/allocator.cc:106-121 | in any run an address is refused exactly when it is not null and no call that handed it out is without one that took it back since |
| AllocatorModel.ReturnsExactly | src/cpp/legate/data/allocator.cc:79-99 | what an allocation returns, from the call alone: the address, null for no bytes, or which error |
| AllocatorModel.DestroyedOnce | src/cpp/legate/data/allocator.cc:69-77 | no buffer is destroyed twice; when a scoped allocator goes, each one has been destroyed |
| AllocatorClass.NewAllocator | src/cpp/legate/data/allocator.cc:60-67 | refuses exactly the alignments that are no power of two |
| AllocatorClass.Allocator.AllocateAligned | src/cpp/legate/data/allocator.cc:79-99 | a new buffer under the address, or destroyed again when it cannot be kept |
| AllocatorClass.Allocator.Deallocate | src/cpp/legate/data/allocator.cc:106-121 | null is ignored, an unknown address refused, a known one destroyed and forgotten |
| AllocatorClass.Allocator.Destruct | src/cpp/legate/data/allocator.cc:69-77 | sweeps all buffers of a scoped allocator, in any order |

## Left out

- The CUDA half type, NaN payloads, and the sign of zero beyond what the code fixes: bit patterns of NaNs are identified on purpose.
- Hardware float operations are defined by IEEE 754-2019 on exact reals; compilers that keep excess precision are not modelled.
- HalfWide.FromDouble: takes the double as the exact datum it stands for, because binary64 plays no other part in the conversion.
- Constructing or assigning a Half from double, int, coord_t and size_t is modelled as the two conversion methods, not as methods of the class.
- Reductions on the GPU, apply, and atomics.
- Move assignment of Scope, and a null machine before the runtime has one.
- The flush of the scheduling window and the mapping fence inside the scope's side effects: whether they throw is a parameter. A second throw during unwinding ends the program and is not modelled.
- Regular expressions are modelled with all the white space they know and ASCII digits; that `$` also matches before a final line break of a version is not.
- The file is its text; decoding and encoding it, line ends other than "\n" on writing, the command line, the debug output and the JSON of the data file are not modelled, beyond whether it has a current value for the dependency.
- ConfigAgain.UpdateTwice: is stated for a data file whose current value has no line break in it, and for key lines that are no markers and still key lines when written. `MarkerKeyTwice` has the markers; for a list item that is no key line any more once renewed (`KeyLineLost`), and for line breaks in a value, what remains is `CalmExactly` on the text that was written.
- Error messages are kept only as far as they tell the failures apart.
- TaskClass.AutoTask.Add: requires a descriptor that was not submitted, because the code makes no promise after that (it dereferences an empty pointer).
- What a task does with its arguments, scalars, constraints, communicators and partition symbols; the second pointer to the task that the accessor of AutoTask caches.
- Contents of the scheduling window: the stream lists operations in the order they are queued, flushing does not reorder it. Discards of storages that hold no region field are queued like the others, and the abort when a discard fails is left out.
- Arithmetic on symbolic expressions, whose overflow is undefined, and hashing.
- The memory behind buffers: the address of a new one is a parameter, aligned as asked, not null and not that of a live buffer.
- AllocatorClass.Allocator.Destruct: requires the invariant that every run keeps, because the sweep counts buffers and not map entries.
