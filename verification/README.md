# json_patch in Dafny

A model of the Rust crate `json_patch` and proofs about it. The crate applies two kinds of patch to a JSON value:

- **JSON Patch (RFC 6902).** A patch is an ordered sequence of `add`, `remove`, `replace`, `move`, `copy` and `test` operations. Each one addresses the document through a JSON Pointer (RFC 6901). The patch is applied in order to one document and stops at the first failing operation. Earlier changes are not rolled back. A patch can also be replayed to an operation sink instead.
- **JSON Merge Patch (RFC 7396).** A recursive merge in which objects are merged member by member, a `null` member deletes, and anything else replaces wholesale.

## Modules and files

- `value.dfy` (`JsonValue`): the JSON value. Objects are maps, so equality ignores member order, which is what `test` needs. Numbers are integers.
- `error.dfy` (`Errors`): the two error kinds and their messages.
- `decimal.dfy` (`Decimal`): decimal digit strings. This covers the canonical spelling of an index, its value, and the machine-word parser that `parse_idx` calls.
- `pointer.dfy` (`JsonPointer`): RFC 6901 pointers as the JSON library evaluates them.
  - The empty pointer is the root. Any other pointer starts with `/`.
  - Segments are unescaped `~1` → `/` first, then `~0` → `~`.
  - An array index must be canonical decimal: no sign and no leading zero.
  - `Resolve` reads the node a pointer denotes. `Put` writes through a pointer, which is how a `&mut` reference into the tree is rendered.
- `op.dfy` (`Op`): the six operations.
  - Each is a function from the document before to an `Applied` value: the document afterwards plus what the operation returned.
  - The `Document` class performs the same steps in place on its `doc` field. Each method is specified by the matching function.
  - `Applied` carries the document even on failure. `move` can fail after its `remove` has already happened, and the removal stays.
- `op_properties.dfy` (`OpProperties`): the behaviour of each operation, and how the operations relate to each other.
- `traits.dfy` (`Sink`): the operation sink implemented for a closure. Each of the six entry points wraps its argument into the matching `Operation` variant and calls the closure once. The closure's own state is modelled by the history of operations it has received.
- `patch.dfy` (`PatchApply`): `len`, `is_empty`, `apply_mut` (a loop over a `Document`), `apply_ref`, and `apply_fun` (a loop over a `ClosureSink`). They are specified by the fold `Run`, the whole-patch function `ApplyPatch` and the sink replay `Deliver`.
- `patch_properties.dfy` (`PatchProperties`): the left fold, abort on the first failure, and agreement between `apply_fun` with a document-applying sink and direct application.
- `merge.dfy` (`MergePatch`): `merge_mut` as a method whose loop runs over the patch members, specified by the RFC 7396 function `Merge`, plus `merge_ref`.
- `merge_properties.dfy` (`MergeProperties`): deletion, untouched members, wholesale replacement, idempotence, and Appendix A examples.

## Behaviour of the library that the model keeps

These are properties of the code as written. The model reproduces each one and proves it.

- **Raw last segment.** `add` and `remove` split off the last segment of `path` and use it as an object key without unescaping it. Adding at `/a~1b` creates the member `a~1b`. A `test` at `/a~1b`, which unescapes, then looks for `a/b` and fails (`OpProperties.RawKeyOnAdd`).
- **Signed indices.** `parse_idx` uses the machine-word parser, which accepts a leading `+`. So `add` at `ptr/+1` inserts at index 1, while pointer resolution rejects the same token (`OpProperties.SignedIndexOnAdd`).
- **Partial move.** `move` removes first. When the following `add` fails, the removal is kept (`OpProperties.MoveKeepsRemovalOnFailure`, `OpProperties.MoveToMissingParent`).
- **Move onto itself.** `move` with `from == path` removes the value and adds it back. The document is unchanged whenever the removal succeeds (`OpProperties.MoveOntoItself`).

## Model

| member | source | states |
|---|---|---|
| Errors.Display | src/error.rs:15-21 | `InvalidPointer` displays as "Invalid JSON Pointer" and `InvalidTest` as "Test Operation Failed", in both directions |
| Errors.DisplayDistinguishes | src/error.rs:8-21 | there are exactly two error kinds, and their messages differ |
| Decimal.Show | src/operation/op.rs:81-88 | the canonical decimal spelling of a number: digits only, no leading zero unless it is `0` |
| Decimal.ValueOfShow | src/operation/op.rs:85 | reading back the canonical spelling gives the number |
| Decimal.ShowOfValue | src/operation/op.rs:81-88 | every canonical digit string is the spelling of its value, so canonical tokens and indices correspond one to one |
| Decimal.CanonicalUnique | src/operation/op.rs:81-88 | two canonical spellings of the same value are the same string |
| JsonPointer.SplitSnoc | src/operation/op.rs:52-60 | splitting a pointer extended by one slash-free segment adds exactly that segment |
| JsonPointer.UnescapeEscape | src/operation/op.rs:52-60 | unescaping (`~1` first, then `~0`) undoes escaping, for every token |
| JsonPointer.UnescapePlain | src/operation/op.rs:52-60 | a segment without `~` unescapes to itself |
| JsonPointer.TokensSnoc | src/operation/op.rs:52-60 | the tokens of `ptr/segment` are those of `ptr` followed by the unescaped segment |
| JsonPointer.TokensOfPointer | src/operation/op.rs:52-60 | parsing the pointer spelt from any token sequence gives that sequence back |
| JsonPointer.ArrayIndex | src/operation/op.rs:52-60 | an array token is accepted exactly when it is canonical decimal, and it then spells its index |
| JsonPointer.ResolvePut | src/operation/op.rs:56-60 | after writing through a resolvable pointer, resolving it gives the value written |
| JsonPointer.PutResolved | src/operation/op.rs:56-60 | writing back the value a pointer resolves to leaves the document unchanged |
| JsonPointer.PutPut | src/operation/op.rs:56-60 | a second write through the same pointer overrides the first |
| JsonPointer.ResolveTokensAppend | src/operation/op.rs:52-60 | resolving a longer path continues from the node its prefix reached |
| JsonPointer.Resolve | src/operation/op.rs:52-54 | `Value::pointer`: the empty pointer denotes the whole document; a non-empty pointer not starting with `/` denotes nothing |
| JsonPointer.Put | src/operation/op.rs:56-60 | a write through `pointer_mut` at a pointer that denotes no node changes nothing |
| JsonPointer.PutTokensMissing | src/operation/op.rs:56-60 | writing below a node that does not exist leaves the document unchanged |
| JsonPointer.PutTokensFrame | src/operation/op.rs:56-60 | a write is local: a path that is neither a prefix of the written path nor extends it reads the same afterwards |
| JsonPointer.PutFrame | src/operation/op.rs:56-60 | writing through one pointer leaves every node apart from it (neither ancestor nor descendant) unchanged |
| JsonPointer.ResolvePointerOf | src/operation/op.rs:52-54 | the pointer spelt from a token sequence denotes the node those tokens reach |
| Op.Pointer | src/operation/op.rs:52-54 | a failing resolution is reported as `InvalidPointer` |
| Op.LastSlash | src/operation/op.rs:64 | `rfind('/')`: absent iff the string has no slash; otherwise the position of a slash with none after it |
| Op.SplitAt | src/operation/op.rs:62-67 | fails with `InvalidPointer` iff the path has no slash; otherwise the path is parent + "/" + last with a slash-free last segment |
| Op.SplitAtOfJoin | src/operation/op.rs:62-67 | splitting parent + "/" + segment gives back parent and segment |
| Op.ParseIdx | src/operation/op.rs:69-89 | an accepted index is below the limit; every failure is `InvalidPointer` |
| Op.ParseIdxAccepts | src/operation/op.rs:81-88 | accepts exactly the indices below the limit, spelt canonically or as `+` followed by digits |
| Op.ParseIdxBound | src/operation/op.rs:86-87 | a canonical index is accepted iff it is below the limit |
| Op.MovesIntoChild | src/operation/op.rs:187 | `path` lies strictly below `from` iff it is `from` + "/" + some rest |
| Op.ParseIdxRejects | src/operation/op.rs:81-83 | the empty token, a leading `-` and a leading `0` on a longer token are rejected with `InvalidPointer` |
| Op.Document.constructor | src/operation/op.rs:26 | the document holds the given value |
| Op.Document.Add | src/operation/op.rs:91-128 | the in-place `add` leaves the document and returns the result that `ApplyAdd` gives |
| Op.Document.Remove | src/operation/op.rs:130-148 | the in-place `remove` agrees with `ApplyRemove` |
| Op.Document.Replace | src/operation/op.rs:150-165 | the in-place `replace` agrees with `ApplyReplace` |
| Op.Document.Move | src/operation/op.rs:167-200 | the in-place `move_` agrees with `ApplyMove`, including the kept removal when the add fails |
| Op.Document.Test | src/operation/op.rs:229-276 | the in-place `test` only reads the document and answers as `ApplyTest`: `Ok` iff the path resolves to an equal value, `InvalidTest` otherwise |
| Op.Document.Copy | src/operation/op.rs:202-227 | the in-place `copy` agrees with `ApplyCopy` |
| Op.Document.Apply | src/operation/op.rs:25-50 | `Operation::apply` dispatches to the operation of its variant and drops its return value |
| OpProperties.RootPath | src/operation/op.rs:110-111 | with the empty path: `add` replaces the whole document and returns the old one; `replace` swaps the root; `remove` fails; `test` compares the whole document |
| OpProperties.SlashlessPath | src/operation/op.rs:113 | a non-empty path without `/` makes `add` and `remove` fail with `InvalidPointer`, leaving the document unchanged |
| OpProperties.AddRemoveFailure | src/operation/op.rs:91-148 | a failing `add` or `remove` leaves the document unchanged and reports `InvalidPointer` |
| OpProperties.FailureKinds | src/operation/op.rs:25-50 | a failing operation other than `move` leaves the document unchanged; a failure is `InvalidTest` iff the operation is a `test`, `InvalidPointer` otherwise |
| OpProperties.MemberFrame | src/operation/op.rs:115-116 | rewriting one member of an object through `pointer_mut` leaves every node outside that member unchanged |
| OpProperties.AddFrame | src/operation/op.rs:113-126 | `add` changes no node apart from its parent; under an object parent, no node outside the member it sets |
| OpProperties.RemoveFrame | src/operation/op.rs:141-147 | `remove` changes no node apart from its parent; under an object parent, no node outside the member it drops |
| OpProperties.AddObjectMember | src/operation/op.rs:116 | `add` into an object sets only that member and returns its previous value; for a key without `~` the path then resolves to the value |
| OpProperties.AddArrayElement | src/operation/op.rs:117-124 | `add` into an array: `-` appends; an accepted index inserts there and shifts later elements right; otherwise `InvalidPointer` with the document unchanged |
| OpProperties.AddToScalar | src/operation/op.rs:125 | `add` under a scalar fails with `InvalidPointer` |
| OpProperties.ArrayIndexOfShow | src/operation/op.rs:52-60 | a canonical index token resolves to that index |
| OpProperties.ResolveElement | src/operation/op.rs:52-60 | `ptr/i` resolves to element i of the array at `ptr` |
| OpProperties.AddIndexBound | src/operation/op.rs:121-123 | `add` at a canonical index i succeeds iff i ≤ length; the path then resolves to the new value; beyond the length the document is unchanged |
| OpProperties.AddAppend | src/operation/op.rs:117-120 | `add` at `-` appends: the array becomes the old one followed by the value, which is found at index length |
| OpProperties.RemoveObjectMember | src/operation/op.rs:144 | `remove` from an object succeeds iff the key is present; it deletes only that member and returns its value |
| OpProperties.RemoveArrayElement | src/operation/op.rs:145 | `remove` from an array returns the element at the accepted index, the array shrinks by one with later elements shifted left; a refused index fails with the document unchanged |
| OpProperties.RemoveIndexBound | src/operation/op.rs:145 | `remove` at a canonical index succeeds iff the index is below the length; `-` is refused |
| OpProperties.RemoveFromScalar | src/operation/op.rs:146 | `remove` under a scalar fails with `InvalidPointer` |
| OpProperties.AddIntoThenRemoveFrom | src/operation/op.rs:115-147 | removing what was just inserted into a container restores the container and returns the value |
| OpProperties.RemoveFromThenAddInto | src/operation/op.rs:115-147 | inserting back what was just removed from a container restores it |
| OpProperties.AddThenRemove | src/operation/op.rs:91-148 | `add` at a fresh member or index, then `remove` at the same path, gives back the original document and the added value |
| OpProperties.RemoveThenAdd | src/operation/op.rs:91-148 | `remove`, then `add` of the removed value at the same path, restores the document |
| OpProperties.ReplaceSwaps | src/operation/op.rs:164 | `replace` succeeds iff the path resolves; it returns the old value, the path then resolves to the new one, and replacing back restores the document; otherwise `InvalidPointer` with the document unchanged |
| OpProperties.MoveIntoChild | src/operation/op.rs:187-189 | moving into a child of `from` fails with `InvalidPointer` and leaves the document unchanged |
| OpProperties.MoveOntoItself | src/operation/op.rs:187-199 | moving a removable value onto its own path leaves the document as it was |
| OpProperties.RemoveChanges | src/operation/op.rs:130-148 | a successful `remove` always changes the document |
| OpProperties.MoveKeepsRemovalOnFailure | src/operation/op.rs:191-199 | outside the child case, `move_` is `remove` followed by `add` of the removed value; when that add fails, the removal is kept |
| OpProperties.CopyIntoObject | src/operation/op.rs:218-226 | an unresolvable `from` fails with `InvalidPointer`, document unchanged; otherwise the parent object becomes the old one with that key set to the value found at `from`, every node outside that member reads as before, the source of the copy included, and for a key without `~` a test at `path` finds the value |
| OpProperties.CopyIntoArray | src/operation/op.rs:218-226 | copy into an array: an unresolvable `from` fails with `InvalidPointer`; otherwise the value is appended for `-` or inserted at an accepted index, a refused index changes nothing, and nodes apart from the array read as before |
| OpProperties.TestOutcome | src/operation/op.rs:271-275 | `test` never changes the document; it succeeds iff the path resolves to an equal value; every failure is `InvalidTest` |
| OpProperties.TestIgnoresMemberOrder | src/operation/op.rs:271 | objects written with their members in different orders test equal |
| OpProperties.RawKeyOnAdd | src/operation/op.rs:113-116 | `add` at `/a~1b` stores the raw key `a~1b`, so a `test` at the same path fails |
| OpProperties.SignedIndexOnAdd | src/operation/op.rs:121-123 | `add` at `ptr/+i` inserts at index i, while a `test` at the same path fails |
| OpProperties.MoveToMissingParent | src/operation/op.rs:191-199 | moving `/a` of `{"a":1}` to `/x/y` fails with `InvalidPointer` and leaves `{}` |
| Sink.ClosureSink.constructor | src/traits.rs:19-22 | a closure sink has received nothing yet |
| Sink.ClosureSink.Call | src/traits.rs:19-22 | one call of the closure records the operation and answers as the closure does for this history |
| Sink.ClosureSink.PatchAdd | src/traits.rs:24-26 | calls the closure exactly once, with `Operation::Add`, and returns its answer unchanged |
| Sink.ClosureSink.PatchCopy | src/traits.rs:29-31 | forwards `Operation::Copy` once and returns the answer |
| Sink.ClosureSink.PatchMove | src/traits.rs:34-36 | forwards `Operation::Move` once and returns the answer |
| Sink.ClosureSink.PatchRemove | src/traits.rs:39-41 | forwards `Operation::Remove` once and returns the answer |
| Sink.ClosureSink.PatchReplace | src/traits.rs:44-46 | forwards `Operation::Replace` once and returns the answer |
| Sink.ClosureSink.PatchTest | src/traits.rs:49-51 | forwards `Operation::Test` once and returns the answer |
| PatchApply.Len | src/patch.rs:14-16 | `len` counts the operations and is zero exactly for a patch without any |
| PatchApply.IsEmpty | src/patch.rs:14-20 | a patch is empty iff its length is zero |
| PatchApply.ApplyMut | src/patch.rs:30-44 | the loop leaves the target and returns the result that `ApplyPatch` gives: nothing for an empty patch, a reset of a scalar target to `{}`, then the operations in order up to the first failure |
| PatchApply.ApplyRef | src/patch.rs:22-28 | returns the patched copy on success, or the error, exactly as `apply_mut` on a clone of the input |
| PatchApply.ApplyFun | src/patch.rs:46-59 | the sink receives and answers exactly as `Deliver` describes: each operation in order, stopping after the first failure, with no empty check and no reset |
| PatchProperties.RunAppend | src/patch.rs:39-41 | applying `a ++ b` applies `a`, then `b` if nothing in `a` failed |
| PatchProperties.RunSnoc | src/patch.rs:39-41 | one more operation at the end is applied only if all before it succeeded |
| PatchProperties.RunOkIffEachOk | src/patch.rs:39-43 | a patch succeeds iff each operation succeeds on the document the earlier ones left |
| PatchProperties.RunFirstFailure | src/patch.rs:39-41 | at the first failure the patch returns that error; earlier changes and the failing one's partial effect stay, later operations are not applied |
| PatchProperties.PatchStart | src/patch.rs:30-37 | an empty patch never touches the target, even a scalar; a non-empty patch starts from `{}` when the target is not a container |
| PatchProperties.ReplaceThenFailedTest | src/patch.rs:39-41 | a successful `replace` followed by a failing `test` gives `InvalidTest`, keeps the replacement and skips the rest |
| PatchProperties.DeliverToApplier | src/patch.rs:46-59 | replaying to a sink that applies each operation to its own document gives the same result and document as applying the operations directly |
| PatchProperties.ApplyFunMatchesRun | src/patch.rs:46-59 | from a fresh sink, `apply_fun` with such a sink agrees with the fold that `apply_mut` performs after its reset |
| PatchProperties.DeliverReceives | src/traits.rs:19-52 | on success the sink has received every operation in order, each answered `Ok`; on failure, the operations up to and including the first one answered with an error, and that error |
| MergePatch.MergeMut | src/merge.rs:11-30 | `merge_mut` computes the RFC 7396 merge of the patch into the target |
| MergePatch.MergeRef | src/merge.rs:3-9 | `merge_ref` returns the merge and leaves its input untouched |
| MergeProperties.MergeMembers | src/merge.rs:13-20 | against an object patch: a key is in the result iff the patch gives it a non-null value, or the patch does not mention it and the target has it; non-null members merge recursively into the target's member or into `null`; unmentioned members keep their values |
| MergeProperties.NonObjectPatchReplaces | src/merge.rs:22-24 | a patch that is not an object replaces the target, `null` included |
| MergeProperties.NonObjectTargetIsEmpty | src/merge.rs:25-28 | a target that is not an object is merged as if it were `{}` |
| MergeProperties.MergeIntoEmpty | src/merge.rs:25-28 | merging a patch with no null members into `{}` or into a non-object gives the patch itself |
| MergeProperties.MergeIdempotent | src/merge.rs:11-30 | merging the same patch twice is the same as merging it once |
| MergeProperties.AppendixA | tests/merge.rs:7-20 | examples of Appendix A of RFC 7396: overwrite, delete, keep an existing `null`, replace by `null`, non-object target |
| MergeProperties.AppendixANested | tests/merge.rs:13-21 | nested examples: a deletion inside a merged member, and nested patches merged into `{}` |

## Left out

- Decoding and encoding of operations and patches. This includes the `op` tag, field names, the transparent patch representation and the decoder's error messages. Operations are taken as already decoded values.
- Floating-point numbers. Numbers are integers, compared by value.
- Member order of objects. Objects are unordered maps, so iteration order is not modelled. The result of `merge_mut` does not depend on it, because patch keys are distinct.
- Update in place of nested nodes. A `&mut` reference into the tree is modelled as a read with `Resolve` followed by a write-back with `Put`. `merge_mut` returns the new value instead of writing through its reference. Aliasing and borrowing are not modelled.
- The generic sink interface: sinks other than closures are not modelled. A closure's own behaviour is modelled by a function of the operations it has received so far and the next one.
- Machine-word width of indices. `ParseUsize` does not reject values beyond the word size. Every limit it is compared with fits in a word, so outcomes are the same.
- The module re-exports in `src/lib.rs` and `src/operation/mod.rs`, and the per-operation record files under `src/operation/`. Their fields are the constructor arguments of `Op.Operation`.
- The conformance-suite harness in `tests/suite.rs`, which loads fixtures and prints.
