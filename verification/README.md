# Verified model of the headers carried by the compiler

The repository is a small C++ compiler; its logic-bearing files are the headers under `include/`. This
project models five of them in Dafny and proves properties of the models:

- **JSON** (`json_value`, `json_pointer`, `json_patch`, `json_diff`, `json_merge`, `json_document`,
  `json_destroy`, `json_laws` and the `_laws` files of pointers, patch elements, `diff` and `destroy`): documents
  over the default `std::map`, JSON Pointers as text (RFC 6901), the JSON Patch engine and `diff` (RFC 6902),
  JSON Merge Patch (RFC 7396), and the worklist destructor.
- **Rationals** (`number_theory`, `rational_value`, `rational`, `rational_gcd`): the class with its fields
  `num` and `den`, over an integer type that is unbounded or has a symmetric range, every operation with
  its overflow condition.
- **Tokenizers** (`token_step`, `escaped_list`, `char_separator`, `offset_separator`, `tokenizer` and the
  three `_laws` files): the three separators, the iterator that drives them, and laws of whole runs.
- **Option parsing** (`integer_parser`, `option_parser`, `option_laws`, `option_lines`, `option_flow`): the integer
  parser in machine arithmetic, the argv state machine against a specification that keeps only a log of the
  options given, the syntax of one option argument, and which command lines are read, to what, and why not.
- **Insertion-ordered map** (`ordered_map`): the vector edited in place against a finite map with an order.

`wrappers` and `decimals` hold what several of them share.

Code that works step by step is modelled by methods and classes whose contracts equate their results and new
state with specification functions; the properties are lemmas about those functions.

## How to read the model

- Patch elements are JSON objects and their paths are strings, as in the source: `diff` prints escaped keys and
  decimal indices, `patch_inplace` parses them again. Exceptions are `Exception(id)` with the library's id,
  a failed `JSON_ASSERT` is `AssertionFailure`.
- `Representable` says that every array is shorter than the largest 64-bit `size_type`, which holds of every
  `std::vector`; the array index of a pointer is rejected from that value on.
- C++ `/` and `%` are `TruncDiv` and `TruncMod`. An integer operation that leaves the range is the status
  `Overflow` (undefined behaviour in C++); nothing is said of the object then.
- A tokenizer function is a value that the iterator copies; positions in a text stand for iterators. The flag
  `assigns` chooses between the two instances of `assign_or_plus_equal`.
- `std::hash` is taken to be injective, so that an option's hash is the text hashed. Matching an argument
  against the option syntax, and parsing a value's text, are function parameters of the state machine;
  `OptionLaws.MatchArgument` is the syntax itself.

## Where the code departs from its documentation

- `operation_add` on a boolean, number or string parent reaches `JSON_ASSERT(false)`, which the comment
  calls impossible (`JsonLaws.AddAsserts`, `JsonLaws.AddUnderNumber`).
- The rational `+=` and `-=` say that their calculation avoids overflow, but a step can overflow although the
  reduced result fits (`RationalClass.SumGap`, `RationalClass.DifferenceGap`, `RationalClass.SumGapExists`,
  `RationalClass.DifferenceGapExists`); `*=` and `/=` have no such gap.
- `operation_remove` under a parent that is neither object nor array does nothing and reports nothing, where
  section 4.2 of RFC 6902 requires the target to exist (`JsonLaws.RemoveSucceeds`, `JsonLaws.RemoveUnderNumber`).
- `offset_separator` that refuses partial tokens still returns one that is a single character short
  (`OffsetSeparatorModel.PartialReturned`, `OffsetSeparatorModel.PartialSlips`), and does not terminate with
  wrapping offsets none of which is positive (`Tokenizer.Unproductive`, `Tokenizer.ZeroOffset`).
- `char_separator::reset` does not clear `m_output_done` (`CharSeparatorLaws.ReusedSeparator`,
  `CharSeparatorLaws.ReuseShows`).
- Options whose first long name and short name join to the same word share one hash, hence one count and one
  default (`OptionParsing.CountingIsExact`, `OptionParsing.CollidingNames`).
- The builds of the option parser with and without regular expressions accept different arguments
  (`OptionLaws.ArgumentBuildsAgree`, `OptionLaws.ArgumentBuildsDiffer`), and different integers
  (`IntegerParser.BuildsAgree`, `IntegerParser.BuildsDiffer`).
- A failed `add_option` leaves the names before the offending one registered, which can leave an option without
  some of its names (`OptionParsing.AddKeepsWellFormed`, `OptionParsing.HalfAdded`).
- The range constructors of `ordered_map` accept duplicate keys, and `erase(key)` then removes one entry only
  (`OrderedMapModel.ErasedForgets`, `OrderedMapModel.DuplicateStays`).

## Model

| member | source | states |
|---|---|---|
| `JsonDiff.PatchWithDiff` | include/nlohmann/json.hpp:5028-5158 | for all documents, running the diff from source to target on the source through the patch engine throws nowhere and yields the target; covers string paths with escaped keys, decimal indices, last-first removals, `/-` appends |
| `JsonDiff.DiffRewrites` | include/nlohmann/json.hpp:5035-5158 | locality: on any document that holds the source at a path, the diff made at that path replaces exactly that subtree by the target, without an exception |
| `JsonDiff.DiffPrefix` | include/nlohmann/json.hpp:5059-5126 | a diff made at prefix ++ path is the diff made at path with the prefix put before every operation's path |
| `JsonDiff.DiffEmpty` | include/nlohmann/json.hpp:5035-5038 | the diff is empty exactly between equal documents, whatever the path argument |
| `JsonDiffLaws.DiffWarranted` | include/nlohmann/json.hpp:5028-5158 | every operation of a diff is called for at the place it names: a replace between different values that are not both arrays nor both objects, a remove of what the target lacks though it has its parent, an add of a member the source lacks, an append to an array that is longer in the target |
| `JsonDiffLaws.MembersInOrder` | include/nlohmann/json.hpp:5098-5133 | members are removed, and then others added, in the order of their keys |
| `JsonDiff.ElemsRewrite` | include/nlohmann/json.hpp:5054-5062 | the first array pass turns the common elements, one after another, into the target's |
| `JsonDiff.RemovalsRewrite` | include/nlohmann/json.hpp:5067-5079 | removing the surplus elements last one first leaves exactly the first elements, every index valid when it is used |
| `JsonDiff.AppendsRewrite` | include/nlohmann/json.hpp:5082-5091 | appending through `-` restores the target's missing elements in order |
| `JsonDiff.KeysRewrite` | include/nlohmann/json.hpp:5098-5118 | the first object pass leaves the common members with the target's values and removes the others, from any intermediate state of the object |
| `JsonDiff.AddsRewrite` | include/nlohmann/json.hpp:5120-5133 | the second object pass adds exactly the members the source lacks |
| `JsonDiff.ComputeDiff` | include/nlohmann/json.hpp:5028-5158 | the recursive accumulating method computes the specified operations |
| `JsonDiff.ComputeArrayDiff` | include/nlohmann/json.hpp:5050-5094 | after the common elements, the removals, each inserted before the earlier ones, and the appends are emitted as specified |
| `JsonDiff.ComputeElemDiffs` | include/nlohmann/json.hpp:5054-5062 | the loop over the common elements emits the specified operations |
| `JsonDiff.ComputeMemberDiffs` | include/nlohmann/json.hpp:5098-5118 | the loop over the source's members emits the specified operations |
| `JsonDiff.ComputeMemberAdds` | include/nlohmann/json.hpp:5120-5133 | the loop over the target's members emits the specified operations |
| `JsonDocument.Document.PatchInPlace` | include/nlohmann/json.hpp:4747-5014 | the patch loop leaves the document and reports the error that applying the operations in order up to the first failure gives; earlier operations stay applied |
| `JsonDocument.Document.Patch` | include/nlohmann/json.hpp:5018-5023 | patching a copy gives the same outcome and leaves the document alone |
| `JsonDocument.Document.ApplyOpInPlace` | include/nlohmann/json.hpp:4889-4927 | one patch element: type checks, mandatory members and pointer parsing fail in this order |
| `JsonDocument.Document.ApplyDecodedInPlace` | include/nlohmann/json.hpp:4929-5011 | the six operations and the invalid one change the document as specified |
| `JsonDocument.Document.OperationAdd` | include/nlohmann/json.hpp:4784-4849 | add at the root, under null, object and array parents, with every error branch |
| `JsonDocument.Document.OperationRemove` | include/nlohmann/json.hpp:4852-4878 | remove under object and array parents, with every error branch and the silent case |
| `JsonPatch.ApplyOpsConcat` | include/nlohmann/json.hpp:4887-5013 | running two patches one after the other is running their concatenation |
| `JsonLaws.AddThenRemove` | include/nlohmann/json.hpp:4784-4878 | remove right after add at the same pointer restores the document exactly when the add created a member or inserted at an index |
| `JsonLaws.RemoveThenAdd` | include/nlohmann/json.hpp:4784-4878 | re-adding a removed value at its pointer restores the document |
| `JsonLaws.MoveToItself` | include/nlohmann/json.hpp:4950-4965 | move from a pointer to itself is the identity exactly when the pointer resolves and is not the root |
| `JsonLaws.AddPlaces` | include/nlohmann/json.hpp:4804-4835 | after an add, at any pointer, the value is found where it was put: at the pointer, with `-` at the array's new last index |
| `JsonLaws.TransferPlaces` | include/nlohmann/json.hpp:4950-4980 | copy and move, to any target, leave there the value the source had |
| `JsonLaws.PutElsewhere` | include/nlohmann/json.hpp:4943-4948 | writing through a pointer changes nothing at any pointer that branches off from it |
| `JsonLaws.RemoveSucceeds` | include/nlohmann/json.hpp:4852-4878 | exactly when remove succeeds, and exactly when it succeeds without doing anything (a parent that is no container) |
| `JsonLaws.RemoveUnderNumber` | include/nlohmann/json.hpp:4860-4877 | for every key, removing a member of a number is accepted and does nothing, although the target does not exist |
| `JsonLaws.AddAsserts` | include/nlohmann/json.hpp:4838-4847 | add reaches the assertion its comment calls impossible exactly when the resolved parent is a boolean, number or string |
| `JsonLaws.AddUnderNumber` | include/nlohmann/json.hpp:4838-4847 | a patch element that adds a member, by any key, to a number reaches the assertion |
| `JsonElementLaws.MoveIsRemoveAdd` | include/nlohmann/json.hpp:4950-4965 | a move element is a remove element at its source followed by an add element of what was there, and fails as reading the source does if there is none |
| `JsonElementLaws.CopyIsAdd` | include/nlohmann/json.hpp:4967-4980 | a copy element is an add element of what is at its source |
| `JsonElementLaws.ReplaceIsRemoveAdd` | include/nlohmann/json.hpp:4940-4948 | a replace element is a remove and an add at the same place, sets the root, and fails as reading the target does if there is none |
| `JsonElementLaws.TestPasses` | include/nlohmann/json.hpp:4982-5003 | a test element passes exactly on an equal value, and otherwise throws 501, or the exception about the pointer's syntax |
| `JsonElementLaws.AddSucceeds` | include/nlohmann/json.hpp:4784-4849 | add succeeds exactly at the root, under objects and nulls, and under arrays at `-` and at indices up to the length |
| `JsonElementLaws.AddFails` | include/nlohmann/json.hpp:4784-4849 | a failing add throws what reading the parent throws or, in an array, what reading the place would throw with one more element |
| `JsonElementLaws.RemoveFails` | include/nlohmann/json.hpp:4852-4878 | a failing remove throws what reading the target throws, but for the root and for `-` |
| `JsonElementLaws.AddReplacesMember` | include/nlohmann/json.hpp:4816-4821 | adding a member that exists is replacing it |
| `JsonElementLaws.AddUnderNull` | include/nlohmann/json.hpp:4808-4814 | adding under a null makes an object of it first |
| `JsonElementLaws.MalformedFails` | include/nlohmann/json.hpp:4889-4927 | a malformed element changes nothing and throws 104, 105 or the exception of its pointer text |
| `JsonElementLaws.PatchByElements` | include/nlohmann/json.hpp:4880-5013 | a patch is an array whose elements are applied one after another until one fails; anything else throws 104 |
| `JsonLaws.ThrowingKeepsDocument` | include/nlohmann/json.hpp:4929-5011 | an operation that throws leaves the document unchanged, except a move whose removal has been done |
| `JsonPointer.UnescapeEscape` | include/nlohmann/detail/string_escape.hpp:50-69 | unescaping undoes escaping for every key, given the order of the two passes |
| `JsonPointer.EscapeIsEscapeEach` | include/nlohmann/detail/string_escape.hpp:50-55 | the two replacement passes amount to escaping each character once |
| `JsonPointer.SplitAppend` | include/nlohmann/detail/json_pointer.hpp:666-724 | appending a slash and an escaped key to a pointer's text appends exactly that key to its tokens |
| `JsonPointer.SplitToText` | include/nlohmann/detail/json_pointer.hpp:68-76 | parsing a printed pointer gives back its tokens |
| `JsonPointerLaws.SplitCanonical` | include/nlohmann/detail/json_pointer.hpp:666-731 | a text is a pointer with given tokens exactly when it is the one text those tokens are printed as |
| `JsonPointerLaws.SplitFails` | include/nlohmann/detail/json_pointer.hpp:666-731 | a text that is no pointer throws 107 without a first slash and 108 with a stray tilde |
| `JsonPointerLaws.ChildFinds` | include/nlohmann/detail/json_pointer.hpp:422-464 | checked access finds a member by its key and an element by the decimal text of its index, and nothing else |
| `JsonPointerLaws.DocumentedErrors` | include/nlohmann/detail/json_pointer.hpp:214-250 | each documented exception of pointers on a small case |
| `JsonPointer.ArrayIndexCanonical` | include/nlohmann/detail/json_pointer.hpp:214-250 | a token is an index exactly when it is the decimal text of a number below the largest size_type |
| `JsonPointer.PutLaws` | include/nlohmann/detail/json_pointer.hpp:422-464 | reading what was written through a checked pointer, writing twice, and writing back what was read |
| `JsonPointer.AtConcat` | include/nlohmann/detail/json_pointer.hpp:422-464 | checked access along a concatenated pointer is access in two stages, for reading and for writing |
| `JsonValue.SortedKeys` | include/nlohmann/json_fwd.hpp:38-40 | the iteration sequence of the default map: each key once and nothing else |
| `JsonValue.SortedKeysAscend` | include/nlohmann/json_fwd.hpp:38-40 | the iteration sequence is in ascending key order |
| `JsonValue.KeyLeDecides` | include/nlohmann/json_fwd.hpp:38-40 | the order of keys is decided where they first differ |
| `JsonMerge.MergeInto` | include/nlohmann/json.hpp:5170-5194 | the loop over the patch's members, in any order, computes MergePatch of section 2 of RFC 7396 |
| `JsonDocument.Document.MergePatchInPlace` | include/nlohmann/json.hpp:5170-5194 | the document becomes MergePatch of itself and the patch |
| `JsonMerge.MergeIdempotent` | include/nlohmann/json.hpp:5170-5194 | merging the same patch twice equals merging it once, for every target and patch |
| `JsonMerge.MergeReaches` | include/nlohmann/json.hpp:5170-5194 | some patch turns a target into a wanted document exactly when every null member it has below an object is inherited from the target |
| `JsonMerge.MergeWrites` | include/nlohmann/json.hpp:5170-5194 | along any path of member names: a value in the patch takes its place, a null deletes, an object is merged with what is there |
| `JsonMerge.MergeKeeps` | include/nlohmann/json.hpp:5170-5194 | what the patch does not mention, though it has an object around it, stays as it is |
| `JsonDestroy.Destroy` | include/nlohmann/json.hpp:569-616 | every descendant is popped exactly once, in as many iterations as there are, and each item is childless when it is destructed |
| `JsonDestroyLaws.DescendantsAreFound` | include/nlohmann/json.hpp:569-616 | the values popped are exactly those that pointers below the root find |
| `JsonDestroyLaws.MemberAdds` | include/nlohmann/json.hpp:579-586 | every member of an object adds its whole tree to what is popped, whichever order members are visited in |
| `JsonDestroyLaws.ElementAdds` | include/nlohmann/json.hpp:575-578 | every element of an array adds its whole tree |
| `JsonDestroyLaws.ChildrenCount` | include/nlohmann/json.hpp:589-611 | as many children are moved to the stack as there are elements or members |
| `JsonDestroy.PopStep` | include/nlohmann/json.hpp:589-615 | one iteration lowers the number of values in the trees on the stack by exactly one, the value popped |
| `JsonDestroy.Turn` | include/nlohmann/json.hpp:589-615 | popped values and trees still on the stack together always make up the descendants |
| `RationalClass.Rational.AddAssign` | include/boost/rational.hpp:517-549 | the exact sum in lowest terms with a positive denominator, also when the operand is the object itself; overflow exactly when one of the listed steps leaves the range |
| `RationalClass.Rational.SubAssign` | include/boost/rational.hpp:552-568 | the exact difference in lowest terms, likewise |
| `RationalClass.Rational.MulAssign` | include/boost/rational.hpp:571-583 | the exact reduced product; overflow exactly when that product itself does not fit |
| `RationalClass.Rational.DivAssign` | include/boost/rational.hpp:586-612 | the exact reduced quotient; overflow exactly when it does not fit; division by zero reported without change |
| `RationalClass.Rational.AddAssignInt` | include/boost/rational.hpp:293-297 | adding an integer needs no reduction |
| `RationalClass.Rational.MulAssignInt` | include/boost/rational.hpp:305-312 | multiplication by an integer gives the reduced product; overflow exactly when it does not fit |
| `RationalClass.Rational.DivAssignInt` | include/boost/rational.hpp:314-333 | division by an integer gives the reduced quotient, with the sign on the numerator; overflow exactly when it does not fit |
| `RationalClass.Rational.Normalize` | include/boost/rational.hpp:886-916 | reaches the normal form of the same value for every non-zero denominator |
| `RationalClass.Rational.Less` | include/boost/rational.hpp:785-866 | the lockstep continued fractions terminate, never leave the range, and decide num * r.den < r.num * den exactly, for operands of any sign |
| `RationalClass.Rational.FloorSide` | include/boost/rational.hpp:806-812 | the correction of a negative first remainder gives the floor quotient within the range |
| `RationalClass.Rational.LessInt` | include/boost/rational.hpp:379-394 | comparison with an integer through the floor is exact |
| `RationalClass.QuotientsDecide` | include/boost/rational.hpp:817-826 | different quotients of the two sides decide the comparison |
| `RationalClass.NextReverses` | include/boost/rational.hpp:829-841 | going to the reciprocals of the fractional parts reverses the comparison |
| `RationalClass.SumGap` | include/boost/rational.hpp:517-549 | `+=` overflows although the reduced sum fits exactly when a cross product or the sum of the two, formed before anything is cancelled, is out of range |
| `RationalClass.DifferenceGap` | include/boost/rational.hpp:551-568 | the same of `-=` |
| `RationalClass.CoprimeNoGap` | include/boost/rational.hpp:517-549 | between operands of one sign with coprime denominators `+=` overflows exactly on a sum that does not fit |
| `RationalClass.SumGapExists` | include/boost/rational.hpp:517-549 | in a range of -127..127, adding 63/4 and -47/6 overflows on the way to 95/12 |
| `RationalClass.DifferenceGapExists` | include/boost/rational.hpp:551-568 | in a range of -127..127, subtracting 47/6 from 63/4 overflows on the way to 95/12 |
| `RationalClass.SumStepsBounded` | include/boost/rational.hpp:517-568 | no step of addition or subtraction exceeds twice the square of the largest operand |
| `RationalClass.SumStepsByLcm` | include/boost/rational.hpp:517-549 | the values `+=` forms, whose ranges decide overflow, are both fractions over the least common multiple of the denominators, their sum, and the denominator of the reduced sum |
| `RationalClass.DifferenceStepsByLcm` | include/boost/rational.hpp:551-568 | the same of `-=` |
| `RationalValue.SumIsNormal` | include/boost/rational.hpp:517-549 | dividing only by the gcd of the new numerator with the gcd of the denominators reaches the normal form of the exact sum |
| `RationalValue.DifferenceIsNormal` | include/boost/rational.hpp:552-568 | the same for the difference |
| `RationalValue.ProductIsNormal` | include/boost/rational.hpp:571-583 | cross-cancellation alone reaches the normal form of the product |
| `RationalValue.QuotientIsNormal` | include/boost/rational.hpp:586-612 | cross-cancellation and a sign fix reach the normal form of the quotient |
| `RationalValue.EqualIffSameValue` | include/boost/rational.hpp:870-873 | fieldwise equality of normalised rationals holds exactly when their values are equal |
| `RationalValue.NormalCorrect` | include/boost/rational.hpp:886-916 | the normal form is reduced and has the value it was made from |
| `RationalValue.NormalUnique` | include/boost/rational.hpp:886-916 | any reduced pair with that value is the normal form |
| `RationalValue.IsNormalizedIffReduced` | include/boost/rational.hpp:413-434 | is_normalized, run on truncated remainders of signed numbers, agrees with the class invariant |
| `RationalValue.InnerGcdIsGcd` | include/boost/rational.hpp:414-416 | the recursive signed Euclid yields the gcd up to sign |
| `RationalGcd.GcdOfDivides` | include/boost/rational.hpp:1014-1026 | both rationals are integer multiples of their gcd |
| `RationalGcd.GcdOfGreatest` | include/boost/rational.hpp:1014-1026 | every rational that divides both divides the gcd |
| `RationalGcd.LcmOfMultiple` | include/boost/rational.hpp:1028-1040 | the lcm is an integer multiple of both rationals |
| `RationalGcd.LcmOfLeast` | include/boost/rational.hpp:1028-1040 | every common multiple is a multiple of the lcm |
| `RationalGcd.GcdTimesLcm` | include/boost/rational.hpp:1014-1040 | gcd times lcm is the absolute value of the product |
| `EscapedList.EscapedListSeparator.Apply` | include/boost/token_functions.hpp:164-198 | one call in place: outcome, token, position and `last_` are those of the scanning function, error cases included |
| `EscapedListLaws.AcceptsExactly` | include/boost/token_functions.hpp:127-198 | a non-empty text is tokenized without an exception into given tokens exactly when it is a well-formed escaped list with those meanings |
| `EscapedListLaws.RoundTrip` | include/boost/token_functions.hpp:127-198 | tokenizing a printed list, each field escaped or quoted and newlines plain or escaped, gives back its fields exactly when the text is not empty; the character sets may hold several characters |
| `EscapedListLaws.PrintedEmpty` | include/boost/token_iterator.hpp:70-75 | the printed text is empty for one list only: a single empty field without quotes |
| `EscapedListLaws.ScanText` | include/boost/token_functions.hpp:174-197 | scanning printed pieces reads their meaning and goes on with what follows |
| `EscapedListLaws.ScanParses` | include/boost/token_functions.hpp:174-197 | whatever the scanner accepts was printed from some pieces |
| `CharSeparatorModel.CharSeparator.Apply` | include/boost/token_functions.hpp:459-529 | one call in place, under either policy; the token returned is the same whether it is assigned from a range or built by appending |
| `CharSeparatorModel.CharSeparator.ApplyKeep` | include/boost/token_functions.hpp:492-528 | one call under keep_empty_tokens: outcome, token, position and `m_output_done` |
| `CharSeparatorModel.CharSeparator.ApplyDrop` | include/boost/token_functions.hpp:470-490 | one call under drop_empty_tokens |
| `CharSeparatorLaws.KeepConserves` | include/boost/token_functions.hpp:492-528 | under keep_empty_tokens a non-empty text yields 1 + dropped + 2 * kept tokens, whose concatenation is the text without dropped delimiters; delimiter sets need not be disjoint |
| `CharSeparatorLaws.KeepIsCut` | include/boost/token_functions.hpp:492-528 | under keep_empty_tokens the tokens are the text cut at every delimiter, kept delimiters standing between the pieces |
| `CharSeparatorLaws.DropIsCut` | include/boost/token_functions.hpp:460-490 | under drop_empty_tokens they are the pieces that are not empty, delimiters in both sets being dropped |
| `CharSeparatorLaws.DefaultDelimiters` | include/boost/token_functions.hpp:540-575 | the characters that delimit when none are given |
| `CharSeparatorLaws.KeepRun` | include/boost/token_functions.hpp:492-528 | the same counts and concatenation from any point of a run |
| `CharSeparatorLaws.DropConserves` | include/boost/token_functions.hpp:470-490 | under drop_empty_tokens the tokens are non-empty and concatenate to the text without dropped delimiters |
| `CharSeparatorLaws.DropIsKeepWithoutEmpty` | include/boost/token_functions.hpp:470-528 | with disjoint delimiter sets, dropping empty tokens gives the kept run without its empty tokens |
| `CharSeparatorLaws.ReusedSeparator` | include/boost/token_functions.hpp:457-518 | a separator used again after a run on any text loses the empty token before a leading delimiter, and only that |
| `CharSeparatorLaws.SpentIsDone` | include/boost/token_functions.hpp:457-527 | a run on any text leaves `m_output_done` set |
| `CharSeparatorLaws.ReuseShows` | include/boost/token_functions.hpp:457-527 | the text `,a` gives an empty token and `a` on a fresh comma separator, and only `a` on one used before |
| `OffsetSeparatorModel.OffsetSeparator.Apply` | include/boost/token_functions.hpp:367-406 | one call in place; the token returned is the same on either iterator category |
| `OffsetSeparatorModel.PartialSlips` | include/boost/token_functions.hpp:400-402 | a separator that refuses partial tokens returns two characters for an offset of three |
| `OffsetSeparatorLaws.OffsetsConserve` | include/boost/token_functions.hpp:367-406 | a run has just as many tokens as it takes to use up the text or the offsets or to meet a refused partial token, and they concatenate to as much of the text as their offsets ask for; to all of it when offsets wrap and partial tokens are allowed |
| `OffsetSeparatorLaws.OffsetsLengths` | include/boost/token_functions.hpp:392-405 | each token has the length of its offset, but for the last of the text; refused partial tokens are at most one character short |
| `OffsetSeparatorLaws.TextConserves` | include/boost/token_functions.hpp:359-406 | the tokens of a whole text: just as many as it takes, counted from the first offset whatever the state of the separator given, concatenating to as much of the text as the offsets ask for |
| `OffsetSeparatorLaws.TextLengths` | include/boost/token_functions.hpp:359-406 | token `i` of a text has the length of offset `i`, counted around, but for the last |
| `Tokenizer.CallFalls` | include/boost/token_iterator.hpp:53-56 | every token of a run lowers the measure: 2 * remaining plus the flag, or the offset separator's wrap-around measure |
| `Tokenizer.Unproductive` | include/boost/token_functions.hpp:384-405 | an offset separator that wraps without a positive offset yields empty tokens for ever on a non-empty text: runs end exactly for the productive functors |
| `Tokenizer.ZeroOffset` | include/boost/token_functions.hpp:384-405 | one offset of zero that wraps yields empty tokens for ever on any non-empty text |
| `Tokenizer.TokenIterator.Initialize` | include/boost/token_iterator.hpp:70-75 | after initialize the iterator stands before exactly the tokens of the text; no characters, no tokens |
| `Tokenizer.Restart` | include/boost/token_functions.hpp:359-363 | each separator's reset, as the specification has it |
| `Tokenizer.TokenIterator.Increment` | include/boost/token_iterator.hpp:53-56 | increment passes exactly one token |
| `Tokenizer.Collect` | include/boost/token_iterator.hpp:41-75 | iterating from begin to end collects exactly the tokens of the text, on either iterator category |
| `IntegerParser.ParseInteger` | include/cxxopts.hpp:746-799 | a text is accepted exactly when its digits are of its base, the integer it denotes is in the range of T, and it is unsigned if T is; that integer is returned |
| `IntegerParser.ChecksDecide` | include/cxxopts.hpp:780-787 | the two checks before a digit is taken in hold exactly when the limit would be exceeded; otherwise nothing wraps, at every machine width |
| `IntegerParser.CheckedResult` | include/cxxopts.hpp:704-744 | range check and final conversion; negative text for an unsigned type is rejected |
| `IntegerParser.NegateReaches` | include/cxxopts.hpp:733-739 | checked_negate reaches every magnitude up to that of the smallest value |
| `IntegerParser.PrintedRoundTrip` | include/cxxopts.hpp:613-633 | round trip through the text: every integer, printed in decimal, is read back as itself if it is a value of the type, the smallest included, and rejected if not |
| `IntegerParser.HexRoundTrip` | include/cxxopts.hpp:746-799 | the same in base 16, with digits of either case |
| `IntegerParser.SignRejected` | include/cxxopts.hpp:726-731 | no signed text is read as an unsigned integer |
| `IntegerParser.Ranges` | include/cxxopts.hpp:746-752 | the ranges are those of two's complement at each width |
| `IntegerParser.BuildsAgree` | include/cxxopts.hpp:461-620 | the builds with and without regular expressions read a text as the same integer, or both reject it, exactly when it does not hold a NUL after the text of an integer of the type |
| `IntegerParser.BuildsDiffer` | include/cxxopts.hpp:461-620 | a digit followed by a NUL is read by one build and rejected by the other |
| `OptionParsing.OptionParser.Parse` | include/cxxopts.hpp:1849-1986 | log, left-over arguments and errors are those of the specified reading of the command line; every count is the number of log entries; defaults are those of the options the part before `--` leaves unset |
| `OptionParsing.OptionParser.ParseHead` | include/cxxopts.hpp:1850-1948 | the main loop ends with the position within argc and the specified state |
| `OptionParsing.OptionParser.ParseOne` | include/cxxopts.hpp:1862-1947 | one argument: positional, group, long option or unrecognised, as specified |
| `OptionParsing.OptionParser.ParseGroup` | include/cxxopts.hpp:1885-1916 | short options written together |
| `OptionParsing.OptionParser.CheckedParseArg` | include/cxxopts.hpp:1776-1793 | implicit value, next argument or missing argument |
| `OptionParsing.OptionParser.ConsumePositional` | include/cxxopts.hpp:1804-1826 | the first positional that is a container or not yet given takes the argument |
| `OptionParsing.OptionParser.Record` | include/cxxopts.hpp:1766-1802 | one more entry in the log and one more in the count of its hash |
| `OptionParsing.OptionParser.PutDefaults` | include/cxxopts.hpp:1950-1963 | one acceptable default for each hash with a defaulted option and no entry, whatever the order and number of names, and no other; it fails only on such a default that is not acceptable |
| `OptionParsing.OptionParser.FinaliseAliases` | include/cxxopts.hpp:1988-1999 | every non-empty name leads to its option's hash, which has an entry |
| `OptionParsing.OptionParser.ParseRest` | include/cxxopts.hpp:1965-1978 | arguments after `--`: positionals as long as one takes them, then left over |
| `OptionParsing.OneLegal` | include/cxxopts.hpp:1856-1948 | each argument moves the position forward and never past the end, so the loop ends |
| `OptionParsing.DefaultsOncePerOption` | include/cxxopts.hpp:1950-1963 | without hash collisions each defaulted option not given is listed exactly once, despite aliases, and no other is |
| `OptionParsing.DefaultsAcceptedExactly` | include/cxxopts.hpp:1950-1963 | without hash collisions the defaults put in are acceptable exactly when every option not given has an acceptable default or none |
| `OptionParsing.CountingIsExact` | include/cxxopts.hpp:1053 | counting by hash counts each option's own entries, for every log, exactly when no two options collide |
| `OptionParsing.CollidingNames` | include/cxxopts.hpp:1053 | the options `b,foo` and `foob` do collide, since their names are joined before hashing |
| `OptionLines.HeadExactly` | include/cxxopts.hpp:1849-1948 | the main loop reads a command line to its end, or past a `--`, exactly when the line up to there is written from items (long options, groups of short ones, letters that are let through, positionals whose turn it is, arguments nothing takes), and ends in the state these leave |
| `OptionLines.LogRoundTrip` | include/cxxopts.hpp:1849-1948 | round trip: a command line written from items is read back entry for entry, with just the arguments left over that no option takes |
| `OptionLines.OneIsItem` | include/cxxopts.hpp:1856-1948 | whatever one turn of the main loop reads is an item |
| `OptionLines.ItemReads` | include/cxxopts.hpp:1856-1948 | an item is read as itself |
| `OptionFlow.RestConserves` | include/cxxopts.hpp:1965-1978 | the arguments after `--` are, in order, the values of the new entries and then the arguments left over, of which there are none while a positional can take one |
| `OptionFlow.RestGivesOnce` | include/cxxopts.hpp:1965-1978 | an option that takes one value is not given again by an argument after `--` |
| `OptionFlow.PositionalTakes` | include/cxxopts.hpp:1804-1826 | a bare argument goes to the first positional that is not passed over; that is never an option that takes one value and has it |
| `OptionFlow.PositionalLeaves` | include/cxxopts.hpp:1804-1826 | it is left over exactly when every positional from the next one on is passed over |
| `OptionFlow.HeadFails` | include/cxxopts.hpp:1849-1948 | a run that fails has read up to an argument that cannot be read, for a reason in that argument |
| `OptionFlow.OneFails` | include/cxxopts.hpp:1856-1948 | each kind of failure has its reason in the argument it is reported for |
| `OptionLines.PrintedLog` | include/cxxopts.hpp:1849-1948 | any log of entries that fit in one argument each is what some command line is read as |
| `OptionLines.MatchLong` | include/cxxopts.hpp:603-690 | the option syntax reads a long name and its value, which may hold `=`, back from `--name=value` |
| `OptionLaws.ParseArgumentByHand` | include/cxxopts.hpp:555-590 | the scan without regular expressions matches an argument exactly when its name characters run up to the `=` or the end |
| `OptionLaws.ArgumentBuildsAgree` | include/cxxopts.hpp:555-693 | the builds with and without regular expressions agree on an argument exactly when a long name has a `.` just if its value is broken over lines, and a one-line short group is all letters and digits |
| `OptionLaws.ArgumentBuildsDiffer` | include/cxxopts.hpp:555-693 | arguments on which the two builds differ: `-oa.q` and `--a.b` |
| `OptionLaws.GroupsAreLines` | include/cxxopts.hpp:600-604 | a short group does not go over a line break |
| `OptionParsing.AddOption` | include/cxxopts.hpp:2006-2042 | an option is registered under all its names exactly when none is taken or repeated; otherwise the names before the first such one stay registered |
| `OptionParsing.AddKeepsWellFormed` | include/cxxopts.hpp:2006-2042 | registration, also a failed one, keeps every option under each of its names exactly when it registered nothing or left no name out |
| `OptionParsing.HalfAdded` | include/cxxopts.hpp:2006-2042 | adding `f,bar` where another option is named `bar` registers `f` and leaves `bar` leading elsewhere |
| `OrderedMapModel.RunRefines` | include/nlohmann/ordered_map.hpp:30-356 | over every run of commands from distinct keys the vector is the finite map together with its insertion order |
| `OrderedMapModel.ExecuteRefines` | include/nlohmann/ordered_map.hpp:54-258 | one command on the vector is the command on map and order, and keeps keys distinct |
| `OrderedMapModel.LookupAgrees` | include/nlohmann/ordered_map.hpp:286-298 | lookups agree with the map |
| `OrderedMapModel.InsertedRange` | include/nlohmann/ordered_map.hpp:347-353 | inserting a range leaves each key already there with its old value and gives each new one the first value there is for it, and only adds entries at the end |
| `OrderedMapModel.InsertedInOrder` | include/nlohmann/ordered_map.hpp:347-353 | the entries added are those of the range whose key is not there yet, in their order |
| `OrderedMapModel.WithoutRangeRefines` | include/nlohmann/ordered_map.hpp:207-258 | range erase removes exactly the erased keys and keeps the order of the others |
| `OrderedMapModel.ErasedForgets` | include/nlohmann/ordered_map.hpp:162-179 | without distinct keys, erase(key) leaves the key absent exactly when it had at most one entry |
| `OrderedMapModel.DuplicateStays` | include/nlohmann/ordered_map.hpp:162-179 | of two entries of one key, erasing the key leaves the second |
| `OrderedMapModel.OrderedMap.Find` | include/nlohmann/ordered_map.hpp:286-298 | the scan finds the first entry of the key, or the end |
| `OrderedMapModel.OrderedMap.EmplaceBack` | include/nlohmann/ordered_map.hpp:54-65 | a present key wins; an absent one is appended; position and flag returned |
| `OrderedMapModel.OrderedMap.IndexAssign` | include/nlohmann/ordered_map.hpp:82-85 | assignment through operator[] updates in place or appends |
| `OrderedMapModel.OrderedMap.EraseKey` | include/nlohmann/ordered_map.hpp:162-179 | shifting each later entry down and dropping the last removes exactly the first entry of the key |
| `OrderedMapModel.OrderedMap.EraseBetween` | include/nlohmann/ordered_map.hpp:207-258 | the shifting loop and the resize leave exactly prefix and suffix in order; the position returned is that of the suffix |
| `OrderedMapModel.OrderedMap.InsertAll` | include/nlohmann/ordered_map.hpp:347-353 | inserting a range is emplacing its entries one after another |

## Left out

- The compiler's own passes, the generated lexer interface and the remaining Boost and logging headers: no logic
  among the repository's files, or only types and forwarding.
- JSON text and binary formats, iterators, conversions, floating-point and binary values, discarded values, and
  comparison of different number kinds: one kind of number stands for all.
- Aliasing into a document: a reference returned by `at` is modelled by rebuilding the document with the new
  subtree (`Put`), and a patch or merge argument that is part of the patched document is not modelled.
- The order in which the operands of `==` and `=` are evaluated in the `test` and `replace` operations is
  unspecified before C++17; the model looks the "value" member up first. Either order throws, or changes nothing.
- `ordered_json` for `diff`: its object equality depends on order.
- `replace_substring` and `split` are modelled by the functions their loops compute.
- The uninitialised-pointer guard and the deallocation at the end of `destroy`.
- The `INT_MIN` cases of rationals and the singular-denominator check of `normalize`, which cannot arise in a
  symmetric range; stream input and output, narrowing conversions, and the non-member operators, which copy and
  call the modelled ones.
- `operator-=` by an integer and `++`/`--` of rationals: `AddAssignInt` with the sign or the operand changed.
- `integer::gcd` and `integer::lcm` are the non-negative gcd and lcm; their implementations are not modelled.
- Locale-dependent classification: `isspace` and `ispunct` are those of the "C" locale. The deprecated
  `char_delimiters_separator` is not part of this model.
- After a separator throws, the iterator's state is not described.
- The magnitude of the smallest 64-bit integer is taken mathematically, where the source calls `std::abs` on it.
- Regular-expression matching in general: the patterns for integers and option arguments are written out, in the
  "C" locale; the pattern for option specifiers is not part of this model.
- The texts of exceptions, help formatting, value storage and the parsing of values other than integers.
- OptionParsing.OptionParser.Parse: takes the program's name as given. With `argc` 0 the source's loop starts past
  the end, at 1, and reads beyond `argv`; no behaviour is stated for that.
- OptionParsing.OptionParser.ParseHead: the same.
- `std::hash` collisions between different texts.
