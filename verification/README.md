# CDragon: a verified model

CDragon is a C++ web server that carries its own copies of several libraries. This project
models the parts of them, and of the server itself, that do more than pass data along, and
proves what they keep and what they promise.

| file | what it models |
|---|---|
| `Wrappers.dfy` | option and result types, and associativity of concatenation |
| `JsonValues.dfy` | JSON values, the library's own equality, and object iteration order |
| `JsonPointer.dfy` | pointer texts, escaping by two replacement passes, array indices |
| `JsonPatch.dfy` | RFC 6902 patches run in place on a document object |
| `JsonDiff.dfy` | building a patch from two values, and the law that it rebuilds the target |
| `JsonMerge.dfy` | `merge_patch` (RFC 7396) and `update`, and where the two agree |
| `JsonDestroy.dfy` | tearing a value down with an explicit stack |
| `Blowfish.dfy` | the cipher as a Feistel network, and both key schedules over mutable tables |
| `BlowfishModes.dfy` | ECB and CBC in place, the vector aliasing the buffer |
| `BcryptBase64.dfy` | bcrypt's base-64 without padding |
| `Bcrypt.dfy` | settings, hashing, and checking a password against a stored hash |
| `CyclicStreams.dfy` | words repeated without end, and when two of them are the same stream |
| `Base64.dfy` | four base-64 printers and one liberal decoder |
| `Amalgamation.dfy` | the include amalgamator over any include graph |
| `OrderedMap.dfy` | the vector-backed map that keeps insertion order |
| `Sessions.dfy` | sliding session expiry as runs over a clock |
| `Utf8Truncate.dfy` | cutting UTF-8 text to a number of characters |

`dafny verify dfyconfig.toml` checks everything.

## How the code is stated

- What the code changes step by step is a method here: patches run on a `Document`, the key
  schedules on a `BlowfishState`, the ciphers on arrays, the amalgamator on its list of
  included files, `ordered_map` on its vector, the session repository on its map. Each method
  is tied to a function of the old state, and the theorems are about those functions.
- An exception is an error value together with the state it leaves. Error numbers are the
  library's.
- Equality of JSON values is the library's: numbers of different kinds are converted, NaN and
  discarded values equal nothing. So the law of `diff` is stated with the exact condition
  under which it holds (`PatchOfDiffRebuildsTarget`, `LawFailsForNaN`); the documentation
  says it always does.
- An IEEE double is its value: a real, an infinity or NaN. +0 and -0 are one value.
  Conversion of a 64-bit integer rounds to 53 bits, ties to even.
- Two reads are unordered in C++ or depend on the standard in force. `replace` is taken to
  fetch its value before it resolves its path, as C++17 requires; `test` is taken to fetch
  its value first too.
- `remove` below a primitive value changes nothing and does not throw, and `add` below null
  turns it into an object. RFC 6902 asks for an error in both cases; the model follows the
  code. `RemoveSucceedsExactlyWhen` and `AddMeetsRfcExactlyWhen` say when the code does what
  the standard asks, `RemoveBelowPrimitive` and `AddBelowNull` show it failing.
- `add` below any other primitive value runs into `JSON_ASSERT(false)`. The model stops there
  with the error `AssertionFailed`, which stands for the program being aborted, not for an
  exception. A build with NDEBUG goes on instead, with the document unchanged.
- The Blowfish tables, bcrypt's seed, the time, generated session ids and the file system's
  contents are parameters, so every statement is for any of them. The salt bytes that a
  setting's text fails to decode are whatever the buffer held (`junk`).
- Reading a C string at its end, or past it, gives NUL.
- What a moved-from `ordered_map` entry holds is a parameter (`movedFrom`).
- Session times are integers in ticks of the system clock; `isSessionOk` reads the clock
  twice, once to validate and once to extend, and so does its model.
- `Blowfish_decipher` writes out the rounds of `Blowfish_encipher` with the subkeys in reverse
  order; the model runs the same sixteen rounds over the reversed subkeys. The four S-boxes
  are one table of 1024 words, as the cipher itself indexes them.
- The amalgamator turns a directive into a line comment, but its pattern lets white space and
  the path span lines. A directive that holds a newline is therefore commented out only up to
  it (`CommentedOutExactlyWhen`).

## Model

| member | source | states |
|---|---|---|
| JsonValues.EqualToItself | CDragon/lib/json-develop/include/nlohmann/json.hpp:3580-3667 | `j == j` holds exactly when nothing inside `j` is NaN or discarded |
| JsonValues.EqualOnlyIfClean | CDragon/lib/json-develop/include/nlohmann/json.hpp:3580-3667 | two values that compare equal are both free of NaN and discarded values, also across number kinds |
| JsonValues.EqualExactlyWhenSame | CDragon/lib/json-develop/include/nlohmann/json.hpp:3580-3667 | as long as no two kinds of numbers meet, values are equal exactly when they are one and the same clean value, at any depth |
| JsonValues.SignedEqualsUnsignedExactlyWhen | CDragon/lib/json-develop/include/nlohmann/json.hpp:3636-3643 | a signed and an unsigned number are equal exactly when they differ by a multiple of 2^64 |
| JsonValues.IntegerEqualsFloatExactlyWhen | CDragon/lib/json-develop/include/nlohmann/json.hpp:3620-3627 | up to 2^53 a signed number equals a float exactly when the two are the same number |
| JsonValues.UnsignedEqualsFloatExactlyWhen | CDragon/lib/json-develop/include/nlohmann/json.hpp:3628-3635 | the same for an unsigned number |
| JsonValues.RoundsToNearest | CDragon/lib/json-develop/include/nlohmann/json.hpp:3620-3635 | beyond, the conversion rounds to the nearest number of 53 significant bits, halfway to the even one |
| KeyOrder.BeforeExactlyWhen | CDragon/lib/json-develop/include/nlohmann/json.hpp:3441 | a key comes first exactly when it is a beginning of the other or smaller where they first differ |
| KeyOrder.SortedKeys | CDragon/lib/json-develop/include/nlohmann/json.hpp:3441-3457 | object iteration visits each key exactly once, in ascending byte order |
| KeyOrder.Least | CDragon/lib/json-develop/include/nlohmann/json.hpp:5050-5052 | `begin()` is the unique key that comes before all others |
| JsonPointer.ReplaceSubstring | CDragon/lib/json-develop/include/nlohmann/detail/string_escape.hpp:30-39 | the find/replace loop leaves the leftmost non-overlapping replacement of every occurrence |
| JsonPointer.TwoPassEscape | CDragon/lib/json-develop/include/nlohmann/detail/string_escape.hpp:49-55 | replacing `~` first and `/` second escapes every character exactly once |
| JsonPointer.TwoPassUnescape | CDragon/lib/json-develop/include/nlohmann/detail/string_escape.hpp:64-69 | replacing `~1` first and `~0` second undoes exactly one escape per `~`, on every text `split` lets through |
| JsonPointer.Escape | CDragon/lib/json-develop/include/nlohmann/detail/string_escape.hpp:49-55 | the two in-place passes give the character-by-character escape of section 4 of RFC 6901 |
| JsonPointer.Unescape | CDragon/lib/json-develop/include/nlohmann/detail/string_escape.hpp:64-69 | the two in-place passes give the character-by-character unescape |
| JsonPointer.UnescapeUndoesEscape | CDragon/lib/json-develop/include/nlohmann/detail/string_escape.hpp:49-69 | escaped text has no slash, is well escaped, and unescapes to the original |
| JsonPointer.EscapeUndoesUnescape | CDragon/lib/json-develop/include/nlohmann/detail/string_escape.hpp:49-69 | on well-escaped, slash-free text escaping undoes unescaping |
| JsonPointer.Split | CDragon/lib/json-develop/include/nlohmann/detail/json_pointer.hpp:666-722 | the slash-to-slash loop returns the tokens, or error 107 or 108, exactly as the recursive parse does |
| JsonPointer.SplitTokens | CDragon/lib/json-develop/include/nlohmann/detail/json_pointer.hpp:684-720 | the body of that loop, tokens and errors, for any non-empty text |
| JsonPointer.CheckEscapes | CDragon/lib/json-develop/include/nlohmann/detail/json_pointer.hpp:703-716 | the search loop accepts a token exactly when every `~` is followed by `0` or `1` |
| JsonPointer.ParseRender | CDragon/lib/json-develop/include/nlohmann/detail/json_pointer.hpp:62-76 | parsing the text of a pointer gives its tokens back, whatever characters they hold |
| JsonPointer.RenderParse | CDragon/lib/json-develop/include/nlohmann/detail/json_pointer.hpp:62-76 | whatever text parses is the text of its tokens |
| JsonPointer.ParsesExactlyWhen | CDragon/lib/json-develop/include/nlohmann/detail/json_pointer.hpp:666-722 | a text is a pointer exactly when it is empty, or starts with a slash and escapes properly |
| JsonPointer.IndexTokens | CDragon/lib/json-develop/include/nlohmann/detail/json_pointer.hpp:213-249 | a token is array index n exactly when it is the decimal text of n and n is below 2^64-1 |
| JsonPointer.DecimalAppends | CDragon/lib/json-develop/include/nlohmann/json.hpp:5011-5012 | one more digit behind an index text is one more decimal digit of the index |
| JsonPointer.IndexErrors | CDragon/lib/json-develop/include/nlohmann/detail/json_pointer.hpp:213-249 | which error a token that is no index throws: 106, 109, 410 or 404 |
| JsonPatch.Document.At | CDragon/lib/json-develop/include/nlohmann/detail/json_pointer.hpp:421-465 | the `get_checked` loop returns the addressed value, or the error of the first token that does not resolve |
| JsonPatch.Document.OperationAdd | CDragon/lib/json-develop/include/nlohmann/json.hpp:4736-4801 | the document after an add, or unchanged with the error thrown |
| JsonPatch.Document.OperationRemove | CDragon/lib/json-develop/include/nlohmann/json.hpp:4804-4830 | the document after a remove, or unchanged with the error thrown |
| JsonPatch.Document.RunOperation | CDragon/lib/json-develop/include/nlohmann/json.hpp:4881-4963 | the document after any of the six operations, or as far as it got with the error thrown |
| JsonPatch.Document.PatchInplace | CDragon/lib/json-develop/include/nlohmann/json.hpp:4832-4965 | the document after a whole patch; a failing operation stops it and what was done stays |
| JsonPatch.Document.Patch | CDragon/lib/json-develop/include/nlohmann/json.hpp:4970-4975 | the patched copy or the error; the document itself does not change |
| JsonPatch.DecodeEncode | CDragon/lib/json-develop/include/nlohmann/json.hpp:4842-4955 | an operation spelled as a JSON object is read back as that operation, for all six kinds |
| JsonPatch.DecodesExactlyWhen | CDragon/lib/json-develop/include/nlohmann/json.hpp:4842-4963 | which patch elements are read as operations, as which of the six, and which error the others throw |
| JsonPatch.FirstUnresolvedToken | CDragon/lib/json-develop/include/nlohmann/detail/json_pointer.hpp:421-465 | the first token that does not resolve decides the error, by what it meets and what it is |
| JsonPatch.OperationErrors | CDragon/lib/json-develop/include/nlohmann/json.hpp:4736-4955 | the errors of add, remove, test and of a patch that is no array, each leaving the document as it was |
| JsonPatch.ApplyEncoded | CDragon/lib/json-develop/include/nlohmann/json.hpp:4839-4965 | running a spelled-out patch is running its operations one after another |
| JsonPatch.ApplyInParts | CDragon/lib/json-develop/include/nlohmann/json.hpp:4839-4965 | patching with p1 ++ p2 is patching with p1, then with p2 on what p1 left, and not at all if p1 threw; malformed elements included |
| JsonPatch.GetViaParent | CDragon/lib/json-develop/include/nlohmann/detail/json_pointer.hpp:421-465 | resolving a pointer is resolving its parent and then one more token, errors included |
| JsonPatch.PutGet | CDragon/lib/json-develop/include/nlohmann/json.hpp:4895-4899 | what is assigned through `at(ptr)` is read back there, and the last assignment wins |
| JsonPatch.PutSame | CDragon/lib/json-develop/include/nlohmann/json.hpp:4895-4899 | assigning the value already there changes nothing |
| JsonPatch.SetChildFrame | CDragon/lib/json-develop/include/nlohmann/detail/json_pointer.hpp:421-465 | a child reads back as written, and every sibling stays as it was |
| JsonPatch.LiftRun | CDragon/lib/json-develop/include/nlohmann/json.hpp:4736-4955 | an operation addressed through an existing child acts on that child alone, or throws as it would there |
| JsonPatch.LiftRunAll | CDragon/lib/json-develop/include/nlohmann/json.hpp:4736-4965 | prefix lifting: a patch whose paths all start with one existing token, and that adds or removes nothing at it, is the stripped patch on that child |
| JsonPatch.ApplyDecoded | CDragon/lib/json-develop/include/nlohmann/json.hpp:4839-4965 | a patch document runs as the operations its elements are read as, however they are spelled |
| JsonPatch.DecodeLifted | CDragon/lib/json-develop/include/nlohmann/json.hpp:4842-4955 | an element whose pointers get one more token in front is read as the lifted operation, and fails the same way if it fails |
| JsonPatch.LiftDocument | CDragon/lib/json-develop/include/nlohmann/json.hpp:4736-4965 | prefix lifting for whole patch documents: pointers that all go through one existing child act on that child as the stripped document does alone, malformed elements and exceptions included |
| JsonPatch.EncodeLift | CDragon/lib/json-develop/include/nlohmann/json.hpp:5011-5012 | spelling an operation below a longer path prefix is spelling the operation lifted by that token |
| JsonPatch.TopCheckIsRedundant | CDragon/lib/json-develop/include/nlohmann/json.hpp:4745-4750 | the separate check of the top token throws only what resolving the parent throws anyway |
| JsonPatch.RemoveSucceedsExactlyWhen | CDragon/lib/json-develop/include/nlohmann/json.hpp:4804-4830 | remove succeeds exactly when its target exists or its parent is a primitive value, and then changes nothing |
| JsonPatch.RemoveBelowPrimitive | CDragon/lib/json-develop/include/nlohmann/json.hpp:4804-4830 | removing below a string goes through and changes nothing, against section 4.2 of RFC 6902 |
| JsonPatch.AddSucceedsExactlyWhen | CDragon/lib/json-develop/include/nlohmann/json.hpp:4736-4801 | add goes through exactly at the root, or when the parent is null, an object, or an array with a position for the last token |
| JsonPatch.AddMeetsRfcExactlyWhen | CDragon/lib/json-develop/include/nlohmann/json.hpp:4736-4801 | every add that section 4.1 of RFC 6902 allows goes through; one that goes through is allowed exactly when the parent is not null, and a null parent becomes an object with that one member |
| JsonPatch.AddBelowNull | CDragon/lib/json-develop/include/nlohmann/json.hpp:4758-4766 | adding below null goes through, against section 4.1 of RFC 6902 |
| JsonPatch.RemoveUndoesAdd | CDragon/lib/json-develop/include/nlohmann/json.hpp:4736-4830 | after adding a new member or inserting an element, the value is there, and removing it restores the document |
| JsonPatch.OperationsByMeaning | CDragon/lib/json-develop/include/nlohmann/json.hpp:4895-4955 | move is a remove and an add of the value removed, copy an add of the value found, replace leaves its value in a place that existed, test passes exactly when the value found equals the one given |
| JsonPatch.PutFrame | CDragon/lib/json-develop/include/nlohmann/json.hpp:4895-4899 | assigning through `at(ptr)` leaves every location that is neither above nor below as it was |
| JsonPatch.MemberFrame | CDragon/lib/json-develop/include/nlohmann/json.hpp:4758-4826 | adding or removing an object member leaves every location that is neither above nor below it as it was |
| JsonPatch.ElementsMoveUp | CDragon/lib/json-develop/include/nlohmann/json.hpp:4776-4786 | inserting an array element moves the elements from its position on up by one, with all below them, and changes no other |
| JsonPatch.ElementsMoveDown | CDragon/lib/json-develop/include/nlohmann/json.hpp:4825-4829 | removing an array element moves the elements behind it down by one, with all below them, and changes no other |
| JsonPatch.MoveIntoItselfSucceedsExactlyWhen | CDragon/lib/json-develop/include/nlohmann/json.hpp:4902-4917 | moving a value below itself goes through exactly when it is an array element, another one follows, and the rest of the path can be added in that one; it ends up there |
| JsonPatch.MoveIntoItselfCanSucceed | CDragon/lib/json-develop/include/nlohmann/json.hpp:4902-4917 | a two-element array in which moving `/0` to `/0/x` succeeds, against section 4.4 of RFC 6902 |
| JsonDiff.Diff | CDragon/lib/json-develop/include/nlohmann/json.hpp:4980-5112 | the recursive loops write out, with full escaped paths, the operations that the reference definition lists |
| JsonDiff.DiffArrays | CDragon/lib/json-develop/include/nlohmann/json.hpp:5006-5043 | the three array loops: common elements in order, removals last index first, appends with `/-` |
| JsonDiff.TraverseSource | CDragon/lib/json-develop/include/nlohmann/json.hpp:5050-5070 | the first object pass: nested diffs for shared keys, removals for the others |
| JsonDiff.TraverseTarget | CDragon/lib/json-develop/include/nlohmann/json.hpp:5072-5088 | the second object pass: an add for every key that is only in the target |
| JsonDiff.EmptyExactlyWhenEqual | CDragon/lib/json-develop/include/nlohmann/json.hpp:4987-4990 | the diff is empty exactly when the library calls the two values equal |
| JsonDiff.DiffIsDiffShaped | CDragon/lib/json-develop/docs/mkdocs/docs/api/basic_json/diff.md:37-39 | a diff holds only add, remove and replace operations, and none that adds or removes the root |
| JsonDiff.DiffIsAimed | CDragon/lib/json-develop/include/nlohmann/json.hpp:4987-5108 | a diff replaces only where the values differ and no more than it has to, removes only what the target lacks, and adds only what the source lacks |
| JsonDiff.DiffIsSeparate | CDragon/lib/json-develop/include/nlohmann/json.hpp:4987-5108 | no two operations of a diff aim at the same place or one below the other, appends to one array apart |
| JsonDiff.DiffRebuilds | CDragon/lib/json-develop/include/nlohmann/json.hpp:4980-5112 | running the diff completes, and rebuilds a target free of NaN and discarded values |
| JsonDiff.PatchOfDiffRebuildsTarget | CDragon/lib/json-develop/docs/mkdocs/docs/api/basic_json/diff.md:11-14 | `s.patch(diff(s, t))` never throws, and its result equals `t` exactly when `t` holds no NaN and no discarded value |
| JsonDiff.LawFailsForNaN | CDragon/lib/json-develop/docs/mkdocs/docs/api/basic_json/diff.md:11-14 | an array holding NaN: its diff against itself is not empty, and applying it does not give an equal value |
| JsonMerge.MergePatch | CDragon/lib/json-develop/include/nlohmann/json.hpp:5122-5146 | the member loop computes the MergePatch function of section 2 of RFC 7396 |
| JsonMerge.MergeOntoNonObject | CDragon/lib/json-develop/include/nlohmann/json.hpp:5122-5146 | on a target that is no object the result is the patch with null members stripped, through objects but not arrays |
| JsonMerge.StrippedSameExactlyWhen | CDragon/lib/json-develop/include/nlohmann/json.hpp:5133-5136 | stripping changes a value exactly when some member, through objects, is null |
| JsonMerge.MergeIsIdempotent | CDragon/lib/json-develop/include/nlohmann/json.hpp:5122-5146 | applying a merge patch twice is applying it once |
| JsonMerge.MergeKeepsNullFree | CDragon/lib/json-develop/include/nlohmann/json.hpp:5122-5146 | a target without null members has none after any merge patch |
| JsonMerge.Update | CDragon/lib/json-develop/include/nlohmann/json.hpp:3415-3458 | the object after `update`, or as far as it got with error 312 thrown, for both settings of `merge_objects` |
| JsonMerge.UpdateLoop | CDragon/lib/json-develop/include/nlohmann/json.hpp:3441-3457 | the member loop of `update`, nested updates and early exit included |
| JsonMerge.MergingUpdate | CDragon/lib/json-develop/include/nlohmann/json.hpp:3415-3458 | a merging update throws exactly when an incoming object meets a value that is neither object nor null; otherwise the result does not depend on key order |
| JsonMerge.PlainUpdate | CDragon/lib/json-develop/include/nlohmann/json.hpp:3441-3453 | without merging, incoming members replace existing ones and nothing throws |
| JsonMerge.PlainUpdateResult | CDragon/lib/json-develop/include/nlohmann/json.hpp:3408-3458 | a plain update of an object or null by an object leaves both their members, the incoming ones winning |
| JsonMerge.UpdateThrows312 | CDragon/lib/json-develop/include/nlohmann/json.hpp:3417-3440 | update of anything else, or by anything else, throws error 312 and leaves the target, an object for null |
| JsonMerge.MergedMember | CDragon/lib/json-develop/include/nlohmann/json.hpp:5130-5140 | a merge patch by member: null removes, other values merge or replace, members not named stay |
| JsonMerge.UnionIsMerge | CDragon/lib/json-develop/include/nlohmann/json.hpp:3415-3458 | where a merging update completes, it leaves what the merge patch leaves exactly when the incoming object has no null member |
| JsonMerge.UpdateAgreesWithMergeExactlyWhen | CDragon/lib/json-develop/include/nlohmann/json.hpp:3415-3458 | `update(j, true)` and `merge_patch(j)` leave the same object exactly when `j` has no null member and nowhere clashes |
| JsonMerge.MergePatchDocument | CDragon/lib/json-develop/include/nlohmann/json.hpp:5122-5146 | `merge_patch` overwrites the document it is called on |
| JsonMerge.UpdateDocument | CDragon/lib/json-develop/include/nlohmann/json.hpp:3408-3411 | `update` overwrites the document it is called on, partly if it throws |
| JsonDestroy.Destroy | CDragon/lib/json-develop/include/nlohmann/json.hpp:564-611 | the explicit stack pops every proper descendant exactly once, with multiplicity, and the pending node count falls each turn; each item has no children left at the end of its turn |
| JsonDestroy.PendingChildren | CDragon/lib/json-develop/include/nlohmann/json.hpp:571-583 | moving a value's children to the stack leaves exactly its proper descendants to do |
| JsonDestroy.PopStep | CDragon/lib/json-develop/include/nlohmann/json.hpp:585-607 | one turn takes one node off what is pending and puts nothing new on |
| Blowfish.RoundsUndo | CDragon/lib/bcryptcpp/src/blowfish.cpp:58-82 | any number of rounds is undone by the rounds with reversed subkeys on swapped halves, for any round function |
| Blowfish.NetworkUndo | CDragon/lib/bcryptcpp/src/blowfish.cpp:60-108 | the network with exchanged and reversed subkeys undoes the network, for any round function and cancelling xor |
| Blowfish.EncipherByRounds | CDragon/lib/bcryptcpp/src/blowfish.cpp:60-83 | the cipher is the recurrence over its sixteen rounds in which round i uses subkey i, between two whitenings |
| Blowfish.EncipherUsesEverySubkey | CDragon/lib/bcryptcpp/src/blowfish.cpp:60-83 | changing any one of the 18 subkeys changes how every block is enciphered |
| Blowfish.DecipherUndoesEncipher | CDragon/lib/bcryptcpp/src/blowfish.cpp:60-108 | decipher inverts encipher for every P and S |
| Blowfish.EncipherUndoesDecipher | CDragon/lib/bcryptcpp/src/blowfish.cpp:60-108 | and the other way round |
| Blowfish.EncipherWith | CDragon/lib/bcryptcpp/src/blowfish.cpp:70-82 | the sixteen written-out rounds are the network over the subkey sequence |
| Blowfish.BlowfishState.EncipherHalves | CDragon/lib/bcryptcpp/src/blowfish.cpp:60-83 | enciphers with the tables as they are at the call |
| Blowfish.BlowfishState.DecipherHalves | CDragon/lib/bcryptcpp/src/blowfish.cpp:85-108 | deciphers with the tables as they are at the call |
| Blowfish.StreamToWord | CDragon/lib/bcryptcpp/src/blowfish.cpp:389-408 | four wrapping bytes from the cursor are the next word of the cyclic stream, also for `databytes` 0 |
| Blowfish.CursorStep | CDragon/lib/bcryptcpp/src/blowfish.cpp:400-404 | wrapping only when the cursor has run off the end walks the cyclic stream |
| Blowfish.BlowfishState.XorKeyIntoP | CDragon/lib/bcryptcpp/src/blowfish.cpp:420-425 | every subkey is xored with its word of the cyclic key stream, and S is untouched |
| Blowfish.BlowfishState.Expand0State | CDragon/lib/bcryptcpp/src/blowfish.cpp:410-445 | the in-place schedule leaves the P and S of the stepwise definition, although it enciphers with the tables it overwrites |
| Blowfish.BlowfishState.ExpandState | CDragon/lib/bcryptcpp/src/blowfish.cpp:448-489 | the salted in-place schedule, salt cursor carried across all 521 steps |
| Blowfish.Expand0IsExpandWithZeroSalt | CDragon/lib/bcryptcpp/src/blowfish.cpp:410-489 | the fast schedule leaves what the salted one leaves for any salt of zero bytes, for every state and key |
| Blowfish.SchedulesDependOnKeyStream | CDragon/lib/bcryptcpp/src/blowfish.cpp:420-464 | a key enters both schedules only through the first 72 bytes of its cyclic stream |
| Blowfish.StoredWhere | CDragon/lib/bcryptcpp/src/blowfish.cpp:430-444 | step t overwrites entries 2t and 2t+1 of P followed by the S-boxes, left half first, and no other |
| Blowfish.FilledInOrder | CDragon/lib/bcryptcpp/src/blowfish.cpp:430-444 | after t steps the first 2t entries hold the enciphered pairs in order, the others are untouched |
| Blowfish.FilledStep | CDragon/lib/bcryptcpp/src/blowfish.cpp:427-444 | each step enciphers the pair before it with the tables as left so far, starting from zeros |
| Blowfish.SaltFilledStep | CDragon/lib/bcryptcpp/src/blowfish.cpp:466-487 | the salted step enciphers that pair xored with the next two words of the salt |
| Blowfish.ExpandTellsSalt | CDragon/lib/bcryptcpp/src/blowfish.cpp:448-489 | the salted schedule loses nothing of the salt: its result tells every word of the salt stream that went in |
| BlowfishModes.WordValue | CDragon/lib/bcryptcpp/src/blowfish.cpp:534-535 | a word is its four bytes as digits to the base 256, highest first |
| BlowfishModes.RoundFunctionByBytes | CDragon/lib/bcryptcpp/src/blowfish.cpp:53-56 | the round function by the four bytes of its word, each an index into its own S-box |
| BlowfishModes.BytesOfCyclicWord | CDragon/lib/bcryptcpp/src/blowfish.cpp:400-404 | a word of the stream is four bytes of it, highest first, none lost |
| BlowfishModes.SubkeysSameExactlyWhen | CDragon/lib/bcryptcpp/src/blowfish.cpp:420-425 | two keys give the same subkeys exactly when their streams agree on 72 bytes |
| BlowfishModes.EcbBlockAt | CDragon/lib/bcryptcpp/src/blowfish.cpp:527-547 | ECB enciphers every block by itself, in its place |
| BlowfishModes.CbcBlockAt | CDragon/lib/bcryptcpp/src/blowfish.cpp:571-594 | CBC enciphers every block xored with the encrypted block before it, the first with the vector |
| BlowfishModes.EncPairAt | CDragon/lib/bcryptcpp/src/blowfish.cpp:501-512 | every pair of words is enciphered by itself, in its place |
| BlowfishModes.DecBlockUndoesEncBlock | CDragon/lib/bcryptcpp/src/blowfish.cpp:534-567 | on eight bytes, split into big-endian halves and joined again, decryption and encryption undo each other |
| BlowfishModes.EcbRoundTrip | CDragon/lib/bcryptcpp/src/blowfish.cpp:527-569 | ECB decryption inverts ECB encryption for every buffer of whole blocks |
| BlowfishModes.CbcRoundTrip | CDragon/lib/bcryptcpp/src/blowfish.cpp:571-635 | CBC decryption inverts CBC encryption for every P, S, vector and buffer of whole blocks |
| BlowfishModes.CbcRoundTripBack | CDragon/lib/bcryptcpp/src/blowfish.cpp:571-635 | every buffer is the CBC encryption of its CBC decryption |
| BlowfishModes.RoundTripInsideExactlyWhen | CDragon/lib/bcryptcpp/src/blowfish.cpp:571-635 | with the first vector inside the buffer, the in-place calls undo each other exactly when the vector reads the same after all but the last xor |
| BlowfishModes.RoundTripInsideCases | CDragon/lib/bcryptcpp/src/blowfish.cpp:571-635 | that is always so behind the first block, and on the first block only if that is zero |
| BlowfishModes.RoundTripInsideFails | CDragon/lib/bcryptcpp/src/blowfish.cpp:571-635 | a buffer that does not come back |
| BlowfishModes.EcbEncrypt | CDragon/lib/bcryptcpp/src/blowfish.cpp:527-547 | the in-place loop leaves the ECB encryption of what the buffer held |
| BlowfishModes.EcbDecrypt | CDragon/lib/bcryptcpp/src/blowfish.cpp:549-569 | the in-place loop leaves the ECB decryption of what the buffer held |
| BlowfishModes.CbcEncrypt | CDragon/lib/bcryptcpp/src/blowfish.cpp:571-594 | in place, with the vector aliasing the block just written, the buffer ends as its CBC encryption; the first vector may lie in the buffer itself |
| BlowfishModes.CbcDecrypt | CDragon/lib/bcryptcpp/src/blowfish.cpp:596-635 | in place and backwards, with the vector aliasing the block before, the buffer ends as its CBC decryption; a first vector in the buffer itself counts as it reads at the end |
| BlowfishModes.XorBlockAt | CDragon/lib/bcryptcpp/src/blowfish.cpp:578-579 | one block is xored with the vector, also when the vector lies in the same buffer or in the block; nothing else changes |
| BlowfishModes.PairsRoundTrip | CDragon/lib/bcryptcpp/src/blowfish.cpp:501-525 | deciphering pairs of words inverts enciphering them |
| BlowfishModes.BlfEnc | CDragon/lib/bcryptcpp/src/blowfish.cpp:501-512 | the first `blocks` pairs are enciphered in place, the rest of the array stays |
| BlowfishModes.BlfDec | CDragon/lib/bcryptcpp/src/blowfish.cpp:514-525 | the first `blocks` pairs are deciphered in place, the rest of the array stays |
| BcryptBase64.Char64OfCode | CDragon/lib/bcryptcpp/src/bcrypt.cpp:63-81 | the decoding table inverts the alphabet on all 64 codes, none of which is NUL |
| BcryptBase64.CodeOfChar64 | CDragon/lib/bcryptcpp/src/bcrypt.cpp:63-81 | and the alphabet inverts the table: no other character has a value |
| BcryptBase64.EncodedLength | CDragon/lib/bcryptcpp/src/bcrypt.cpp:291-319 | n bytes give (4n+2)/3 characters, all of them code characters |
| BcryptBase64.SextetsAreDigits | CDragon/lib/bcryptcpp/src/bcrypt.cpp:298-317 | the four codes of a group are its three bytes, read as one number, to the base 64 |
| BcryptBase64.DecodedCount | CDragon/lib/bcryptcpp/src/bcrypt.cpp:83-115 | of m code characters come three quarters as many bytes, rounded down, up to the number asked for |
| BcryptBase64.DecodeEncoded | CDragon/lib/bcryptcpp/src/bcrypt.cpp:83-319 | decoding reads back what was encoded, wherever in a text it stands and whatever follows |
| BcryptBase64.EncodeBase64 | CDragon/lib/bcryptcpp/src/bcrypt.cpp:291-319 | the moving pointers write the code characters and a NUL, and nothing else |
| BcryptBase64.EncodeGroup | CDragon/lib/bcryptcpp/src/bcrypt.cpp:298-317 | one turn of that loop: up to three bytes in, two to four characters out |
| BcryptBase64.DecodeBase64 | CDragon/lib/bcryptcpp/src/bcrypt.cpp:83-115 | overwrites as many bytes as the text gives, up to `len`, and leaves the others as they were |
| Bcrypt.SettingParses | CDragon/lib/bcryptcpp/src/bcrypt.cpp:165-219 | a printed prefix, an encoded salt and any tail parse to the minor, cost and salt they spell |
| Bcrypt.AcceptedExactlyWhen | CDragon/lib/bcryptcpp/src/bcrypt.cpp:164-216 | which texts are accepted as settings, and as which minor, cost and place of the salt |
| Bcrypt.StrLenIs | CDragon/lib/bcryptcpp/src/bcrypt.cpp:213 | the length counts the characters up to the first NUL |
| Bcrypt.HashOfHash | CDragon/lib/bcryptcpp/src/bcrypt.cpp:152-275 | hashing with a hash as setting gives that hash, for every key and every accepted setting |
| Bcrypt.ValidatesOwnHashExactlyWhen | CDragon/lib/bcryptcpp/src/bcrypt.cpp:337-342 | a hash validates its password exactly when its setting names a minor version |
| Bcrypt.GeneratedHashValidates | CDragon/lib/bcryptcpp/src/bcrypt.cpp:321-342 | every generated hash has 60 characters, validates its password, and tells its cost mod 256 clamped to 4..31 |
| Bcrypt.GeneratedHashText | CDragon/lib/bcryptcpp/src/bcrypt.cpp:321-335 | a generated hash is $2b$, the clamped cost in two digits, $, the encoded seed and the ciphertext |
| Bcrypt.FirstWordsSpell | CDragon/lib/bcryptcpp/src/bcrypt.cpp:242-244 | the words enciphered spell OrpheanBeholderScryDoubt |
| Bcrypt.CiphertextDeciphers | CDragon/lib/bcryptcpp/src/bcrypt.cpp:232-257 | a ciphertext deciphered 64 times with the final state gives that text |
| Bcrypt.StretchedFromFront | CDragon/lib/bcryptcpp/src/bcrypt.cpp:236-240 | each turn of the costly loop expands with the key and then with the salt |
| Bcrypt.DifferentSaltsDifferentStates | CDragon/lib/bcryptcpp/src/bcrypt.cpp:234-235 | different salts lead to different states after the first key setup |
| Bcrypt.RoundsWithoutMinor | CDragon/lib/bcryptcpp/src/bcrypt.cpp:277-289 | the cost is also read back from a text without a minor version |
| Bcrypt.ValidatesExactlyWhen | CDragon/lib/bcryptcpp/src/bcrypt.cpp:337-342 | which stored texts a password validates against: its hash for some minor or none, cost and salt, in 60 characters, or ":" filled up with NULs |
| Bcrypt.RejectedSettingValidatesExactlyWhen | CDragon/lib/bcryptcpp/src/bcrypt.cpp:337-342 | in particular a stored text that is no setting validates exactly when it is ":" filled up with NULs to 60 characters |
| Bcrypt.FilledErrorTextValidates | CDragon/lib/bcryptcpp/src/bcrypt.cpp:337-342 | and that text is no setting, so every password validates against it |
| Bcrypt.RoundsOfPrefix | CDragon/lib/bcryptcpp/src/bcrypt.cpp:277-289 | `bcrypt_get_rounds` reads back the cost that was printed |
| CyclicStreams.AgreeExactlyWhenCommuting | CDragon/lib/bcryptcpp/src/blowfish.cpp:389-408 | two endlessly repeated words agree on their first n characters, for any n, exactly when the two put together in either order do; from both lengths together on, that is when they commute |
| Bcrypt.KeyStreamsAgreeExactlyWhen | CDragon/lib/bcryptcpp/src/bcrypt.cpp:173-238 | for every minor or none and any two passwords: the key streams agree exactly when the effective keys, put together in either order, start with the same 72 bytes |
| Bcrypt.TerminatedKeysAgreeExactlyWhen | CDragon/lib/bcryptcpp/src/bcrypt.cpp:173-238 | where the NUL belongs to the key, NUL-free passwords give the same stream exactly when they agree up to their 72nd byte; "ab" and "abab" do not |
| Bcrypt.SameBytesExactlyWhen | CDragon/lib/bcryptcpp/src/bcrypt.cpp:321-342 | texts of 8-bit characters have the same bytes exactly when they are the same |
| Bcrypt.DifferentPasswordsDifferentSubkeys | CDragon/lib/bcryptcpp/src/bcrypt.cpp:223-235 | under minor b NUL-free passwords that differ in their first 72 bytes lead to different subkeys |
| Bcrypt.ShortPasswordsDifferentSubkeys | CDragon/lib/bcryptcpp/src/bcrypt.cpp:223-235 | in particular any two different passwords of at most 72 characters |
| Bcrypt.WithoutMinorAgreeExactlyWhen | CDragon/lib/bcryptcpp/src/bcrypt.cpp:173-221 | without a minor version two passwords give the same stream exactly when they commute as far as 72 bytes show |
| Bcrypt.WrappedKey | CDragon/lib/bcryptcpp/src/bcrypt.cpp:220-221 | under minor a the key is the first (length + 1) mod 256 bytes of password and NUL, or the first byte when that is 0 |
| Bcrypt.SameEffectiveKeySameHash | CDragon/lib/bcryptcpp/src/bcrypt.cpp:220-238 | passwords with the same effective key hash alike under every setting |
| Bcrypt.LongPasswordsHashAlikeUnderA | CDragon/lib/bcryptcpp/src/bcrypt.cpp:220-221 | under minor a any two passwords of 255 characters with the same first one hash alike |
| Bcrypt.DifferentLongPasswordsShareKeyUnderA | CDragon/lib/bcryptcpp/src/bcrypt.cpp:175-176 | two different NUL-free passwords of that kind |
| Bcrypt.RepetitionHashesAlikeWithoutMinor | CDragon/lib/bcryptcpp/src/bcrypt.cpp:173-221 | in particular, without a minor version a password and its repetition give the same key stream |
| Bcrypt.SameStreamSameHash | CDragon/lib/bcryptcpp/src/bcrypt.cpp:220-238 | passwords with the same key stream hash alike under every setting |
| Bcrypt.Only72BytesMatter | CDragon/lib/bcryptcpp/src/bcrypt.cpp:223-229 | under minor b passwords that share their first 72 bytes hash alike |
| Bcrypt.NodeBcrypt | CDragon/lib/bcryptcpp/src/bcrypt.cpp:152-275 | the buffer ends up holding the hash, or ":" for a rejected setting, as a C string, its rest untouched |
| Bcrypt.Encrypt | CDragon/lib/bcryptcpp/src/bcrypt.cpp:232-257 | key setup, 2^cost double expansions and 64 encryptions leave the ciphertext of the stepwise definition |
| Bcrypt.StoreWords | CDragon/lib/bcryptcpp/src/bcrypt.cpp:250-257 | each word is stored as four bytes, lowest byte last |
| Bcrypt.LoadWords | CDragon/lib/bcryptcpp/src/bcrypt.cpp:242-244 | the text to encipher is read as six big-endian words |
| Bcrypt.WriteHash | CDragon/lib/bcryptcpp/src/bcrypt.cpp:259-271 | version, minor, cost, salt and ciphertext one behind the other, terminated, at most 60 characters |
| Bcrypt.BcryptGensalt | CDragon/lib/bcryptcpp/src/bcrypt.cpp:118-147 | the setting text of 29 characters with the clamped cost, terminated, the buffer's rest untouched |
| Bcrypt.GenerateHash | CDragon/lib/bcryptcpp/src/bcrypt.cpp:321-335 | returns the hash of the password under the generated setting, cut to 60 characters |
| Bcrypt.ValidatePassword | CDragon/lib/bcryptcpp/src/bcrypt.cpp:337-342 | is true exactly when the hash, used as setting, reproduces itself in 60 characters |
| Base64.PosOfChar | CDragon/lib/base64/base64.cpp:44-71 | each alphabet is read back by the decoder's table, and holds neither padding nor line breaks |
| Base64.CharOfPos | CDragon/lib/base64/base64.cpp:44-71 | and on one alphabet's characters the table is inverted by the alphabet |
| Base64.EncodedLength | CDragon/lib/base64/base64.cpp:111-160 | the output has exactly (n+2)/3*4 characters |
| Base64.SextetsAreDigits | CDragon/lib/base64/base64.cpp:132-156 | the four codes of a group are its three bytes, read as one number, to the base 64 |
| Base64.PaddedWhere | CDragon/lib/base64/base64.cpp:115-156 | padding is = in the standard and . in the URL form, one for each byte the last group lacks; all else is of the form's alphabet |
| Base64.Base64Encode | CDragon/lib/base64/base64.cpp:111-160 | the loop over a 32-bit position prints the groups of three bytes; the position never wraps below 4 GiB |
| Base64.EncoderStopsExactlyWhen | CDragon/lib/base64/base64.cpp:132-156 | the wrapping 32-bit position reaches the input's end exactly for inputs below 4 GiB |
| Base64.DecodeChunks | CDragon/lib/base64/base64.cpp:182-240 | the decoding loop returns the bytes of its chunks, or throws what the first bad chunk throws |
| Base64.Base64Decode | CDragon/lib/base64/base64.cpp:162-241 | the same with line-break removal |
| Base64.DecodesExactlyWhen | CDragon/lib/base64/base64.cpp:193-238 | which texts decode, position by position, and which of the two exceptions the others raise |
| Base64.DecodeConcat | CDragon/lib/base64/base64.cpp:193-238 | behind a whole number of chunks, decoding goes on as if from the start, errors included |
| Base64.DecodeEncoded | CDragon/lib/base64/base64.cpp:111-241 | decoding either printed form gives the bytes back |
| Base64.DecodeStripped | CDragon/lib/base64/base64.cpp:111-241 | the same with trailing padding removed |
| Base64.DecodeBroken | CDragon/lib/base64/base64.cpp:91-104 | with line-break removal the decoder inverts the PEM and MIME printers, for any line length |
| Base64.EncodedIsCanonical | CDragon/lib/base64/base64.cpp:111-160 | printed text is canonical: whole groups, padding only at the end, zero pad bits |
| Base64.EncodeDecoded | CDragon/lib/base64/base64.cpp:111-241 | printing what a canonical text decodes to gives that text |
| Base64.CanonicalExactlyWhenPrinted | CDragon/lib/base64/base64.cpp:111-160 | the canonical texts are exactly the printer's outputs |
| Base64.InsertLinebreaks | CDragon/lib/base64/base64.cpp:73-89 | inserting into the string in place leaves the recursively broken text, and terminates |
| Base64.BreaksComeOut | CDragon/lib/base64/base64.cpp:73-89 | taking the line breaks out again restores any newline-free text |
| Base64.LineLengths | CDragon/lib/base64/base64.cpp:73-89 | every line but the last has exactly `distance` characters, the last 1 to `distance` |
| Base64.EncodeWithLineBreaks | CDragon/lib/base64/base64.cpp:91-94 | prints the standard form broken into lines |
| Base64.EncodePem | CDragon/lib/base64/base64.cpp:96-99 | the PEM printer, with its line length |
| Base64.EncodeMime | CDragon/lib/base64/base64.cpp:101-104 | the MIME printer, with its line length |
| Base64.PemAndMime | CDragon/lib/base64/base64.cpp:91-104 | PEM text has lines of 64 characters and MIME text of 76, the last line 1 up to that, and both decode to what was printed |
| Amalgamation.Unit | CDragon/lib/json-develop/tools/amalgamate/amalgamate.py:254-267 | building a unit puts its path behind the paths already included, and removes none |
| Amalgamation.UnitSpells | CDragon/lib/json-develop/tools/amalgamate/amalgamate.py:177-252 | the output spells the file: text kept, each include a comment, each spliced body the file it names, `#pragma once` dropped below the sources |
| Amalgamation.UnitSplices | CDragon/lib/json-develop/tools/amalgamate/amalgamate.py:232-246 | within a unit each file is spliced in at its first depth-first encounter and nowhere else; the included files grow by exactly those, in order |
| Amalgamation.SplicedAtMostOnce | CDragon/lib/json-develop/tools/amalgamate/amalgamate.py:239-241 | no two splices name the same file, and none names a file included before |
| Amalgamation.OutputIsUnique | CDragon/lib/json-develop/tools/amalgamate/amalgamate.py:207-246 | any output that spells the file and splices at first encounters is the one produced |
| Amalgamation.IncludesExactlyTheReachable | CDragon/lib/json-develop/tools/amalgamate/amalgamate.py:76-97 | for any include graph, cyclic or not, the included files end as exactly those reachable from the sources |
| Amalgamation.FlattenJoinsLeaves | CDragon/lib/json-develop/tools/amalgamate/amalgamate.py:232-246 | the output is its texts and comment lines one behind the other, spliced files right behind their comment |
| Amalgamation.DirectivesAreCommented | CDragon/lib/json-develop/tools/amalgamate/amalgamate.py:237-238 | every directive met stands in the output behind // and before a newline, at the place stated |
| Amalgamation.PlaceForEachEncounter | CDragon/lib/json-develop/tools/amalgamate/amalgamate.py:235-242 | one such place for each directive met |
| Amalgamation.CommentedOutExactlyWhen | CDragon/lib/json-develop/tools/amalgamate/amalgamate.py:238 | a directive is commented out exactly when it holds no newline |
| Amalgamation.RunSplicesOnce | CDragon/lib/json-develop/tools/amalgamate/amalgamate.py:88-95 | over a whole run no file is spliced in twice, and the included files are the sources and the spliced files |
| Amalgamation.ListedOnceExactlyWhen | CDragon/lib/json-develop/tools/amalgamate/amalgamate.py:88-95 | when every source exists, no file is listed twice exactly when no source is reached from the ones before it |
| Amalgamation.FailsExactlyWhenSourceMissing | CDragon/lib/json-develop/tools/amalgamate/amalgamate.py:259-264 | the run fails exactly when a source is missing, and names the first such source |
| Amalgamation.Amalgamator.TranslationUnit | CDragon/lib/json-develop/tools/amalgamate/amalgamate.py:254-267 | the unit's content and the grown list; for a missing file the error, with its path already on the list |
| Amalgamation.Amalgamator.Process | CDragon/lib/json-develop/tools/amalgamate/amalgamate.py:207-252 | the accumulating loop leaves the text of the expansion and the grown list, recursion included |
| Amalgamation.Amalgamator.Generate | CDragon/lib/json-develop/tools/amalgamate/amalgamate.py:76-97 | prologue and all units one behind the other, or the first missing source |
| OrderedMaps.StepRefines | CDragon/lib/json-develop/include/nlohmann/ordered_map.hpp:54-353 | every call does to a vector that lists a map what the call means for the map and its insertion order, and returns the same |
| OrderedMaps.RunFromEmpty | CDragon/lib/json-develop/include/nlohmann/ordered_map.hpp:46-353 | every run from empty keeps keys unique, and gives call by call the replies of a map with insertion order |
| OrderedMaps.WithoutIsSlice | CDragon/lib/json-develop/include/nlohmann/ordered_map.hpp:162-258 | with unique keys, dropping a range of slots is dropping their keys wherever they occur |
| OrderedMaps.EraseLeavesNoneExactlyWhen | CDragon/lib/json-develop/include/nlohmann/ordered_map.hpp:48-52 | a container built from a range may repeat keys; an erased key is gone exactly when it was there at most once |
| OrderedMaps.OrderedMap.Emplace | CDragon/lib/json-develop/include/nlohmann/ordered_map.hpp:54-66 | the first entry of a key wins; position and whether it was inserted |
| OrderedMaps.OrderedMap.Index | CDragon/lib/json-develop/include/nlohmann/ordered_map.hpp:82-85 | the slot of a key, after appending a blank entry if it is new |
| OrderedMaps.OrderedMap.Assign | CDragon/lib/json-develop/include/nlohmann/ordered_map.hpp:82-85 | assignment through `operator[]` changes that slot's value only |
| OrderedMaps.OrderedMap.At | CDragon/lib/json-develop/include/nlohmann/ordered_map.hpp:106-117 | the value of a key, or `out_of_range` |
| OrderedMaps.OrderedMap.Count | CDragon/lib/json-develop/include/nlohmann/ordered_map.hpp:260-270 | 1 if the key is there, else 0 |
| OrderedMaps.OrderedMap.Find | CDragon/lib/json-develop/include/nlohmann/ordered_map.hpp:286-296 | the first position of the key, or the end |
| OrderedMaps.OrderedMap.EraseKey | CDragon/lib/json-develop/include/nlohmann/ordered_map.hpp:162-179 | removes exactly the found slot, whatever moving from an entry leaves behind; 1 or 0 |
| OrderedMaps.OrderedMap.ShiftOver | CDragon/lib/json-develop/include/nlohmann/ordered_map.hpp:168-174 | the shifting loop: all entries behind a slot move up by one, order kept |
| OrderedMaps.OrderedMap.EraseRange | CDragon/lib/json-develop/include/nlohmann/ordered_map.hpp:207-258 | leaves prefix and suffix, order kept, and returns the offset of the next entry |
| OrderedMaps.OrderedMap.Insert | CDragon/lib/json-develop/include/nlohmann/ordered_map.hpp:324-340 | insertion of a pair: first entry of a key wins |
| OrderedMaps.OrderedMap.InsertRange | CDragon/lib/json-develop/include/nlohmann/ordered_map.hpp:346-353 | range insertion is insertion one by one |
| Sessions.AcceptsExactlyWhenGapsShort | CDragon/src/router/routes.cpp:99-113 | a check lets a session through exactly when the id was given out in the run and every gap between consecutive touches of its latest session, up to this check, is below the time to live; ids given out twice included |
| Sessions.FreshIdLivesOnce | CDragon/include/session_repository.h:24-28 | with ids never given out twice, those touches are the creation and every check since |
| Sessions.FreshIdAcceptedExactlyWhen | CDragon/src/router/routes.cpp:99-113 | so a check then succeeds exactly when all gaps since the creation were below the time to live |
| Sessions.LapsedStaysLapsed | CDragon/include/session_repository.h:30-48 | a session that has lapsed stays lapsed for as long as its id is not given out again |
| Sessions.RunTracks | CDragon/include/session_repository.h:24-55 | after any run an id is stored exactly while its session is alive, with that session's data and the time of its last touch |
| Sessions.TurnedAwayForGood | CDragon/src/router/routes.cpp:99-113 | an id turned away is never let through again, unless it is given out only later |
| Sessions.DataAfterAcceptance | CDragon/include/session_repository.h:57-64 | after an acceptance the data can be read: what the latest session under that id was created with, at the time of the check |
| Sessions.SecondCreationChangesNothing | CDragon/include/session_repository.h:24-28 | creating under an id that is still stored changes neither data nor time of the session there |
| Sessions.FitsExactlyWhenShort | CDragon/include/session_repository.h:40-42 | comparing truncated whole seconds is comparing the exact gap |
| Sessions.LivedExactlyWhenCreated | CDragon/include/session_repository.h:24-28 | an id has a session exactly when it was given out in the run |
| Sessions.SessionRepository.CreateSessionID | CDragon/include/session_repository.h:24-28 | stores the new session, or leaves the one that has this id |
| Sessions.SessionRepository.IsSessionValid | CDragon/include/session_repository.h:30-48 | whether the session is stored and young enough; a session that is too old is erased |
| Sessions.SessionRepository.ExtendSessionTime | CDragon/include/session_repository.h:50-55 | renews the time of a stored session, and nothing else |
| Sessions.SessionRepository.GetSessionData | CDragon/include/session_repository.h:57-64 | the stored session, or an exception exactly when there is none |
| Sessions.SessionRepository.IsSessionOk | CDragon/src/router/routes.cpp:99-113 | answer and new sessions of the check each page makes, for any cookies and two clock readings |
| Utf8Truncate.TruncatesWholeCharacters | CDragon/src/router/routes.cpp:257-282 | for every sequence of Unicode scalar values, the cut text is the encoding of the first min(k, n) of them |
| Utf8Truncate.TruncatedReadsBack | CDragon/src/router/routes.cpp:257-282 | and is read back as those, and nothing else |
| Utf8Truncate.LengthByRange | CDragon/src/router/routes.cpp:262-272 | a first byte from C0 to F7 announces 2 to 4 bytes by its range, any other 1 |
| Utf8Truncate.TruncateTwice | CDragon/src/router/routes.cpp:257-282 | for any bytes, cutting twice is cutting once to the smaller size |
| Utf8Truncate.TruncatedHoldsAsManyAsAllowed | CDragon/src/router/routes.cpp:257-282 | for any bytes, the result is a beginning of the text with as many characters as allowed and there |
| Utf8Truncate.TruncateUTF8 | CDragon/src/router/routes.cpp:257-282 | the loop terminates on any bytes and returns a prefix, the one of the recursive definition |

## Left out

- JsonDiff.PatchOfDiffRebuildsTarget: the source's arrays have at most 2^63-1 elements, the most a vector can hold; longer ones do not exist in memory, and their indices would not parse.
- JsonDiff.DiffRebuilds: the same bound on the source's arrays.
- JsonPatch.Document.OperationAdd: below a primitive value other than null the code aborts; the model ends the run with `AssertionFailed`, and does not model builds with NDEBUG.
- JsonPatch.Document.RunOperation: the message of a failed test prints the patch element, which throws `type_error` 316 instead of 501 if the element holds a string that is not UTF-8.
- JsonPatch.Document.PatchInplace: the same, and `OperationAdd`'s abort.
- JsonPatch.Document.Patch: the same.
- Base64.Base64Encode: inputs of 4 GiB and more, for which the code never stops (`EncoderStopsExactlyWhen`).
- BlowfishModes.CbcEncrypt: a first vector that starts before the buffer and reaches into it.
- BlowfishModes.CbcDecrypt: the same; and at least one block, as the code needs.
- Bcrypt.NodeBcrypt: clearing the local buffers at the end; a cost text beyond the range of `int`, where `atoi` is undefined, counts with its full value.
- Bcrypt.TerminatedKeysAgreeExactlyWhen: keys without the NUL; `KeyStreamsAgreeExactlyWhen` covers those too.
- OrderedMaps.RunFromEmpty: a run ends at a range erase whose positions lie outside the vector, which C++ leaves undefined.
- OrderedMaps.OrderedMap.InsertRange: the inserted range is not part of the container itself.
- Sessions.AcceptsExactlyWhenGapsShort: one time to live for the whole run, and a clock that does not go back or a positive time to live.
- `ordered_json`: its equality looks at member order, so the diff law is not about it.
- JSON text: lexer, parser, serializer, binary formats, `flatten` and `unflatten`, and the texts of error messages.
- Memory: allocation failure, iterator invalidation, `JSON_DIAGNOSTICS` parent pointers. Values are copied, so references into a document are the pointers that lead there.
- `array_index` on platforms whose `size_type` is narrower than 64 bits.
- The regular expressions of the amalgamator: a file is given as the text, pragma and include segments they find. Files shorter than `#include <x>`, which are not scanned at all, are plain text. The prologue's date formatting and writing the target file are left out too.
- The second copy of bcrypt, the random generator behind seeds and session ids, and `blf_key`.
- Sockets, HTTP parsing, routing, templates, SQL tables and page assembly: input and output, outside the model.
