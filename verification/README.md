# UVM-SystemC in Dafny

A Dafny model of the parts of the UVM-SystemC library that keep algorithmic state, with proofs of what they promise.
The code is followed branch by branch; buffers, tables, queues, cursors and objects that the program updates in place
are arrays and class fields here, each method is proved against a specification over its inputs and its old state, and
the laws are lemmas about those specifications.

- **Packer** (`Bits`, `Codec`, `ObjectGraph`, `ObjectRoundTrip`, `ScopeStack`, `Packing`, `PackUnpack`). `Packer` is the
  growable bit buffer with its two cursors, block-wise growth and stale bits. `Codec` is the bit format of single
  fields, `ObjectGraph` that of whole object graphs under the cycle check, as pure encoders and decoders. The classes
  are proved to write and read exactly these, and the round-trip theorems are about these; `PackUnpack.Transfer` puts
  both together on the heap.
- **Globs** (`Glob`, `Regex`, `GlobMatching`, `OrderedKeys`). The translation into a static buffer, the meaning of the
  regular expressions it emits (section 9.4 of IEEE Std 1003.1), and exactly when that meaning is the glob's. `Engine`
  says which matcher the library was built with: `std::regex`, which matches whole strings, or POSIX, which searches.
- **Resources and configuration** (`ResourcePool`, `PoolHistory`, `Precedence`, `ConfigDb`, `Agent`). The two tables of
  the pool, priority moves, the bucket sort and the selectors, the configuration database as queries over the history of
  its settings, and the selection an agent makes.
- **Phase queue** (`PhaseQueue`). The bounded FIFO and its two events as a step system over cooperative processes: what
  a call does between two waits is one step.
- **Components** (`ComponentTree`, `Components`). Walks through the component tree by the cursor that each component
  keeps, while hooks add children.
- **Callbacks** (`Callbacks`, `CallbackRegistry`, `CallbackHistory`). Typewide and per-object queues, propagation down
  the type hierarchy, and the iterators.

`Options` and `Sequences` hold what several modules share.

Where the code and its comments differ, the code is followed:

- `config_db::set` stores an empty map before it enters the new resource into a local copy, so no setting is ever
  reused although the comment speaks of updating an existing one (src/uvmsc/conf/uvm_config_db.h:256-260).
- The root component has depth 1, the comment says 0 (src/uvmsc/base/uvm_component.cpp:320-328).
- `m_add_child` files a child under the empty name when it is given a name (src/uvmsc/base/uvm_component.cpp:1598-1601).
- The warning at the end of `m_unpack_post` compares the packed size with itself and never fires
  (src/uvmsc/base/uvm_object.cpp:620).
- The callback iterators stop with a fatal error on a null object, where the comment promises the typewide queue
  (src/uvmsc/cb/uvm_callbacks.h:785-788).

## How the main results are stated

Several promises hold only under a condition; then the condition is proved to be exact, and where it is not plain that
the program gets there, a run or a state that breaks it is given.

- A string comes back just when it holds no NUL and, without metadata, is followed by a zero byte or by less than a byte.
- By reference and without metadata nothing is written, which reads back just when no object entered has a leaf.
- A glob is translated faithfully just when it holds no anchor, and fits the static buffer just when its length and the
  characters added to it do.
- Looking up by name and scanning all names agree just when no visible name holds an anchor or is too long.
- Sorting by precedence agrees with the unsigned selectors just when no two precedences lie on different sides of 2^31,
  because the sort keys are signed.
- A setter nearer the root wins during build just as long as the unsigned subtraction does not wrap around.
- Emptying the phase queue loses a wake-up just when a producer is blocked and no notification for it is pending.
- A tree walk is complete just when no component has the empty name.
- Adding a callback to a report object creates a duplicate just when two typewide queues overlap.
- Adding a callback typewide and deleting it again restores everything just when nobody had it before.

The specification functions that methods are proved against are pinned down in turn by laws in other terms: bit by bit
for the formats, element by element for queues and tables, over whole runs and histories for the state machines.

## Model

| member | source | states |
|---|---|---|
| `PackUnpack.Transfer` | src/uvmsc/base/uvm_object.cpp:523-528 | packing an object and unpacking the stream into an object whose hooks visit the same things restores every leaf of every object reachable from it, sharing and cycles included (by reference, with metadata, every leaf of the object itself), changes nothing else, reads every bit and empties the cycle check |
| `PackUnpack.TransferUnits` | src/uvmsc/base/uvm_object.cpp:536-541 | the same through bytes or ints, whatever stale bits pad the last one; less than one unit is left unread |
| `PackUnpack.TransferPadded` | src/uvmsc/base/uvm_object.cpp:661-667 | the encoding padded to whole units with any bits decodes to the restored graph and leaves only padding |
| `PackUnpack.TransferBits` | src/uvmsc/base/uvm_object.cpp:642-649 | the encoding followed by any bits decodes to the restored graph and leaves just those bits |
| `ObjectRoundTrip.PackUnpackRestores` | src/uvmsc/policy/uvm_packer.cpp:460-507 | for every finite graph and every isomorphic target: all leaves restored that the packing covers, which are the reachable ones by value and those of the top object by reference with metadata; nothing else touched, exactly the bits that follow left unread |
| `ObjectRoundTrip.UnitsPackUnpackRestores` | src/uvmsc/policy/uvm_packer.cpp:763-781 | the same when the bits travel as padded units |
| `ObjectRoundTrip.CoversVisited` | src/uvmsc/policy/uvm_packer.cpp:213-234 | what a packing covers is the top object and whatever its hooks visit |
| `ObjectRoundTrip.VisitsExactlyReachable` | src/uvmsc/policy/uvm_packer.cpp:196-236 | although the cycle check skips objects being packed, the objects visited are exactly the reachable ones |
| `ObjectRoundTrip.PathVisited` | src/uvmsc/policy/uvm_packer.cpp:200-209 | a chain of references that meets no open object is followed to its end |
| `ObjectRoundTrip.ObjectRecovers` | src/uvmsc/policy/uvm_packer.cpp:460-507 | one reference, at any depth and with any set of open objects: what it wrote is read back, or nothing is written and nothing read |
| `ObjectRoundTrip.FieldsRecover` | src/uvmsc/policy/uvm_packer.cpp:196-236 | the remaining fields of one object read back, with what lies behind them |
| `ObjectRoundTrip.SkippedObject` | src/uvmsc/policy/uvm_packer.cpp:226-234 | by reference only the null header is written, and reading it leaves the target alone |
| `ObjectRoundTrip.UnmarkedReferenceExact` | src/uvmsc/policy/uvm_packer.cpp:474-478 | by reference without metadata nothing is written; whatever follows, unpacking then changes and consumes nothing just when no object it enters has a leaf |
| `ObjectRoundTrip.LeafFreeReads` | src/uvmsc/policy/uvm_packer.cpp:460-507 | reading into objects without leaves consumes nothing, in either reference mode |
| `ObjectRoundTrip.LeafTakes` | src/uvmsc/policy/uvm_packer.cpp:460-507 | reading into an object with a leaf takes some bit of a byte of ones, or fails |
| `ObjectRoundTrip.ObjectShrinks` | src/uvmsc/policy/uvm_packer.cpp:460-507 | no object reader leaves more bits than it was given |
| `ObjectRoundTrip.UnmarkedReferenceFails` | src/uvmsc/policy/uvm_packer.cpp:474-478 | an instance: an object that starts with a boolean, with nothing behind it, cannot be read back |
| `Codec.ValueRoundTrip` | src/uvmsc/policy/uvm_packer.cpp:576-598 | every kind of field, nested vectors included, reads back as written in both bit orders whatever bits follow |
| `Codec.ValueRoundTripExact` | src/uvmsc/policy/uvm_packer.cpp:131-148 | with metadata a value reads back just when every string in it is free of NUL; otherwise a different value is read |
| `Codec.ValueReadsBack` | src/uvmsc/policy/uvm_packer.h:212-262 | in both modes and for every kind of field and whatever follows: a value reads back just when each string in it is free of NUL and, without metadata, is followed by a zero byte or by less than a byte |
| `Codec.ElementsReadBack` | src/uvmsc/policy/uvm_packer.h:244-248 | the same for the elements of a vector, each followed by the encodings of those behind it |
| `Codec.MarkedRecoverable` | src/uvmsc/policy/uvm_packer.cpp:143-147 | with metadata what follows does not matter to that condition |
| `Codec.ValueShrinks` | src/uvmsc/policy/uvm_packer.h:212-262 | no reader leaves more bits than it was given |
| `Codec.ElementsRoundTrip` | src/uvmsc/policy/uvm_packer.h:183-264 | the elements of a vector read back one after the other |
| `Codec.VectorHeader` | src/uvmsc/policy/uvm_packer.h:237-250 | reading a vector first recovers its size and then that many elements |
| `Codec.StringRoundTrip` | src/uvmsc/policy/uvm_packer.cpp:346-395 | a metadata-terminated string comes back up to its first NUL, and whole just when it has none |
| `Codec.CountedStringRoundTrip` | src/uvmsc/policy/uvm_packer.cpp:352-360 | with an explicit count every string comes back, NULs included, with and without metadata |
| `Codec.UnmarkedStringExact` | src/uvmsc/policy/uvm_packer.cpp:346-395 | without metadata a string comes back just when it holds no NUL and is followed by a zero byte or by less than a byte |
| `Codec.UnmarkedStringOverruns` | src/uvmsc/policy/uvm_packer.cpp:131-148 | an instance: two one-byte strings packed in a row are read as one |
| `Codec.IntRoundTrip` | src/uvmsc/policy/uvm_packer.cpp:101-117 | an integer of 1 to 64 bits, signed or not, reads back in both bit orders |
| `Codec.IntLayout` | src/uvmsc/policy/uvm_packer.cpp:101-117 | bit j of a packed integer is its bit of weight 2^j, counted from the other end when big-endian |
| `Codec.CharLayout` | src/uvmsc/policy/uvm_packer.cpp:955-983 | bit j of a packed byte is its bit of weight 2^j, counted from the other end when big-endian |
| `Codec.PlainLayout` | src/uvmsc/policy/uvm_packer.cpp:1016-1064 | a boolean is one bit and a bit vector is packed as it is, in either byte order |
| `Codec.VectorLayout` | src/uvmsc/policy/uvm_packer.h:183-191 | the first 32 bits of a packed vector are its size, bit by bit, and the rest is its elements |
| `Codec.ElementsLayout` | src/uvmsc/policy/uvm_packer.h:189-191 | each element lies behind those before it and in front of those after it |
| `Codec.StringLayout` | src/uvmsc/policy/uvm_packer.cpp:131-148 | a packed string is its bytes in order and, with metadata, a zero byte |
| `ObjectGraph.HeaderLayout` | src/uvmsc/policy/uvm_packer.cpp:476-486 | the object header is 1, the null header 0, and the reader goes on just when the signed 4-bit number is positive |
| `ObjectGraph.FieldLayout` | src/uvmsc/policy/uvm_packer.h:118-132 | each field of an object is packed behind those before it and in front of those after it |
| `ObjectGraph.OneFieldLayout` | src/uvmsc/policy/uvm_packer.cpp:196-236 | a leaf is packed as its value; a reference as nothing while its object is being packed, else as the four header bits, if there is metadata, and by value the fields of the object |
| `Codec.RealRoundTrip` | src/uvmsc/policy/uvm_packer.cpp:437-444 | a real reads back by its four bit fields |
| `Codec.RealBitsBijection` | src/uvmsc/misc/uvm_misc.cpp:307-374 | realtobits and bitstoreal are inverse bijections between the fields of a double and 64-bit words |
| `Codec.RealLayout` | src/uvmsc/misc/uvm_misc.cpp:307-325 | bit by bit: mantissa0 in bits 0-19, mantissa1 in 20-51, the exponent in 52-62 and the sign in 63, counted from the other end when big-endian |
| `Codec.PatternRoundTrip` | src/uvmsc/policy/uvm_packer.cpp:576-586 | the two-complement pattern of a value at its width determines the value |
| `Bits.UnitsRoundTrip` | src/uvmsc/policy/uvm_packer.cpp:681-728 | reading bits out as bytes or ints and loading these back gives the same bits |
| `Bits.UnitLayout` | src/uvmsc/policy/uvm_packer.cpp:681-728 | bit j of unit i is bit i times the unit size plus j of the buffer, counted from the other end of the unit when big-endian |
| `Bits.ToBitsTruncates` | src/uvmsc/policy/uvm_packer.cpp:103 | sign-extending to 64 bits and cutting to the width gives the pattern at the width |
| `Bits.OrderedZero` | src/uvmsc/policy/uvm_packer.cpp:253 | swapping the bit order never makes a zero unit of a non-zero one |
| `Packing.Packer.PackObject` | src/uvmsc/policy/uvm_packer.cpp:196-236 | appends the encoding of the object graph from here, nothing for an object being packed; cycle check and, for names that open no bracket, scope as before; terminates on every finite graph |
| `Packing.Packer.PackEntered` | src/uvmsc/policy/uvm_packer.cpp:213-234 | the 4-bit header and, unless by reference, the object |
| `Packing.Packer.PackBody` | src/uvmsc/policy/uvm_packer.cpp:221-224 | the hook runs inside the scope of the object and leaves the scope as it was |
| `Packing.Packer.UnpackObject` | src/uvmsc/policy/uvm_packer.cpp:460-507 | reads what the decoder reads and writes the leaves in place; nothing for an object being unpacked; cycle check and scope as before |
| `Packing.Packer.UnpackEntered` | src/uvmsc/policy/uvm_packer.cpp:476-500 | reads the header as a signed 4-bit number and the object only if it is positive |
| `Packing.Packer.UnpackBody` | src/uvmsc/policy/uvm_packer.cpp:488-491 | the unpack hook runs inside the scope of the object |
| `Packing.Packer.PackField` | src/uvmsc/policy/uvm_packer.cpp:622-626 | one field of a hook: a value or a reference |
| `Packing.Packer.UnpackField` | src/uvmsc/policy/uvm_packer.cpp:628-632 | one field of a hook, its leaf overwritten in place |
| `Packing.UvmObject.MPack` | src/uvmsc/base/uvm_object.cpp:497-515 | resets, then packs the top object without entering it in the cycle check |
| `Packing.UvmObject.Pack` | src/uvmsc/base/uvm_object.cpp:523-528 | appends the encoding of the object to the vector of the caller; the count is the length of what was appended |
| `Packing.UvmObject.PackUnits` | src/uvmsc/base/uvm_object.cpp:536-541 | appends the encoding to the vector of the caller as units, padded with whatever the buffer held |
| `Packing.UvmObject.MUnpackPost` | src/uvmsc/base/uvm_object.cpp:603-630 | reads the hook of the top object; the size warning at the end never fires |
| `Packing.UvmObject.Unpack` | src/uvmsc/base/uvm_object.cpp:642-649 | loads the stream and reads it into the object; returns the length of the stream |
| `Packing.UvmObject.UnpackUnits` | src/uvmsc/base/uvm_object.cpp:661-667 | the same from bytes or ints |
| `Packing.UvmObject.DoPack` | src/uvmsc/policy/uvm_packer.h:118-132 | the fields in order append their encodings |
| `Packing.UvmObject.DoUnpack` | src/uvmsc/policy/uvm_packer.h:118-132 | the fields in order read what was packed for them |
| `Packing.Packer.Reset` | src/uvmsc/policy/uvm_packer.cpp:818-823 | empties the packer and keeps the buffer with its stale bits |
| `Packing.Packer.Allocate` | src/uvmsc/policy/uvm_packer.cpp:873-900 | the size is the total rounded up to whole blocks of 4096; the buffer is replaced only when that exceeds the largest size so far, and then keeps its contents if asked |
| `Packing.BlockRound` | src/uvmsc/policy/uvm_packer.cpp:878-880 | with truncating division the rounded size is a positive multiple of 4096, at least the total and less than a block more |
| `Packing.WholeUnits` | src/uvmsc/policy/uvm_packer.cpp:681-700 | the last byte or word read stays inside the buffer |
| `Packing.Packer.CheckSize` | src/uvmsc/policy/uvm_packer.cpp:921-928 | makes room, never changing a bit already there |
| `Packing.Packer.Append` | src/uvmsc/policy/uvm_packer.cpp:101-117 | everything packed before stays, the new bits follow |
| `Packing.Packer.EnoughBits` | src/uvmsc/policy/uvm_packer.cpp:832-846 | true just when that many packed bits are unread |
| `Packing.Packer.GetBits` | src/uvmsc/policy/uvm_packer.cpp:662-670 | appends as many bits as remain unread to the vector of the caller, from the front of the buffer |
| `Packing.Packer.GetUnits` | src/uvmsc/policy/uvm_packer.cpp:681-728 | appends those bits rounded up to units, each swapped when big-endian, never read past the size |
| `Packing.Packer.ReadUnits` | src/uvmsc/policy/uvm_packer.cpp:681-728 | the loop over the units, each swapped when big-endian |
| `Packing.Packer.PutBits` | src/uvmsc/policy/uvm_packer.cpp:736-754 | the packer then holds exactly the stream, unread |
| `Packing.Packer.PutUnits` | src/uvmsc/policy/uvm_packer.cpp:763-809 | the packer then holds exactly the bits of the units |
| `Packing.Packer.PackFieldInt` | src/uvmsc/policy/uvm_packer.cpp:101-117 | appends the low bits, msb first when big-endian |
| `Packing.Packer.PackInt` | src/uvmsc/policy/uvm_packer.cpp:576-598 | appends the pattern of the integer at the width of its type |
| `Packing.Packer.PackReal` | src/uvmsc/policy/uvm_packer.cpp:177-180 | appends the 64 bits of the real |
| `Packing.Packer.PackChar` | src/uvmsc/policy/uvm_packer.cpp:955-983 | appends one byte |
| `Packing.Packer.PackString` | src/uvmsc/policy/uvm_packer.cpp:131-148 | appends the bytes and, with metadata, a NUL |
| `Packing.Packer.PackBool` | src/uvmsc/policy/uvm_packer.cpp:1016-1027 | appends one bit |
| `Packing.Packer.PackScBv` | src/uvmsc/policy/uvm_packer.cpp:1058-1064 | appends the vector, lsb first in either byte order |
| `Packing.Packer.PackScInt` | src/uvmsc/policy/uvm_packer.cpp:1096-1110 | the bit-by-bit writer appends the same bits as the range writer |
| `Packing.Packer.PackVector` | src/uvmsc/policy/uvm_packer.h:183-204 | appends the size as a 32-bit int and then the elements |
| `Packing.Packer.PackElements` | src/uvmsc/policy/uvm_packer.h:189-191 | appends the elements in order |
| `Packing.Packer.PackValue` | src/uvmsc/policy/uvm_packer.h:183-264 | appends the encoding of the value |
| `Packing.Packer.UnpackFieldInt` | src/uvmsc/policy/uvm_packer.cpp:267-295 | the next bits as a number; zero and nothing consumed when too few remain |
| `Packing.Packer.UnpackInt` | src/uvmsc/policy/uvm_packer.cpp:576-586 | the next bits as an integer of the type; zero and nothing consumed when too few remain |
| `Packing.Packer.UnpackReal` | src/uvmsc/policy/uvm_packer.cpp:437-444 | the next real; zero and nothing consumed when too few bits remain |
| `Packing.Packer.UnpackBool` | src/uvmsc/policy/uvm_packer.cpp:1031-1042 | the next bit of the buffer |
| `Packing.Packer.ReadByte` | src/uvmsc/policy/uvm_packer.cpp:365-371 | the byte, its bits swapped back when big-endian |
| `Packing.Packer.UnpackString` | src/uvmsc/policy/uvm_packer.cpp:346-395 | exactly what the string decoder reads |
| `Packing.Packer.UnpackChars` | src/uvmsc/policy/uvm_packer.cpp:358-385 | the loop reads up to a NUL or a count, never past the packed bits |
| `Packing.Packer.NextByte` | src/uvmsc/policy/uvm_packer.cpp:365-371 | the next byte in the order of the bits, and the cursor moves past it |
| `Packing.Packer.UnpackScBv` | src/uvmsc/policy/uvm_packer.cpp:1066-1071 | the next bits, and the cursor moves past them |
| `Packing.Packer.UnpackScInt` | src/uvmsc/policy/uvm_packer.cpp:1112-1126 | the bit-by-bit reader reads the same bits |
| `Packing.Packer.UnpackValue` | src/uvmsc/policy/uvm_packer.h:212-262 | exactly what the decoder reads |
| `Packing.Packer.UnpackElements` | src/uvmsc/policy/uvm_packer.h:244-248 | that many elements, in order |
| `Packing.Packer.IsNull` | src/uvmsc/policy/uvm_packer.cpp:251-254 | true just when the next four bits are the null header |
| `Packing.Packer.IncUnpackIndex` | src/uvmsc/policy/uvm_packer.cpp:936-947 | the cursor moves and the unread part shrinks |
| `Packing.PlainScope` | src/uvmsc/policy/uvm_packer.cpp:221-224 | entering and leaving an object restores the scope if its name opens no bracket |
| `ScopeStack.DownUpExact` | src/uvmsc/misc/uvm_scope_stack.cpp:91-142 | up undoes down just when the separator closes the name or nothing lies beneath, and otherwise pops on below; the dot closes names that open no bracket, any other separator names that start with it |
| `ScopeStack.ElementUpExact` | src/uvmsc/misc/uvm_scope_stack.cpp:105-118 | up_element undoes down just for an empty name or an element, and leaves any other name alone |
| `ScopeStack.JoinedExact` | src/uvmsc/misc/uvm_scope_stack.cpp:49-76 | names follow behind a dot and bracketed parts directly; the argument comes last, behind a dot if anything precedes it |
| `ScopeStack.ElementNameExact` | src/uvmsc/misc/uvm_scope_stack.cpp:97-103 | an element is its number in decimal, with its sign, between square brackets |
| `ScopeStack.DigitsExact` | src/uvmsc/misc/uvm_scope_stack.cpp:97-103 | the digits are those of the number, without leading zeros |
| `ScopeStack.WellNestedRestores` | src/uvmsc/misc/uvm_scope_stack.cpp:91-142 | every well-nested use with such names leaves the stack as it was |
| `ScopeStack.NameRecovered` | src/uvmsc/misc/uvm_misc.cpp:207-249 | over a dot the leaf of the joined stack is the last name just when that is dot-free and something non-empty precedes it |
| `ScopeStack.ElementRecovered` | src/uvmsc/misc/uvm_misc.cpp:207-249 | over a bracket the leaf is always the last element pushed |
| `ScopeStack.BracketRecovered` | src/uvmsc/misc/uvm_misc.cpp:207-249 | for each of the four kinds of bracket the leaf of a text that ends in a bracketed part is that part, nested brackets included |
| `ScopeStack.LeafUnique` | src/uvmsc/misc/uvm_misc.cpp:222-240 | a text has one leaf |
| `ScopeStack.LeafScope` | src/uvmsc/misc/uvm_misc.cpp:207-249 | returns that leaf: from the last position where the bracket-balancing scan may stop |
| `ScopeStack.ScopeStack.Get` | src/uvmsc/misc/uvm_scope_stack.cpp:49-76 | the stack joined, elements directly and names after a dot, then the argument |
| `ScopeStack.ScopeStack.Up` | src/uvmsc/misc/uvm_scope_stack.cpp:120-142 | pops down to and including the nearest matching entry |
| `ScopeStack.ScopeStack.UpElement` | src/uvmsc/misc/uvm_scope_stack.cpp:105-118 | pops the top unless it is a name |
| `ScopeStack.ScopeStack.Down` | src/uvmsc/misc/uvm_scope_stack.cpp:91-95 | pushes the name and clears the argument |
| `ScopeStack.ScopeStack.DownElement` | src/uvmsc/misc/uvm_scope_stack.cpp:97-103 | pushes the bracketed number and clears the argument |
| `ScopeStack.ScopeStack.Set` | src/uvmsc/misc/uvm_scope_stack.cpp:83-89 | the stack holds just this |
| `GlobMatching.TranslationExact` | src/uvmsc/base/uvm_globals.cpp:306-423 | the translation accepts exactly what the glob matches just when the glob holds neither ^ nor $ and, for POSIX, its translation is at most 2040 characters |
| `GlobMatching.TranslationSound` | src/uvmsc/base/uvm_globals.cpp:268-273 | for such globs, one string at a time and for both engines |
| `GlobMatching.AnchorsBreak` | src/uvmsc/base/uvm_globals.cpp:354-415 | every glob with an anchor has a string on which the two disagree |
| `GlobMatching.ItemsMatch` | src/uvmsc/base/uvm_globals.cpp:358-407 | the regular expression matches from a position just when the glob matches the rest |
| `GlobMatching.ParseTranslation` | src/uvmsc/base/uvm_globals.cpp:306-423 | the translation parses to one item for each character of the glob |
| `GlobMatching.EmptyGlob` | src/uvmsc/base/uvm_globals.cpp:334-338 | the empty glob matches only the empty string under std::regex but everything under POSIX |
| `GlobMatching.LiteralGlob` | src/uvmsc/base/uvm_globals.cpp:275-293 | a name without wildcards matches only itself |
| `GlobMatching.WildcardExact` | src/uvmsc/base/uvm_globals.cpp:275-293 | a name counts as a glob just when it is a slash expression or matches something other than itself |
| `Glob.GlobToReChar` | src/uvmsc/base/uvm_globals.cpp:311-423 | fills the static buffer with the translation and a NUL, or refuses and leaves it alone |
| `Glob.PutRegex` | src/uvmsc/base/uvm_globals.cpp:346-422 | bracket, anchor, translation, anchor, bracket |
| `Glob.PutTranslated` | src/uvmsc/base/uvm_globals.cpp:358-407 | the loop appends the translation of each character |
| `Glob.TranslateTwice` | src/uvmsc/base/uvm_globals.cpp:341-345 | translating twice is translating once |
| `Glob.TranslationFits` | src/uvmsc/base/uvm_globals.cpp:311-327 | globs of at most 1021 characters need at most 2n+5 characters with the NUL, inside the buffer |
| `Glob.OverflowExact` | src/uvmsc/base/uvm_globals.cpp:311-327 | a glob that is not refused overruns the static buffer just when its length, one for each character that is translated to two, the missing anchors, the brackets and the NUL add up to more than 2048 |
| `Glob.StarsOverflow` | src/uvmsc/base/uvm_globals.cpp:311-327 | an instance: 1021 stars are the most that fit, although 2040 characters are let through |
| `PoolHistory.FastPathAgrees` | src/uvmsc/conf/uvm_resource_pool.cpp:508-547 | when the names with something visible are plain, looking up by name gives the same queue, in the same order, as matching every name as a regular expression |
| `PoolHistory.FastPathExact` | src/uvmsc/conf/uvm_resource_pool.cpp:521-525 | for every table of wildcard-free names: the two agree on all lookups just when no name with something visible holds an anchor (or is too long for POSIX) |
| `PoolHistory.FastPathFails` | src/uvmsc/conf/uvm_resource_pool.cpp:521-525 | each name that breaks this condition yields a lookup on which they differ |
| `ResourcePool.ScanHolds` | src/uvmsc/conf/uvm_resource_pool.cpp:528-545 | a resource is scanned just when a name that accepts the lookup holds it visibly |
| `PoolHistory.PlainNameMatchesItself` | src/uvmsc/conf/uvm_resource_pool.cpp:538 | a plain name matches only itself |
| `PoolHistory.QueueOrder` | src/uvmsc/conf/uvm_resource_pool.cpp:126-185 | after any history of insertions the queue of a name or type lists the overriding ones newest first and then the ordinary ones oldest first |
| `PoolHistory.TablesAgree` | src/uvmsc/conf/uvm_resource_pool.cpp:741-746 | after any mix of insertions and priority moves a named resource is as often in the name table as in the type table |
| `PoolHistory.RunKeyed` | src/uvmsc/conf/uvm_resource_pool.cpp:138-176 | resources are only ever filed under their own name and type, never under the empty name |
| `ResourcePool.MovedPermutes` | src/uvmsc/conf/uvm_resource_pool.cpp:629-661 | a priority move only permutes a queue |
| `ResourcePool.MovedToEnd` | src/uvmsc/conf/uvm_resource_pool.cpp:629-661 | the first occurrence goes to the requested end and the others keep their order |
| `ResourcePool.Resource.constructor` | src/uvmsc/conf/uvm_resource_base.h:57-58 | scope translated, default precedence, wildcard flag from the name |
| `ResourcePool.Resource.Write` | src/uvmsc/conf/uvm_resource.h:370-385 | replaces the value unless read-only |
| `ResourcePool.ResourcePool.Set` | src/uvmsc/conf/uvm_resource_pool.cpp:126-185 | files the resource in both tables, at the front where overriding; the wildcard flag stays right |
| `ResourcePool.ResourcePool.SetPriorityQueue` | src/uvmsc/conf/uvm_resource_pool.cpp:629-661 | moves the first occurrence, or leaves a queue without it alone |
| `ResourcePool.ResourcePool.SetPriorityType` | src/uvmsc/conf/uvm_resource_pool.cpp:671-697 | moves it in its type queue |
| `ResourcePool.ResourcePool.SetPriorityName` | src/uvmsc/conf/uvm_resource_pool.cpp:707-731 | moves it in its name queue |
| `ResourcePool.ResourcePool.SetPriority` | src/uvmsc/conf/uvm_resource_pool.cpp:741-746 | moves it in both queues |
| `ResourcePool.ResourcePool.LookupName` | src/uvmsc/conf/uvm_resource_pool.cpp:298-330 | the resources of the name that scope and type admit, in queue order |
| `ResourcePool.ResourcePool.LookupRegexNames` | src/uvmsc/conf/uvm_resource_pool.cpp:508-547 | the fast path while no wildcard name exists, else the scan in key order |
| `ResourcePool.ResourcePool.Matching` | src/uvmsc/conf/uvm_resource_pool.cpp:535-544 | what one queue contributes to the scan |
| `ResourcePool.VisibleMembers` | src/uvmsc/conf/uvm_resource_pool.cpp:312-326 | of a queue exactly the resources are visible whose scope accepts the asking one and whose type is the one asked for, if any |
| `ResourcePool.VisibleSelects` | src/uvmsc/conf/uvm_resource_pool.cpp:312-326 | and they keep the order of the queue |
| `OrderedKeys.KeysInOrder` | src/uvmsc/conf/uvm_resource_pool.cpp:530 | visits every key once, in the order of std::map |
| `OrderedKeys.BeforeExact` | src/uvmsc/conf/uvm_resource_pool.cpp:530 | map order: at the first difference the smaller character, or the end of the string, comes first |
| `Precedence.SortByPrecedence` | src/uvmsc/conf/uvm_resource_pool.cpp:380-407 | a stable sort, descending by precedence read as a signed int |
| `Precedence.EmptyBuckets` | src/uvmsc/conf/uvm_resource_pool.cpp:399-406 | emptying the buckets in ascending order front first yields the stable descending order |
| `Precedence.SortedByPrecedence` | src/uvmsc/conf/uvm_resource_pool.cpp:389-392 | it is stable and descending by precedence just when no two precedences lie on different sides of 2^31 |
| `Precedence.SortedPermutes` | src/uvmsc/conf/uvm_resource_pool.cpp:380-407 | it is a permutation |
| `Precedence.SortedUnique` | src/uvmsc/conf/uvm_resource_pool.cpp:380-407 | no other order is stable and descending |
| `Precedence.SelectorsAgree` | src/uvmsc/conf/uvm_resource.h:410-450 | whatever types are admitted, the first of them after sorting is the first of greatest precedence before, just when their precedences lie on one side of 2^31 |
| `Precedence.SortedHead` | src/uvmsc/conf/uvm_resource_pool.cpp:342-367 | the head of the sorted queue is the first of the greatest |
| `Precedence.SignedGreatest` | src/uvmsc/conf/uvm_resource_pool.cpp:380-407 | greatest as a signed number is greatest just under the same condition |
| `Precedence.GetHighestPrecedence` | src/uvmsc/conf/uvm_resource_pool.cpp:342-367 | the first resource of greatest precedence, null just for an empty queue |
| `Precedence.GetHighestPrecedenceOf` | src/uvmsc/conf/uvm_resource.h:410-450 | the first of greatest precedence among those of the type, by position in the queue; null just when there is none |
| `Precedence.Chosen` | src/uvmsc/comps/uvm_agent.cpp:81-143 | the first admitted element of a sorted queue is the first of the greatest admitted ones |
| `Agent.Agent.BuildPhase` | src/uvmsc/comps/uvm_agent.cpp:57-144 | the mode is that of the first acceptable resource of greatest signed precedence; a text resource is read but leaves the mode, and so does having none |
| `Agent.Agent.TakeFrom` | src/uvmsc/comps/uvm_agent.cpp:81-143 | an acceptable resource decides: text leaves the mode, wide integers count modulo 2^32 as signed numbers, all others as they are |
| `ConfigDb.ConfigDb.Get` | src/uvmsc/conf/uvm_config_db.h:317-364 | after any history of settings: the value of the setting that wins, or nothing just when no setting covers the query; of the covering ones of greatest precedence that with the first field name in map order wins, and among those of one name the latest |
| `ConfigDb.ConfigDb.Set` | src/uvmsc/conf/uvm_config_db.h:219-304 | appends the setting, located in its context, to the history the database stands for |
| `ConfigDb.ConfigDb.Obtain` | src/uvmsc/conf/uvm_config_db.h:255-276 | the lookup of an earlier resource never hits, so every setting makes a new one with its own precedence |
| `ConfigDb.ConfigDb.File` | src/uvmsc/conf/uvm_config_db.h:284 | filed in front by name and by type |
| `ConfigDb.NewestFirst` | src/uvmsc/conf/uvm_config_db.h:284 | the queue of a name lists the resources of its settings newest first |
| `ConfigDb.WinnerHanded` | src/uvmsc/conf/uvm_config_db.h:342-343 | whether field names are plain or globs, lookup and selection find the resource of the winning setting |
| `ConfigDb.PlainFirst` | src/uvmsc/conf/uvm_resource_pool.cpp:522-525 | the fast path takes the newest of greatest precedence under the one name asked for |
| `ConfigDb.ScanFirst` | src/uvmsc/conf/uvm_resource_pool.cpp:528-545 | the scan takes the newest of greatest precedence under the first name in map order that has one |
| `ConfigDb.ScanGreatest` | src/uvmsc/conf/uvm_resource_pool.cpp:528-545 | the first of greatest precedence in a scan is that of its own queue, and what the names before it hold is smaller |
| `ConfigDb.NothingHanded` | src/uvmsc/conf/uvm_config_db.h:345-356 | they find nothing only if no setting covers the query |
| `ConfigDb.ScanMember` | src/uvmsc/conf/uvm_resource_pool.cpp:530-545 | the scan hands over exactly the resources whose name, read as a glob, and scope match |
| `ConfigDb.WinnerExists` | src/uvmsc/conf/uvm_config_db.h:317-364 | if any setting covers a query, one wins |
| `ConfigDb.WinnerUnique` | src/uvmsc/conf/uvm_config_db.h:317-364 | and no other: covering settings of equal precedence are told apart by field name, then by age |
| `ConfigDb.WinnerIsGreatest` | src/uvmsc/conf/uvm_config_db.h:342-343 | no covering setting has greater precedence than the winner |
| `ConfigDb.PlainWinnerIsLatest` | src/uvmsc/conf/uvm_resource_pool.cpp:522-525 | with plain field names the winner is the latest covering setting among those of greatest precedence |
| `ConfigDb.NearerWins` | src/uvmsc/conf/uvm_config_db.h:268-271 | during build a covering setting made nearer the root beats every one made further down, later ones too, for depths up to 1000 |
| `ConfigDb.OutsideBuildOrder` | src/uvmsc/conf/uvm_config_db.h:268-271 | a setting made outside build has precedence 1000: greater than one made during build just at depths 1 to 1000, equal at depth 0 |
| `ConfigDb.OutsideBuildWins` | src/uvmsc/conf/uvm_config_db.h:268-271 | so a covering one beats every setting made during build beneath the root, earlier or later |
| `ConfigDb.LaterWins` | src/uvmsc/conf/uvm_config_db.h:284 | of two covering settings made outside build, or at one depth during build, the earlier one never wins |
| `ConfigDb.DepthOfChild` | src/uvmsc/base/uvm_component.cpp:320-328 | a top-level component has depth 1 and every child is one deeper than its parent |
| `ConfigDb.LocatedBelow` | src/uvmsc/conf/uvm_config_db.h:245-250 | a call means the same instance from a component and, with the rest of the path, from any component above it |
| `ConfigDb.CoversByGlob` | src/uvmsc/conf/uvm_config_db.h:342 | a setting covers a query just when the types agree and its instance and field, read as globs, match |
| `ConfigDb.DepthOrder` | src/uvmsc/conf/uvm_config_db.h:269 | nearer means greater precedence just when the subtraction wraps around for neither or for both depths |
| `PhaseQueue.RunsAreSound` | src/uvmsc/phasing/uvm_phase_queue.h:112-221 | in every state of every run: never more than a nonzero bound, everything put is everything got followed by the contents, a blocked producer means a full queue or a pending wake-up, a blocked consumer an empty one or a pending wake-up |
| `PhaseQueue.ItemsConserved` | src/uvmsc/phasing/uvm_phase_queue.h:112-221 | in every run the items of the puts that found room, read off the calls, are the items the gets took out, in the same order, followed by what the queue holds |
| `PhaseQueue.StepItems` | src/uvmsc/phasing/uvm_phase_queue.h:112-221 | each step adds the item of a put that finds room at the end, takes the oldest for a get, and does nothing else to the items |
| `PhaseQueue.WantKept` | src/uvmsc/phasing/uvm_phase_queue.h:116-117 | an unfinished call waits for what the latest call of its process asked for |
| `PhaseQueue.CallKept` | src/uvmsc/phasing/uvm_phase_queue.h:113-173 | a call is finished only by being resumed and finding room, or an item; until then it is kept |
| `PhaseQueue.CallStarts` | src/uvmsc/phasing/uvm_phase_queue.h:113-117 | a process is left waiting only by a call that cannot go on |
| `PhaseQueue.NoWakeUpLost` | src/uvmsc/phasing/uvm_phase_queue.h:112-173 | in runs in which every notification is immediate, a process blocked in put means a full queue and one blocked in get or peek an empty one, in every state |
| `PhaseQueue.NeverPending` | src/uvmsc/phasing/uvm_phase_queue.h:120-123 | in such runs no notification is ever left pending |
| `PhaseQueue.NextSound` | src/uvmsc/phasing/uvm_phase_queue.h:112-221 | every step of every process keeps this |
| `PhaseQueue.NotBothBlocked` | src/uvmsc/phasing/uvm_phase_queue.h:112-221 | without pending notifications producers and consumers are never blocked at once |
| `PhaseQueue.FirstInFirstOut` | src/uvmsc/phasing/uvm_phase_queue.h:42-44 | items leave in the order they entered |
| `PhaseQueue.StepsToRest` | src/uvmsc/phasing/uvm_phase_queue.h:112-221 | each resumption and each delivered notification comes closer to rest |
| `PhaseQueue.SettlesSoon` | src/uvmsc/phasing/uvm_phase_queue.h:112-221 | without new calls any schedule of resumptions and deliveries ends, within 3w(w+1) + 2(w+1) + w steps for w unfinished calls |
| `PhaseQueue.SettlingBound` | src/uvmsc/phasing/uvm_phase_queue.h:112-221 | each step lowers a measure that bounds the steps still to come |
| `PhaseQueue.AtRest` | src/uvmsc/phasing/uvm_phase_queue.h:112-221 | and then nobody who could go on is still blocked |
| `PhaseQueue.EmptyLosesWakeUp` | src/uvmsc/phasing/uvm_phase_queue.h:231-240 | emptying the queue keeps this just when no producer is blocked or space was already pending |
| `PhaseQueue.WakeUpLost` | src/uvmsc/phasing/uvm_phase_queue.h:231-240 | a run of two calls reaches a state in which emptying does lose a wake-up |
| `PhaseQueue.PhaseQueue.Put` | src/uvmsc/phasing/uvm_phase_queue.h:113-124 | one pass: blocked when full, nothing else changed; else the item goes to the end and blocked consumers are made ready, or the notification is left pending |
| `PhaseQueue.PhaseQueue.TryPut` | src/uvmsc/phasing/uvm_phase_queue.h:137-149 | the same without blocking; 0 when full |
| `PhaseQueue.PhaseQueue.Get` | src/uvmsc/phasing/uvm_phase_queue.h:161-173 | one pass: blocked when empty, nothing else changed; else the oldest item leaves and blocked producers are made ready, or the notification is left pending |
| `PhaseQueue.PhaseQueue.TryGet` | src/uvmsc/phasing/uvm_phase_queue.h:185-199 | the same without blocking |
| `PhaseQueue.PhaseQueue.Peek` | src/uvmsc/phasing/uvm_phase_queue.h:215-221 | the oldest item, left in place, nobody notified |
| `PhaseQueue.PhaseQueue.Empty` | src/uvmsc/phasing/uvm_phase_queue.h:231-240 | all items dropped and consumers, not producers, notified |
| `PhaseQueue.PhaseQueue.Resume` | src/uvmsc/phasing/uvm_phase_queue.h:116-117 | a woken process tests its condition again |
| `PhaseQueue.PhaseQueue.NotifyForContent` | src/uvmsc/phasing/uvm_phase_queue.h:120-123 | immediate while running, otherwise pending |
| `PhaseQueue.PhaseQueue.NotifyNotFull` | src/uvmsc/phasing/uvm_phase_queue.h:169-172 | likewise |
| `Components.ListedOnce` | src/uvmsc/phasing/uvm_topdown_phase.cpp:122-125 | a whole walk lists each component it is to list exactly once, those created on the way included |
| `Components.ListedInOrder` | src/uvmsc/phasing/uvm_bottomup_phase.cpp:61-64 | parents before their children in a top-down walk, after them in the others |
| `Components.TraverseDown` | src/uvmsc/phasing/uvm_topdown_phase.cpp:53-126 | calls the components in pre-order of the tree as it is after all hooks have run; every component left with its new children and phase marks |
| `Components.TraverseUp` | src/uvmsc/phasing/uvm_bottomup_phase.cpp:53-113 | calls the components in post-order |
| `Components.Traverse` | src/uvmsc/phasing/uvm_phase.cpp:1128-1143 | from the top: for a phase of the common domain every component is called once, for any other exactly those of its domain; top-down build calls just those not built yet |
| `Components.WholeWalk` | src/uvmsc/phasing/uvm_topdown_phase.cpp:53-126 | from the top nothing is left out |
| `Components.FindAllRecurse` | src/uvmsc/base/uvm_root.cpp:450-465 | appends the named components whose full name matches, in post-order |
| `Components.FindAll` | src/uvmsc/base/uvm_root.cpp:296-304 | exactly the components with a name whose full name the pattern matches, as a glob where it is translated faithfully, each once |
| `Components.WalkChildren` | src/uvmsc/phasing/uvm_topdown_phase.cpp:122-125 | the loop over the cursor walks all children in map order, whatever happens below them |
| `Components.WalkOne` | src/uvmsc/base/uvm_component.cpp:203-219 | the cursor of a component survives the walk of its child |
| `ComponentTree.EveryComponentOnce` | src/uvmsc/phasing/uvm_topdown_phase.cpp:53-126 | either walk from the root meets every component exactly once just when no component goes by the empty name |
| `Components.AddNamedChild` | src/uvmsc/base/uvm_component.cpp:1598-1601 | adding a child with a name argument gives a tree whose walks, top-down and bottom-up, never meet the child |
| `ComponentTree.WalkOrder` | src/uvmsc/phasing/uvm_topdown_phase.cpp:53-126 | every child that is walked comes after its parent in pre-order, before it in post-order |
| `ComponentTree.SiblingOrder` | src/uvmsc/base/uvm_component.cpp:203-219 | siblings are walked in the map order of their names |
| `ComponentTree.WalkReaches` | src/uvmsc/phasing/uvm_topdown_phase.cpp:122-125 | a walk reaches every component |
| `ComponentTree.WalkOnce` | src/uvmsc/phasing/uvm_topdown_phase.cpp:122-125 | and none twice |
| `ComponentTree.WalkHasParent` | src/uvmsc/base/uvm_component.cpp:203-240 | a component is met only through its parent, by a name the cursor comes to |
| `ComponentTree.CursorReaches` | src/uvmsc/base/uvm_component.cpp:203-240 | counting through the keys comes to the same names as iterating |
| `ComponentTree.OrderUnique` | src/uvmsc/base/uvm_component.cpp:210-213 | map order is determined by the keys |
| `Components.Component.GetFirstChild` | src/uvmsc/base/uvm_component.cpp:228-240 | the cursor at zero and the first name, unless that is empty |
| `Components.Component.GetNextChild` | src/uvmsc/base/uvm_component.cpp:203-219 | the cursor one further and its name |
| `Components.Component.AddChild` | src/uvmsc/base/uvm_component.cpp:1596-1628 | refuses a name in use and a component already there; a non-empty name argument files the child under the empty name |
| `Components.Component.Execute` | src/uvmsc/phasing/uvm_topdown_phase.cpp:92-97 | the phase code runs once and its new children are registered in order |
| `Components.FirstNamedStays` | src/uvmsc/base/uvm_component.cpp:1596-1628 | children registered before stay, and of new ones with one name the first is taken if the name is free |
| `Components.Component.VisitDown` | src/uvmsc/phasing/uvm_topdown_phase.cpp:72-120 | for a phase of the common domain or its own, and else nothing: the call, the phase mark, and for execution the new children, build only once |
| `Components.Component.VisitUp` | src/uvmsc/phasing/uvm_bottomup_phase.cpp:77-112 | the same bottom-up, without asking whether build is done |
| `CallbackHistory.HistoryUnique` | src/uvmsc/cb/uvm_callbacks.h:240-390 | in every history without overlapping seeds no queue ever holds a callback twice |
| `CallbackHistory.StepUnique` | src/uvmsc/cb/uvm_callbacks.h:366-380 | each operation keeps queues duplicate-free, except adding to a report object with an empty queue, which does so just when the two typewide queues it starts from are disjoint |
| `CallbackHistory.DuplicateArises` | src/uvmsc/cb/uvm_callbacks.h:366-380 | a history of two additions, typewide and to a report object, that leaves a callback twice in one queue |
| `CallbackHistory.DeletedEverywhere` | src/uvmsc/cb/uvm_typed_callbacks.h:285-326 | after a typewide delete neither the type nor a descendant nor any object has the callback |
| `CallbackHistory.AddedEverywhere` | src/uvmsc/cb/uvm_typed_callbacks.h:226-274 | after a typewide addition of a callback the type did not have, every type of the family and every object with a queue and such a type has it, at the requested end if it was new there; nothing else has changed |
| `CallbackHistory.AddThenDelete` | src/uvmsc/cb/uvm_typed_callbacks.h:226-326 | adding a callback typewide and deleting it again restores everything just when neither the family nor any object had it before |
| `CallbackHistory.AddOneThenDelete` | src/uvmsc/cb/uvm_callbacks.h:349-510 | the same for one object, just when it had a queue that was non-empty and without the callback, or empty with no seed but the callback |
| `CallbackHistory.AppendExtends` | src/uvmsc/cb/uvm_callbacks.h:349-388 | appending a new callback to an object extends what it showed before just when its queue is non-empty or what it used without one is the seed |
| `CallbackHistory.AppendLists` | src/uvmsc/cb/uvm_callbacks.h:780-802 | so the listing of a non-report object of a type without derived types gains just that callback at the end |
| `CallbackRegistry.ListingsAgree` | src/uvmsc/cb/uvm_callbacks.h:582-702 | iterating forward lists exactly the enabled callbacks of the kind in queue order, backward the reverse, also after overshooting at either end |
| `CallbackRegistry.ForwardLists` | src/uvmsc/cb/uvm_callbacks.h:651-667 | from any position |
| `CallbackRegistry.BackwardLists` | src/uvmsc/cb/uvm_callbacks.h:686-702 | from any position |
| `CallbackRegistry.TypewideIsMostDerived` | src/uvmsc/cb/uvm_typed_callbacks.h:155-176 | the typewide queue found for an object is that of a descendant it can be cast to, and to none of whose derived types |
| `CallbackRegistry.TypewideOfFirst` | src/uvmsc/cb/uvm_typed_callbacks.h:160-169 | of several derived types the object can be cast to the one registered first decides |
| `CallbackRegistry.Registry.Add` | src/uvmsc/cb/uvm_callbacks.h:240-390 | null and unregistered callbacks are refused; typewide additions go to the whole family, others to the queue of the object, which if empty starts from the typewide ones |
| `CallbackRegistry.Registry.Delete` | src/uvmsc/cb/uvm_callbacks.h:466-510 | a typewide deletion does just that, which on duplicate-free queues is deletion from the whole family and all objects; others go to the queue of the object; reports whether any was found |
| `CallbackRegistry.Registry.AddTypewide` | src/uvmsc/cb/uvm_typed_callbacks.h:226-274 | every type of the family and every object of these types that has a queue gets the callback at the requested end, wherever it is missing; no other queue changes |
| `CallbackRegistry.Registry.DeleteTypewide` | src/uvmsc/cb/uvm_typed_callbacks.h:285-326 | visits the type and its descendants, a type as often as paths lead to it; each visit deletes the first occurrence from the queue of the type and from those of all objects |
| `CallbackRegistry.Registry.DeleteFromDerived` | src/uvmsc/cb/uvm_typed_callbacks.h:317-323 | one pass of the loop over the derived types: the visits grow by those below that type |
| `CallbackRegistry.Registry.AddToObjects` | src/uvmsc/cb/uvm_typed_callbacks.h:245-265 | objects of the type get it unless they have it |
| `CallbackRegistry.Registry.DeleteFromObjects` | src/uvmsc/cb/uvm_typed_callbacks.h:301-316 | every object loses it |
| `CallbackRegistry.Registry.GetTypewide` | src/uvmsc/cb/uvm_typed_callbacks.h:155-176 | the first derived type the object can be cast to, depth first |
| `CallbackRegistry.Registry.GetQueue` | src/uvmsc/cb/uvm_callbacks.h:780-802 | the queue of the object, or the typewide one |
| `CallbackRegistry.Registry.GetFirst` | src/uvmsc/cb/uvm_callbacks.h:582-598 | the first enabled callback of the kind, null just when there is none |
| `CallbackRegistry.Registry.GetNext` | src/uvmsc/cb/uvm_callbacks.h:651-667 | the next enabled callback of the kind, or null |
| `CallbackRegistry.Registry.GetLast` | src/uvmsc/cb/uvm_callbacks.h:615-631 | the last one |
| `CallbackRegistry.Registry.GetPrev` | src/uvmsc/cb/uvm_callbacks.h:686-702 | the previous one, or null |
| `CallbackRegistry.Registry.DoCallbacks` | src/uvmsc/macros/uvm_callback_defines.h:78-88 | calls exactly the enabled callbacks of the kind, in queue order |
| `CallbackRegistry.Registry.Find` | src/uvmsc/cb/uvm_typed_callbacks.h:185-191 | the first position, or -1 just when absent |
| `CallbackRegistry.Registry.Remove` | src/uvmsc/conf/uvm_queue.h:240-258 | the first occurrence goes |
| `Callbacks.FamilyClosed` | src/uvmsc/cb/uvm_typed_callbacks.h:267-273 | a family is closed under derivation |
| `Callbacks.FamilyLeast` | src/uvmsc/cb/uvm_typed_callbacks.h:267-273 | and is the least such set |
| `Callbacks.AddedTwice` | src/uvmsc/cb/uvm_typed_callbacks.h:267-273 | adding to two families in turn is adding to their union, so shared descendants do no harm |
| `Callbacks.AddedSpreads` | src/uvmsc/cb/uvm_typed_callbacks.h:226-274 | an addition to a set of types reaches those types and the objects of these types, and nothing else |
| `Callbacks.PurgedMeans` | src/uvmsc/cb/uvm_typed_callbacks.h:285-326 | a deletion takes one occurrence per visit from a type and one per visit at all from each object; other callbacks and types are not touched |
| `Callbacks.PurgedTwice` | src/uvmsc/cb/uvm_typed_callbacks.h:317-323 | visiting some types and then others is visiting the one list, duplicates or not |
| `Callbacks.PurgedUnique` | src/uvmsc/cb/uvm_typed_callbacks.h:285-326 | on duplicate-free queues the visits delete the callback from all types visited and from all objects |
| `Callbacks.VisitsFamily` | src/uvmsc/cb/uvm_typed_callbacks.h:317-323 | the types visited are exactly the family |
| `CallbackHistory.PurgedFamily` | src/uvmsc/cb/uvm_typed_callbacks.h:285-326 | so on duplicate-free queues a typewide deletion is deletion from the family, and leaves no trace of the callback |
| `Callbacks.DeletedUnique` | src/uvmsc/cb/uvm_typed_callbacks.h:285-326 | a deletion leaves queues duplicate-free and none of them with the callback |
| `Packing.Packer.constructor` | src/uvmsc/policy/uvm_packer.cpp:36-52 | little-endian, no metadata, nothing allocated |
| `Packing.Packer.Store` | src/uvmsc/policy/uvm_packer.cpp:110 | changes just those bits |
| `Packing.Packer.StoreUnits` | src/uvmsc/policy/uvm_packer.cpp:763-809 | writes the units in order, each swapped when big-endian |
| `ScopeStack.ScopeStack.constructor` | src/uvmsc/misc/uvm_scope_stack.cpp:38 | empty |
| `Glob.PutEnd` | src/uvmsc/base/uvm_globals.cpp:414-418 | the end anchor unless the translation has one, then the bracket |
| `Precedence.PushAll` | src/uvmsc/conf/uvm_resource_pool.cpp:401-405 | pushing a bucket in front reverses it |
| `ConfigDb.ConfigDb.constructor` | src/uvmsc/conf/uvm_config_db.h:195-205 | no settings yet |
| `PhaseQueue.PhaseQueue.constructor` | src/uvmsc/phasing/uvm_phase_queue.h:81-85 | empty, with the bound taken as unsigned |
| `Components.WalkChild` | src/uvmsc/phasing/uvm_topdown_phase.cpp:124 | one child walked; what was visited stays visited and the others go on waiting |
| `CallbackRegistry.Registry.AddToType` | src/uvmsc/cb/uvm_typed_callbacks.h:236-265 | the type and its objects, not the derived types |
| `CallbackRegistry.Registry.DeleteFromType` | src/uvmsc/cb/uvm_typed_callbacks.h:293-316 | one such visit: the first occurrence goes from the type and from all objects, not from derived types |
| `CallbackRegistry.Registry.Insert` | src/uvmsc/cb/uvm_typed_callbacks.h:236-243 | at the requested end unless already there |
| `CallbackRegistry.Registry.Scan` | src/uvmsc/cb/uvm_callbacks.h:590-595 | the loop of the forward iterators |
| `CallbackRegistry.Registry.ScanBack` | src/uvmsc/cb/uvm_callbacks.h:623-628 | the loop of the backward iterators |
| `Callbacks.RegisteredTwice` | src/uvmsc/cb/uvm_typed_callbacks.h:317-323 | a deletion in two steps finds the callback just when one in one step would |

## Left out

- 32-bit overflow of bit counts and cursors: buffers of 2^31 bits and more are not modelled.
- A packer that has not allocated yet holds an array of length zero here instead of a null pointer.
- Packing.UvmObject.PackUnits: asks for at least one packed bit, because with none the unsigned count wraps around and the program reads on.
- Packing.Packer.GetUnits: asks for at least one unread bit, for the same reason.
- PackUnpack.TransferUnits: asks for an object that packs at least one bit, for the same reason.
- Packing.Packer.UnpackValue: asks that the packed bits suffice for the whole value, as the documentation of unpacking does (src/uvmsc/base/uvm_object.cpp:636-640); beyond them the program reads zeros for numbers and stale bits for booleans, bit vectors and headers, or runs out of the buffer. The integer, real and string readers are modelled without that condition.
- Packing.Packer.UnpackElements: asks that the packed bits suffice for the elements, for the same reason as UnpackValue.
- Packing.Packer.UnpackField: asks that the packed bits suffice for the field, for the same reason as UnpackValue.
- Packing.Packer.UnpackObject: asks that the packed bits suffice for the whole object, for the same reason as UnpackValue.
- Packing.Packer.UnpackEntered: asks that the packed bits suffice for the header and the object, for the same reason as UnpackValue.
- Packing.Packer.UnpackBody: asks that the packed bits suffice for the fields of the object, for the same reason as UnpackValue.
- Packing.UvmObject.DoUnpack: asks that the packed bits suffice for the fields that remain, for the same reason as UnpackValue.
- Packing.UvmObject.MUnpackPost: asks that the packed bits suffice for the whole object, for the same reason as UnpackValue.
- Packing.UvmObject.Unpack: asks that the packed bits suffice for the whole object, for the same reason as UnpackValue.
- Packing.UvmObject.UnpackUnits: asks that the packed bits suffice for the whole object, for the same reason as UnpackValue.
- Fields wider than 64 bits through `pack_field`, the X and Z values of sc_logic and sc_lv, pack_time with its rounding, float, and null objects.
- What do_pack and do_unpack are: an object is the list of fields and references that its hooks visit.
- ScopeStack.LeafScope: asks for a non-empty name; for the empty one the program reads before the start of the text.
- Glob.GlobToReChar: asks that the translation fits the static buffer; the program writes past its end otherwise, and `Glob.OverflowExact` says for which globs.
- Embedded NULs in globs, and the sharing of the one static buffer between calls.
- Regular expressions outside the subset (user-written `/…/` ones, and globs with backslash, bar or braces): what the engine does with them is a parameter.
- Lookups with `rpterr` set, which the stub spell checker empties, access records, print and dump functions, lookup by type alone and `set_scope` after construction.
- Waiters of the configuration database, `exists`, and resources written or filed by other means than settings.
- Which phase is current is a parameter of `ConfigDb.Set`; components are the names and depth that settings read of them.
- The kernel: the phase queue knows processes, immediate and pending notifications only. A negative bound is stored as the program stores it.
- Phase domains other than as numbers, phase implementations replaced through `m_phase_imps`, verbosity settings and tracing; a hook adds children only beneath the component it runs for, and build always calls the base class.
- `uvm_component::lookup`, whose substring bounds drop a character, and `get_children`.
- Registration checks of callbacks are a parameter, as are the types an object can be cast to; add_by_name and delete_by_name, which go through a null pointer; null queues in the pool.
- CallbackRegistry.Registry.Delete: asks that an object has a queue, because the program follows a null pointer otherwise.
- Reporting, printing, recording, the factory, sequencers, objections and phase scheduling.
