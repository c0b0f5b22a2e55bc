# au3 objects, string interning and values

This project models two parts of the au3 scripting VM's runtime core in Dafny.

- **Objects (`src/object.c`).** Every heap object is pushed onto the head of the intrusive list `gc->objects`. Strings are interned through the `vm->strings` table:
  - `str_take` and `str_copy` first look the bytes up.
  - On a hit they return the interned object. `str_take` also frees the buffer it was handed.
  - On a miss `str_take` wraps the caller's buffer, while `str_copy` builds a fresh NUL-terminated copy, lowered when case is ignored. The new string goes in the table with the null marker.
  - `fun_new` and `map_new` build functions and maps.
  - `map_set` interns a key, keeps key and value on the stack while it writes the map's table, then pops both.
  - `obj_typeof` and `obj_print` dispatch on the type tag.
  - `obj_free` releases an object and what it owns.
- **Values (`src/value.c`).** A four-way tagged value (null, bool, integer, number) has type names, equality and printing. `au3ValueArray` is the growable constant pool: a full array grows to 8 slots, or to double its capacity.

The model has three modules:
- `LibC` states the C library behaviour these files rely on: C strings, ASCII `tolower` and `%lld`.
- `Values` models `src/value.c`. `ValueArray` is a class whose methods update `values`, `capacity` and `count` in place.
- `Objects` models `src/object.c`. `VM` is a class holding the parts of `au3VM` (`src/vm.h`) that object.c uses: the object list, the interning table and the stack. Each `Object` is a class instance whose `next` and body fields are updated in place.

Functions the files call but do not define become parameters:
- `hash_string` becomes `hasher`.
- The answer of `tab_findstr` becomes `interned`: either null or a string already in the table.
- The `%p` text becomes `pointerText`.
- `printf("%.14g")` becomes `formatNumber`.
- C's `==` on doubles becomes `doubleEq`.

## Model

| member | source | states |
|---|---|---|
| LibC.CText | src/object.c:125 | A C buffer denotes the prefix before its first NUL: a prefix of the buffer, NUL-free, and ended by a NUL unless the buffer runs out |
| LibC.TerminatedText | src/object.c:61 | A NUL-free text followed by a terminator denotes exactly that text, whatever follows |
| LibC.TerminatorKeepsText | src/object.c:61 | Appending a terminator never changes the text a buffer denotes |
| LibC.ToLower | src/object.c:64 | ASCII `tolower`: the result is never upper case, a character is kept exactly when it is not A-Z, and A-Z move by the fixed offset to a-z |
| LibC.Lowered | src/object.c:63-64 | Lowering a byte sequence keeps its length and lowers every position |
| LibC.LoweredIdempotent | src/object.c:63-64 | Lowering already lowered bytes changes nothing |
| LibC.LoweredKeepsText | src/object.c:63-64 | Lowering leaves the first NUL where it was, so the C text of the lowered buffer is the lowered C text |
| LibC.DecimalText | src/value.c:31 | What `%lld` prints starts with a minus sign exactly for negative integers, and otherwise with a digit |
| LibC.NatText | src/value.c:31 | The digits of a natural number are at least one decimal digit, with a leading zero only for zero |
| LibC.NatTextValue | src/value.c:31 | Reading back the digits of `n` gives `n` |
| LibC.DecimalRoundTrip | src/value.c:31 | What `%lld` prints is a well-formed signed decimal that reads back as the printed integer |
| LibC.DecimalTextInjective | src/value.c:31 | Distinct integers print as distinct texts |
| Values.TypeName | src/value.c:6-19 | The type name is one of the four names, and it is "null" exactly for null and for an unrecognised tag (the `default` branch) |
| Values.TypeNameSeparatesTags | src/value.c:6-19 | On the four named tags, two values have the same type name exactly when they have the same tag |
| Values.ValuesEqual | src/value.c:39-51 | Equal values share a tag, an unrecognised tag is never equal, and numbers compare by the double comparison |
| Values.EqualityIsIdentityOnPlain | src/value.c:41-46 | For null, bool and integer, equality holds exactly when the tags and payloads are identical |
| Values.EqualityReflexiveOnPlain | src/value.c:43-46 | Null, bool and integer values equal themselves |
| Values.EqualitySymmetric | src/value.c:39-51 | Equality is symmetric whenever the double comparison is |
| Values.EqualValuesShareTypeName | src/value.c:39-51 | Equal values report the same type name |
| Values.PrintValue | src/value.c:21-37 | An integer prints as a signed decimal that reads back as the integer, and an unrecognised tag prints nothing |
| Values.PrintSeparatesPlain | src/value.c:24-31 | Two null, bool or integer values print the same text exactly when they are the same value |
| Values.GrowCapacity | src/value.c:69-70 | The grown capacity exceeds the old one; it is exactly 8 below 8 and exactly double from 8 on |
| Values.GrowthStaysOnLadder | src/value.c:69-70 | Growing from 0, or from a capacity growth produced, gives 8, 16, 32 and so on |
| Values.Realloc | src/value.c:71 | The reallocated block has the requested size and starts with the old block's values |
| Values.ValueArray.constructor | src/value.c:53-58 | A new, initialised array has no buffer, zero capacity, zero count and no contents |
| Values.ValueArray.Init | src/value.c:53-58 | Initialising leaves count 0, capacity 0, no buffer and the capacity invariant |
| Values.ValueArray.Free | src/value.c:60-65 | Freeing leaves count 0, capacity 0, no buffer and the capacity invariant |
| Values.ValueArray.Write | src/value.c:67-76 | Writing appends exactly the value to the contents and keeps every earlier element. The count grows by one. It grows to `GrowCapacity` in a fresh buffer only when the array was full, and otherwise keeps the buffer and capacity. Count stays within capacity |
| Objects.Object.constructor | src/object.c:21-22 | A new object carries the requested tag, with no successor and no body yet |
| Objects.Fold | src/object.c:63-64 | The stored bytes keep the length; with `ignorecase` no byte is upper case, and without it the bytes are the caller's |
| Objects.FoldIdempotent | src/object.c:63-64 | Folding stored bytes again with the same flag changes nothing |
| Objects.CopiedText | src/object.c:59-64 | The copied, terminated buffer denotes as a C string the folded C text of the caller's bytes |
| Objects.CopyChars | src/object.c:59-64 | The buffer is fresh, has `length + 1` slots, holds the folded bytes and ends in NUL |
| Objects.ObjTypeof | src/object.c:100-110 | The name is "str" exactly for strings, "fn" exactly for functions, and "obj" for everything else, maps included |
| Objects.ObjPrint | src/object.c:112-135 | A string prints its first `length` characters up to a NUL. A function prints `<script>` exactly when it has no name, and otherwise `fn: ` followed by its name's C text. Maps and other objects print their tag word and address |
| Objects.VM.ListHasNoRepeats | src/object.c:24-25 | In a well-formed object list no object occurs twice |
| Objects.VM.constructor | src/vm.h:18-30 | A new VM has an empty, well-formed object list, an empty table and an empty stack |
| Objects.VM.Push | src/object.c:92-93 | Pushing appends the value to the stack and changes nothing else |
| Objects.VM.Pop | src/object.c:96-97 | Popping returns the top and removes it, changing nothing else |
| Objects.VM.AllocObj | src/object.c:19-27 | The new object is fresh and has the requested tag. It is the new head of the list, and the old list is unchanged as its tail |
| Objects.VM.AllocStr | src/object.c:29-39 | The new string records exactly the given length, buffer and hash. It heads the list and is added to the table with the null marker, growing the table by one |
| Objects.VM.StrTake | src/object.c:41-51 | On a hit the buffer is released, the interned string is returned, and neither the list nor the table changes. On a miss the caller's own buffer becomes a new string hashed case-sensitively, added to the list head and the table |
| Objects.VM.StrCopy | src/object.c:53-67 | On a hit the interned string is returned and nothing is allocated. On a miss a fresh buffer of `length + 1` holds the folded bytes and a NUL. The hash comes from the caller's original bytes with the same flag, and the new string heads the list and joins the table |
| Objects.VM.FunNew | src/object.c:69-77 | The new function has arity 0, no name and a chunk initialised from the source, and is the one object added |
| Objects.VM.MapNew | src/object.c:79-86 | The new map has an initialised hash and an empty table, and is the one object added |
| Objects.VM.TableSet | src/object.c:94 | The key maps to the value and every other entry of the map's table stays; only the map's body changes, never its list link |
| Objects.VM.RootedTableSet | src/object.c:92-97 | After two pushes, the table write and two pops, the stack is as before and the table maps the key to the value |
| Objects.VM.MapSet | src/object.c:88-98 | The key's C text is interned case-sensitively: on a hit the interned string, on a miss a new string whose length is that text's length and whose fresh buffer holds that text and a NUL. The table maps it to the value, and the stack and the map's hash state are as before |
| Objects.VM.ObjFree | src/object.c:137-160 | A string releases its buffer and itself. A function releases its chunk and itself. A map releases its hash and table and itself. An unnamed tag releases nothing |

## Left out

- Floating point: `%.14g` printing (src/value.c:34) and C's `==` on doubles (src/value.c:47) are the parameters `formatNumber` and `doubleEq`. A number is kept as its 64 raw bits.
- `%p` printing of maps and other objects depends on the address, so it is the `pointerText` parameter.
- `malloc`, `realloc` and `free` are modelled as always succeeding. `realloc` hands back a fresh array rather than growing the block in place, and in object.c `free` and `FREE` only record the block in the ghost set `released` of `VM`. In value.c the freeing of the old block by `realloc` and by `au3_freeValueArray` is not recorded: `ValueArray` only drops its reference.
- `gc_realloc` byte accounting, mark and sweep, and the collection trigger: `gc.c` is not part of this model. The pushes in `map_set` are modelled, but no collection runs between them.
- `hash_string`, `tab_findstr`, `tab_set`, `tab_init`/`tab_free`, `hash_init`/`hash_free`, `chunk_init`/`chunk_free`, `vm_push` and `vm_pop` are not part of this model. Only their effects are modelled: the hasher parameter, the lookup answer `interned`, map updates, a `hashLive` flag, a chunk's `source`, and `stack` appends and removals.
- The interning promise that no two interned strings hold the same text is not stated. It holds only when `tab_findstr` answers correctly, and that function is not part of this model.
- Objects.VM.Push: `vm_push` is defined outside src/object.c and src/value.c; the model's Push always succeeds, so the `AU3_MAX_STACK` bound is not modelled. Objects.VM.Pop requires a non-empty stack, which both pops in `map_set` meet.
- Objects.VM.MapSet, Objects.CopyChars: lengths are unbounded; the `(int)` cast of `strlen` (src/object.c:90) and the `int` sum `length + 1` (src/object.c:59) are not modelled to wrap.
- Values.ValueArray.Write: capacity and count are unbounded, so the 32-bit overflow of `capacity * 2` or `count + 1` is not modelled.
- Objects.ObjPrint: a name buffer without a NUL, which `%s` would read past, is modelled as ending at the buffer's end.
- Case-insensitive copies of "abc" and "ABC" are not claimed to meet: `str_copy` looks up with the caller's bytes (src/object.c:56) and stores lowered bytes (src/object.c:63-64), and whether the lookup finds the stored string depends on `tab_findstr`.
- The code keeps `objects` in a separate `gc_t` reached through `vm->gc` (src/object.c:19, 31); the model keeps it on `VM`.
- `tolower` is modelled only in the "C" locale: ASCII A-Z become a-z.
- Objects.VM.ObjFree does not unlink the object from `gc->objects`, and neither does the code. Unlinking belongs to the sweep in `gc.c`.
- `src/vm.h` holds only declarations and constants. Its `au3VM` layout supplies the fields of `VM`.
