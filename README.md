# memdbc in Dafny

memdbc is a small in-memory record store written in C. A record is a byte
value stored under a string key. The store has two parts:

- **The trie engine** (`trietree.c`). It comes in four hand-copied variants:
  ASCII (`att*`, 95 slots per node), digital (`dtt*`, 10 slots), hex (`htt*`,
  16 slots) and octal (`ott*`, 8 slots). Each node holds an optional data
  pointer, a `useCount`, an `inUse` flag and its child slots. The root is the
  node for the empty key. `Insert` fills empty slots on the key's path and
  adds 1 to `useCount` on every node it passes. `Delete` is a soft delete:
  it only clears the terminal node and never frees a node.
- **The database facade** (`memdbc.c`). It dispatches on the database type to
  one trie variant. It keeps a singly-linked key list sorted under `strcmp`
  and a record counter `recCount`. It also offers three read-only
  traversals: find-all by pattern, walk and save.

The model is written as five files:

- `alphabet.dfy` (module `Alphabet`, plus `Values` for byte blobs and
  `Option`): the four character-to-slot mappers and their laws.
- `trie_store.dfy` (module `TrieStore`): one generic trie, parameterised by
  the variant. The nodes live in an arena `seq<Node>`, and a child slot holds
  an arena index or NULL (-1). A ghost label gives each node its slot path
  from the root. The module has the lookup functions, the trie invariant and
  the lemmas that relate the store before and after an insert or a delete.
- `trie_tree.dfy` (module `TrieTree`): the class `Trie`. It holds the arena
  and the root pointer, and its imperative methods follow the C loops. The
  variants differ in the mapper and in whether `FindEnd` checks `inUse`
  (the digital `dttFindEnd` does not).
- `key_order.dfy` (module `KeyOrder`): `strcmp` on strings, and the sorted
  insert and the delete of a key from a sequence of keys.
- `memdbc.dfy` (module `Database`): the class `MemDbc`. Its key list is an
  arena of `(key, ptr)` entries with a `head` index. A ghost `order` gives the
  arena index of each list position, so the pointer relinking of
  `keyListInsert` and `keyListDelete` stays visible. The module also has the
  traversals and the invariant that keeps the list and the trie consistent.

## Model

| member | source | states |
|---|---|---|
| Alphabet.AsciiIdx | trietree.c:55-64 | the ASCII slot is in 0..94; a nonzero slot comes only from a printable character above the space, and every character outside ' '..'~' falls back to slot 0 |
| Alphabet.DigitalIdx | trietree.c:299 | `IDX` is a slot inside `next[10]` exactly for the characters '0'..'9' |
| Alphabet.HexIdx | trietree.c:566-578 | the hex slot is always in 0..15, and every character that is not a hex digit of either case falls back to slot 0 |
| Alphabet.OctalIdx | trietree.c:828-836 | the octal slot is always in 0..7, and every character outside '0'..'7' falls back to slot 0 |
| Alphabet.IdxOfSlotChar | trietree.c:55-64 | every slot of every variant is reached by some character of its alphabet |
| Alphabet.SlotCharOfIdx | trietree.c:566-578 | on its alphabet a mapper yields a slot inside the node; mapping back gives the same character, except that a lower-case hex letter comes back upper case |
| Alphabet.IdxInjective | trietree.c:828-836 | on the ASCII, digital and octal alphabets two characters share a slot only if they are equal |
| Alphabet.HexCaseCollision | trietree.c:568-573 | a lower-case hex letter and its upper-case form share a slot |
| Alphabet.HexPathsCollide | trietree.c:566-578 | the distinct keys "a" and "A" walk the same hex path |
| Alphabet.IdxPathInjective | trietree.c:71-100 | outside the hex variant, distinct keys over the alphabet walk distinct slot paths |
| Alphabet.DigitalIdxOutOfRange | trietree.c:299 | for any character other than a digit, `IDX` falls outside `next[10]` |
| Alphabet.ValidKeyIsIndexable | trietree.c:341 | a key over the alphabet never indexes outside a node; for the non-digital variants no key does |
| TrieStore.FindEndOf | trietree.c:71-100 | a node that FindEnd returns lies inside the store and, for every variant but digital, is in use |
| TrieStore.LookupOf | trietree.c:266-281 | Lookup is NULL whenever FindEnd is; a hit is the data of the node FindEnd returns, a node in use wherever the variant checks it |
| TrieStore.LookupSomeIffData | trietree.c:266-281 | under the trie invariant a lookup finds a value exactly when the walk reaches a node that holds data, and then returns that data |
| TrieStore.PrefixNotFound | trietree.c:71-100 | every prefix of a stored path has a node, and a prefix whose node holds no data is not found |
| TrieStore.WalkConcat | trietree.c:82-93 | walking `p + q` is walking `p` and then walking `q` from there |
| TrieStore.FinishInsert | trietree.c:214-226 | storing the value at the terminal keeps the invariant, completes the insert relation, and the terminal held data exactly when the key was found before |
| TrieStore.InsertLookups | trietree.c:154-238 | after an insert the path yields the value, every other path yields what it yielded before, and NumEntries grew by 1 |
| TrieStore.CompleteInsert | trietree.c:180-232 | from the end of the creating walk, storing the value gives a valid trie with the key found, other paths unchanged, the root count +1, and return code 2 exactly when the key was found before |
| TrieStore.ClearTerminal | trietree.c:250-258 | a deleted terminal holds no data and keeps its children; its useCount drops by 1, floored at 0; its inUse is cleared exactly when that count runs out (or was already 0) |
| TrieStore.DeleteLookups | trietree.c:240-264 | clearing the terminal keeps the invariant, the path is no longer found, other paths are unchanged, and NumEntries drops only for the empty key |
| TrieTree.CountRover | trietree.c:180-231 | one loop step: install a fresh node into an empty slot (never replacing a child), add 1 to its useCount and advance the rover, keeping the walking relation |
| TrieTree.Trie.constructor | trietree.c:43-53 | an initialised trie is empty: no root, zero entries, no key found |
| TrieTree.Trie.FindEnd | trietree.c:71-100 | the node reached along the key's slots, or NULL if a slot is empty or (except for digital, trietree.c:344-345) the terminal is not in use; a found node carries the key's path as label |
| TrieTree.Trie.Lookup | trietree.c:266-281 | returns the terminal's data, or None if FindEnd yields NULL; the trie is not changed |
| TrieTree.Trie.NumEntries | trietree.c:283-297 | 0 for an empty trie, else the root's useCount |
| TrieTree.Trie.WalkCreating | trietree.c:176-232 | walks the key's path creating missing nodes: every node on the path gets +1, new nodes are fresh nodes on the path, and the result is the terminal |
| TrieTree.Trie.Insert | trietree.c:154-238 | a NULL value returns 0 and changes nothing; otherwise it returns 2 if the key held data and 1 if not, the key then yields the value, other paths and off-path nodes are unchanged, and NumEntries grows by 1 |
| TrieTree.Trie.Delete | trietree.c:240-264 | returns -1 and changes nothing when FindEnd is NULL; otherwise it clears the data, decrements useCount (floored at 0), clears inUse at 0 and returns 0; the key is then not found and other paths are unchanged |
| KeyOrder.StrCmp | memdbc.c:55 | the comparison is -1, 0 or 1, and 0 exactly for equal strings |
| KeyOrder.StrCmpFirstDifference | memdbc.c:55 | the sign is decided by the first differing character |
| KeyOrder.StrCmpProperPrefix | memdbc.c:55 | a proper prefix compares less |
| KeyOrder.StrCmpAntisymmetric | memdbc.c:55 | swapping the arguments negates the result |
| KeyOrder.StrCmpTransitive | memdbc.c:55 | less-than is transitive |
| KeyOrder.InsertPos | memdbc.c:55-58 | the insertion point is after every smaller key and before the first key not less than the new one |
| KeyOrder.SortedInsert | memdbc.c:43-71 | the keys after keyListInsert: one entry more, consisting of the old keys and the new one |
| KeyOrder.SortedInsertKeepsSorted | memdbc.c:43-71 | inserting a new key into an ascending list keeps it ascending and adds exactly that one key |
| KeyOrder.Without | memdbc.c:77-97 | the keys after the intended keyListDelete: one entry fewer when the key is listed, and nothing that was not listed before |
| KeyOrder.DeleteAsWritten | memdbc.c:77-97 | the keys after keyListDelete as written: when the key is listed only a proper suffix of the list remains, and nothing that was not listed before |
| KeyOrder.WithoutKeepsSorted | memdbc.c:77-97 | removing the first match keeps the list ascending, removes exactly one copy of the key, and leaves every other key |
| KeyOrder.DeleteOfAbsentKey | memdbc.c:77-97 | deleting a key that is not in the list leaves it unchanged, as intended and as written |
| KeyOrder.DeleteAsWrittenLosesPredecessors | memdbc.c:77-97 | the delete as written agrees with the intended one exactly when the key is first; otherwise it also drops every entry before it |
| KeyOrder.DeleteAsWrittenCounterexample | memdbc.c:82-89 | deleting "b" from ["a", "b"] as written leaves [] where ["a"] was intended |
| Database.LinkIn | memdbc.c:59-68 | linking a new entry at position i (at the tail, in the middle, or as the new head) gives a well-formed list whose keys are the old keys with the new key at i |
| Database.SeekInsert | memdbc.c:55-58 | the search stops at the insertion point, with `next` at that entry and `prev` at the one before |
| Database.Unlink | memdbc.c:82-89 | unlinking position i (moving the head, or bridging over it) gives a well-formed list with exactly that key removed |
| Database.DropThrough | memdbc.c:84-85 | setting the head past position i leaves the list of the entries after it |
| Database.SeekKey | memdbc.c:79-96 | the search stops at the first equal key, with `prev` at the entry before it |
| Database.SeekKeyAsWritten | memdbc.c:79-96 | as written, the search stops at the same entry but `prev` stays NULL |
| Database.FilterMembers | memdbc.c:412-437 | find-all visits exactly the listed keys that match, never more than the list holds |
| Database.FilterSorted | memdbc.c:412-437 | find-all visits keys in ascending order |
| Database.EmittedBound | memdbc.c:178-183 | saving with a callback writes at most one line per entry, and exactly one when the callback never returns NULL |
| Database.WalkOutputSnoc | memdbc.c:127-136 | the walk's output for one more entry grows by that entry's line |
| Database.SavedSnoc | memdbc.c:174-188 | the saved output for one more entry grows by that entry's line |
| Database.ConsistentRecords | memdbc.c:174-176 | in a consistent store the records written without a callback come one per list entry, in strictly ascending key order, each with the non-NULL value the trie holds for its key |
| Database.ConsistentKeySet | memdbc.c:295-297 | in a consistent store the list holds no key twice, and a key over the alphabet is listed exactly when it is found |
| Database.AddKeepsConsistent | memdbc.c:287-330 | an insert keeps the list consistent with the trie: if the key was found the list stays, if it was new it is inserted in order and the count grows |
| Database.DeleteKeepsConsistent | memdbc.c:362-388 | a delete that unlinks the key keeps the list consistent with the trie, with `recCount` unchanged |
| Database.DeleteAsWrittenBreaksConsistency | memdbc.c:383-385 | as written, deleting "b" from a consistent store holding "a" and "b" empties the list while "a" is still found, so the store is no longer consistent |
| Database.MemDbc.constructor | memdbc.c:254-279 | a new database has an empty trie, an empty list and `recCount` 0, and is consistent |
| Database.MemDbc.KeyListInsert | memdbc.c:43-71 | the list's keys are the old keys with the new key at its sorted position; the list stays well-formed |
| Database.MemDbc.KeyListDelete | memdbc.c:77-97 | the list's keys are the old keys minus the first equal one, order kept; unchanged if none matches |
| Database.MemDbc.KeyListDeleteAsWritten | memdbc.c:77-97 | the delete as written: unlinking keeps the list well-formed, but with `prev` never set every entry before the match is lost |
| Database.MemDbc.Add | memdbc.c:287-330 | returns the trie's code; on 1 the key enters the list in order and `recCount` grows by 1; on 0 or 2 both are unchanged; the key then yields the data; consistency is kept for keys over a non-hex alphabet |
| Database.MemDbc.Find | memdbc.c:336-358 | returns the lookup of the selected variant and changes nothing; in a consistent store it is found exactly when it is listed |
| Database.MemDbc.Delete | memdbc.c:362-388 | with the corrected list delete: returns -1 and leaves the list when the trie delete fails; on 0 the key is unlinked; `recCount` never changes; the key is then not found; consistency is kept |
| Database.MemDbc.DeleteAsWritten | memdbc.c:362-388 | as written: the same trie delete and return code, but on 0 the list keeps only the entries after the key; `recCount` never changes; the key is then not found |
| Database.MemDbc.NumEntries | memdbc.c:443-445 | returns `recCount`, which in a consistent store bounds the number of listed keys |
| Database.MemDbc.FindAll | memdbc.c:395-438 | a NULL callback gives CALLBACK_NULL, a bad pattern gives REGEX_ERR, both with no calls; otherwise one call per matching entry in list order, with its lookup value |
| Database.MemDbc.KeyListWalk | memdbc.c:103-139 | the heading, then one line per entry in list order: `Key=k, Value=v` without a callback, else each non-NULL string the callback returns |
| Database.MemDbc.KeyListSave | memdbc.c:146-193 | without a callback one `key,value` line per entry; with a callback and a file each non-NULL string; with a callback only, no lines but one call per entry in list order |

## Left out

- Concurrency: the atomics and the compare-and-swap install (memdbc.h:37-63, trietree.c:199-211) become a sequential "install if the slot is empty". The swap compares the local `node`, so this reading is exact for one thread.
- Allocation failure and the rollback functions (`_attRollback` and its copies): `calloc` cannot fail in the model.
- Memory release: `free` and `strdup` are not modelled; only the unlinking is. The branch at memdbc.c:89-91 that would free the predecessor instead of the removed entry can never run as written, because `prev` is always NULL (see Findings).
- The extra NUL byte that Insert appends to the copied value (trietree.c:223) is not part of the stored `Bytes`.
- POSIX regex: `regcomp` and `regexec` are foreign code. A compiled pattern is a parameter `Option<string -> bool>`, with None for a pattern that fails to compile.
- I/O: `printf`, `fprintf`, `fopen` and `fclose` are not modelled. The walk and the save return the lines they would print or write; the failure of `fopen` is not modelled.
- The global error number `memDbcErrorNum` becomes FindAll's returned status; the `UNKNOWN_TYPE` path is impossible because the database type is a closed datatype.
- The per-variant init flags (`_asciiTrieTreeInit` and the others) are not modelled: every operation works on a trie its constructor made.
- Counters (`useCount`, `inUse`, `recCount`) are unbounded naturals: unsigned overflow is not modelled.
- A key character stands for one byte of the C string; signed `char` and multi-byte encodings are not modelled.
- `memDbcInit` discards the tree returned by `initTree` (memdbc.c:266 versus memdbc.c:276); the model keeps the empty tree, which is what the code ends up with.
- `memDbcWalk`, `memDbcSave` and `memDbcError` only forward or return, and the demo programs `example1.c` and `example2.c` are not part of this model.
- TrieTree.Trie.Insert, TrieTree.Trie.FindEnd, TrieTree.Trie.Lookup, TrieTree.Trie.Delete: for the digital variant they require every key character to index inside the node, because `IDX` reads outside `next[10]` otherwise.
- Database.MemDbc.Add, Database.MemDbc.Delete: consistency between the list and the trie is proved only for keys over the alphabet of a non-hex variant. Hex keys that differ only in letter case share one trie entry, and in the ASCII, hex and octal variants a character outside the alphabet falls back to slot 0 (in the digital variant it indexes outside the node).
- Database.MemDbc.Delete: it unlinks with the corrected list delete (KeyListDelete). The code as written is Database.MemDbc.DeleteAsWritten, which can break consistency (Findings).
- Database.MemDbc.Delete: following the code, `recCount` is not decremented on delete, so the invariant is `|keys| <= recCount` and not equality. Deleting a bare prefix node that is in use returns 0 and leaves the list unchanged.
- Database.MemDbc.KeyListSave: without a callback and without a file name the C code writes to a NULL stream; the model requires that this happens only on an empty list.
- Database.MemDbc.KeyListWalk: the value printed for an entry is its lookup result, and a NULL value is shown as None rather than as the C `%s` of a NULL pointer.

## Findings

| source | as written | input that shows it | evidently intended | confidence | as-written member | corrected member |
|---|---|---|---|---|---|---|
| memdbc.c:77-97 | `keyListDelete` never assigns `prev` inside its search loop, so on a match past the head it takes the `prev == NULL` branch and sets the head past the removed entry | list ["a", "b"], delete "b": the list becomes [] | only "b" is removed, leaving ["a"] | not executed | KeyOrder.DeleteAsWrittenCounterexample | Database.MemDbc.KeyListDelete |
| memdbc.c:383-385 | `memDbcDelete` unlinks the key with `keyListDelete` as written, so every entry before it also leaves the list while its records stay in the trie | add "a", add "b", delete "b": the list becomes [] although find("a") is not NULL | the list keeps "a", agreeing with the trie | not executed | Database.DeleteAsWrittenBreaksConsistency | Database.MemDbc.Delete |
