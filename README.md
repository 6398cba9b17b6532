# File organizer core in Dafny

This project models the in-memory file system of a small web file organizer.
It has three parts:
- a folder tree whose folders hold child folders and files;
- a per-folder hash index that stores files by name, using open addressing and linear probing;
- a recycle bin of snapshots of deleted items.

It also models the logic the web layer adds on top of those parts:
- resolving a path string to a folder;
- the guard against deleting the root folder;
- normalising a new file's tags and file type;
- searching by metadata over the whole tree;
- restoring a bin entry into its original folder, rebuilding a deleted folder recursively;
- permanent deletion and emptying the bin.

Modules, one per file:

- `HashSlots` (hash_slots.dfy): the slot sequence behind the hash index.
  - It defines the home slot (sum of character codes modulo the capacity) and the probe ring.
  - It states the chain invariant: every stored key is reachable from its home slot through occupied slots.
  - It has the lemmas behind delete's cluster repair.
- `HashIndex` (hash_table.dfy): the class `HashTable`, with `_probe`, `insert`, `search`, `_rehash`, `delete` and `get_all_files` as methods.
  - The class works on an array of slots.
  - A ghost map `Contents` holds what the table stores.
  - Each method's contract is stated on that map.
- `Text` (text.dfy): the Python string operations the core uses: `split`, `join`, `in`, ASCII `lower`, `strip` and the string order.
- `Sorting` (sorting.dfy): `sorted(..., key=name)` as a stable insertion sort, and the uniqueness of a sorted order without repeated names.
- `FileTree` (file_tree.dfy): `File`, `Folder` and their `to_dict` records.
  - Folders are values.
  - Each `Folder` method is a function with a specification lemma.
- `Locations` (locations.dfy): addresses a folder by the child names leading to it from the root, in place of object references and parent pointers.
- `Paths` (paths.dfy): `find_folder_by_path` and the root-delete guard.
- `RecycleBins` (recycle_bin.dfy): the class `RecycleBin`.
- `Traversal` (traversal.dfy): `binary_search_files` and the breadth-first `traverse_and_collect_all_items`.
- `Metadata` (metadata.dfy): tag parsing, file-type normalisation and the metadata search.
- `Restore` (restore.dfy): parent-path derivation and `restore_folder_recursive`.
- `App` (app.dfy): each route that changes state has two forms:
  - a step function over `State(root, bin)`;
  - a method of the class `FileSystem`, proved equal to the step function.
  
  Also in this module:
  - the invariant every route keeps;
  - the delete-then-restore round trips.

The clock reading that dates new files (`datetime.now().isoformat()`) is a parameter `now`.
The HTTP status codes are the datatype `Outcome`: `Done` (200/201), `BadRequest` (400), `Forbidden` (403), `NotFound` (404) and `Conflict` (409).

Observations about the source, which the model follows as written:
- The root-delete guard compares the parent path's spelling, not the folder it resolves to.
  - `"/root/"` resolves to the root folder but passes the guard.
  - What the guard refuses is always a child named "root" of the root folder. The root folder itself is never a child, so it cannot be deleted by `delete_folder` in any case.
  - `Paths.RootGuardScope` states both facts.
- A file's snapshot has no `content`, so a restored file comes back with empty content.
- Folder and file snapshots do keep every other field. Deleting and then restoring gives back the tree exactly as `to_dict` shows it when three conditions hold:
  - every name on the item's path, its own included, is non-empty;
  - none of those names contains "/";
  - for a folder, the request passes the root guard.

  This holds whichever spelling of the parent's path the delete request uses, as long as it resolves to the parent: the bin entry always records the path `get_path` gives.
- `add_folder` and `add_file` accept names that contain "/", but restore derives the parent by splitting the saved path at "/". So an item named "a/b" is restored into the folder "a" below the folder it was deleted from, whenever that folder exists (`Restore.SlashNameRestoredBelow`).

## Model

| member | source | states |
|---|---|---|
| HashSlots.Hash | utils/structures.py:48-53 | the home slot of a key (sum of its character codes modulo the capacity) is a slot of the table |
| HashSlots.Next | utils/structures.py:68 | the probing step `(index + 1) % capacity` is the slot one step further round the ring |
| HashSlots.CountUpdate | utils/structures.py:98-99 | writing one slot changes the number of occupied slots by what it removed and added (the `size` bookkeeping) |
| HashSlots.VacancyExists | utils/structures.py:64-71 | a table at most 70% full has an empty slot, so `_probe` never reports a full ring on it |
| HashSlots.VacantMeansAbsent | utils/structures.py:64-72 | in a chained table, a probe that meets an empty slot after passing only other keys proves the key absent |
| HashSlots.EverySlotProbed | utils/structures.py:64-71 | a probe that comes full circle without an empty slot or the key has seen every slot occupied by another key |
| HashSlots.IndexedStore | utils/structures.py:93-100 | storing a key at its own slot, or at an empty slot when it is new, stores exactly that key and value in the table's map |
| HashSlots.IndexedClear | utils/structures.py:112-113 | emptying a key's slot removes exactly that key from the table's map |
| HashSlots.FillKeepsChained | utils/structures.py:93-100 | filling a slot with an entry reachable from its home slot keeps every key reachable |
| HashSlots.GatheredAll | utils/structures.py:153-156 | reading every slot of the old array gathers exactly the table's map |
| HashSlots.GatherStep | utils/structures.py:153-156 | reading one more slot of the old array meets a key not yet gathered and adds exactly it |
| HashSlots.FirstVacancy | utils/structures.py:118-119 | after the deleted slot, the cluster ends at an empty slot fewer than `capacity` steps on |
| HashSlots.DeleteStart | utils/structures.py:111-118 | emptying the found slot removes the key from the map, lowers the count by one and starts the cluster repair |
| HashSlots.RepairStart | utils/structures.py:113-118 | after the slot is emptied, every key outside the rest of its cluster is still reachable |
| HashSlots.RepairStep | utils/structures.py:119-126 | taking the next cluster entry out and reinserting it keeps the repair invariant one slot further |
| HashSlots.RepairEnd | utils/structures.py:119 | when the walk reaches an empty slot, every key is reachable again |
| HashIndex.HashTable.constructor | utils/structures.py:42-46 | a new table is empty, of the given capacity, and satisfies the table invariant |
| HashIndex.HashTable.Probe | utils/structures.py:55-72 | `_probe` returns the key's slot, or the first empty slot with only other keys before it, or a full ring with the key absent |
| HashIndex.HashTable.Place | utils/structures.py:84-100 | the probe-and-write part of `insert`: overwrite in place or fill the empty slot found; failure only on a full ring without the key |
| HashIndex.HashTable.Insert | utils/structures.py:74-100 | rehash exactly when `10*(size+1) > 7*capacity`, even for an existing key; always succeeds; the map gets `key := value`; `size` grows only for a new key |
| HashIndex.HashTable.Add | utils/structures.py:84-100 | below the load factor, placing a pair keeps the table chained and sets `key := value` in the map |
| HashIndex.HashTable.Search | utils/structures.py:131-141 | `search` returns the stored value of the key, or None when it is absent |
| HashIndex.HashTable.Reset | utils/structures.py:145-148 | the start of `_rehash`: a fresh array of the new capacity, nothing stored |
| HashIndex.HashTable.Rehash | utils/structures.py:143-157 | `_rehash` doubles the capacity and keeps the map and `size`, with every key reachable in the new array |
| HashIndex.HashTable.Vacate | utils/structures.py:112-113 | emptying an occupied slot returns its entry and removes that key from the map |
| HashIndex.HashTable.Reinsert | utils/structures.py:120-124 | one turn of the repair loop: the entry leaves its slot and is inserted again at a slot from which it is reachable; the map is unchanged |
| HashIndex.HashTable.RepairAt | utils/structures.py:118-125 | one turn of the repair loop keeps the repair invariant and moves the cursor one slot on |
| HashIndex.HashTable.Repair | utils/structures.py:118-125 | the repair loop ends, keeps the map, and leaves every key reachable again |
| HashIndex.HashTable.Delete | utils/structures.py:102-129 | `delete` returns the key's value, or None; the map loses exactly that key; `size` drops by one only when it was present; an absent key leaves the array unchanged |
| HashIndex.HashTable.GetAll | utils/structures.py:159-167 | `get_all_files` returns one value per stored key: `size` values, the i-th being the value of the i-th key met in slot order, every key met once |
| HashIndex.KeysValues | utils/structures.py:159-167 | reading the slots in order meets every key of the table's map exactly once, each beside its value |
| HashIndex.ValuesStored | utils/structures.py:159-167 | the values read in slot order are exactly the values of the table's map |
| HashIndex.ValuesCount | utils/structures.py:159-167 | one value is read per occupied slot |
| Text.Split | app.py:471 | `split` gives at least one piece and no piece holds the separator |
| Text.JoinSplit | app.py:471-473 | joining the pieces of a split gives back the string |
| Text.SplitJoin | app.py:471-473 | splitting a join of separator-free pieces gives back the pieces |
| Text.ContainsAt | app.py:404-406 | the substring test `needle in hay` holds exactly when `needle` occurs at some offset |
| Text.StripSlice | app.py:293 | `strip` returns a slice of the string, cuts off only whitespace, and leaves no whitespace at either end |
| Text.StripIdempotent | app.py:293 | stripping a stripped string changes nothing |
| Text.LowerIdempotent | app.py:294 | lower-casing twice is lower-casing once |
| Text.LowerHasNoUpper | app.py:294 | a lower-cased string keeps its length and has no upper-case letter |
| Text.LexTotal | utils/structures.py:327-332 | two names differ exactly when one compares below the other, and never both ways |
| Text.LexTransitive | utils/structures.py:327-332 | the string order is transitive |
| Sorting.SortBy | utils/structures.py:267 | `sorted` returns a permutation of its input |
| Sorting.SortSorted | utils/structures.py:267 | `sorted` returns its input in ascending name order |
| Sorting.SortOfSorted | utils/structures.py:278-279 | sorting a list already in name order changes nothing |
| Sorting.SortedUnique | utils/structures.py:278-279 | two name-ordered lists with the same elements and no repeated name are equal |
| Sorting.SortCanonical | utils/structures.py:278-279 | without repeated names, `sorted` depends only on which elements there are, not on their order |
| Sorting.SortDistinct | utils/structures.py:278-279 | sorting keeps distinct names distinct |
| FileTree.NewFile | utils/structures.py:12-19 | a new file is dated: with the given creation date, or with the clock reading when none is given |
| FileTree.IndexOf | utils/structures.py:200-204 | the first child with the name, or None exactly when no child has it |
| FileTree.Find | utils/structures.py:200-204 | a name-keyed lookup returns an element with that name, or None exactly when the name is absent |
| FileTree.FindRemoveAt | utils/structures.py:206-211 | removing one element without repeated names removes its name and leaves every other lookup unchanged |
| FileTree.FindAppend | utils/structures.py:189-198 | appending an element with a new name makes that name find it and changes no other lookup |
| FileTree.AddFolderSpec | utils/structures.py:189-198 | `add_folder` is refused exactly when the name is taken; otherwise that name finds a new empty folder and the files and other children are unchanged |
| FileTree.AddFileSpec | utils/structures.py:226-234 | `add_file` is refused exactly when a file has the name; otherwise that name finds the file and the children and other files are unchanged |
| FileTree.RemoveFolderSpec | utils/structures.py:206-211 | `remove_folder_by_name` returns the child of that name, if any; exactly that child leaves, and the tree stays well-formed |
| FileTree.RemoveFileSpec | utils/structures.py:242-247 | `remove_file_by_name` returns the file of that name, if any; exactly that file leaves, and the tree stays well-formed |
| FileTree.DeleteFolderSpec | utils/structures.py:213-224 | `delete_folder` finds nothing exactly when the name is missing; otherwise it removes only that child and returns its `to_dict` and path |
| FileTree.DeleteFileSpec | utils/structures.py:249-259 | `delete_file` finds nothing exactly when the name is missing; otherwise it removes only that file and returns its record and the path "<folder path>/<name>" |
| FileTree.GetPathJoin | utils/structures.py:181-187 | the path of a folder is its ancestors' names and its own, each after a "/" |
| FileTree.SortedFilesSpec | utils/structures.py:261-267 | `get_sorted_files_by_name` is a name-ascending permutation of the folder's files |
| FileTree.ToDictCanonical | utils/structures.py:269-281 | the `to_dict` of a well-formed folder keeps its name and lists children and files in name order, without repeated names, at every level |
| FileTree.ReplaceChildToDict | utils/structures.py:278 | moving a child to the end, or replacing it by one with the same record, does not change the parent's `to_dict` |
| FileTree.ReplaceFileToDict | utils/structures.py:279 | the same for a file: its position among the folder's files does not show in `to_dict` |
| FileTree.ToDictPermuted | utils/structures.py:278-279 | `to_dict` sees the children only up to order |
| Locations.LookupName | app.py:97-104 | the folder a walk of child names reaches carries the last name walked |
| Locations.LookupUpdate | app.py:97-104 | after the folder at a location is mutated, the same walk finds the mutated folder |
| Locations.UpdateTwice | app.py:97-104 | mutating the folder at a location twice is the second mutation alone |
| Locations.ToDictUpdate | utils/structures.py:269-281 | replacing a folder by one with the same `to_dict` leaves the root's `to_dict` unchanged |
| Locations.LookupValid | utils/structures.py:189-198 | every folder of a well-formed tree is well-formed |
| Locations.UpdateValid | utils/structures.py:189-198 | replacing a folder by a well-formed one with the same name keeps the tree well-formed |
| Locations.UpdateElsewhere | app.py:97-104 | mutating the folder at a location leaves every location that neither runs through it nor leads to it as it was |
| Locations.UpdateBelow | app.py:97-104 | below the mutated folder, walks find the mutated folder's own subtree |
| Locations.LookupAppend | app.py:97-104 | walking a path in two parts is walking the first part, then the second from where it ends |
| Paths.ParsePath | app.py:84-95 | a path is accepted only if it starts with "/root" or is "root", and then yields non-empty child names without "/" |
| Paths.FindFolderByPath | app.py:80-106 | `find_folder_by_path` returns the folder reached by walking the segments after "root", or None at the first missing one |
| Paths.StartsWithRoot | app.py:84-95 | a path starting with "/root" is accepted exactly when it is "/root" or goes on with "/" ("/rootx/a" is refused) |
| Paths.OtherPathsRefused | app.py:88-90 | a path that neither starts with "/root" nor is "root" (such as "root/a") resolves to nothing |
| Paths.TrailingSlashRoot | app.py:84-85 | empty segments are dropped: "/root/" resolves to the root |
| Paths.RootPaths | app.py:84-95 | both "root" and "/root" resolve to the root folder |
| Paths.ResolveGetPath | app.py:80-106 | the path `get_path` gives a folder with path-safe names parses back to the names leading to that folder |
| Paths.RootGuardScope | app.py:259-261 | the guard refuses only a child named "root" of the root folder, and is bypassed by the spelling "/root/" |
| RecycleBins.ItemAt | utils/structures.py:299-303 | an entry is returned exactly for indexes in `[0, len)`, negative ones refused |
| RecycleBins.WithoutShifts | utils/structures.py:305-309 | `pop(i)` keeps the entries before `i` and shifts every later entry down by one; an index out of range changes nothing |
| RecycleBins.AddThenRemoveLast | utils/structures.py:291-309 | the entry added last sits at the end, and removing it gives back the bin |
| RecycleBins.RecycleBin.constructor | utils/structures.py:288-289 | a new bin is empty |
| RecycleBins.RecycleBin.AddItem | utils/structures.py:291-293 | `add_item` appends the entry at the end |
| RecycleBins.RecycleBin.GetAllItems | utils/structures.py:295-297 | `get_all_items` returns every entry in order |
| RecycleBins.RecycleBin.GetItem | utils/structures.py:299-303 | `get_item` returns the entry at the index, or None outside `[0, len)` |
| RecycleBins.RecycleBin.RemoveItem | utils/structures.py:305-309 | `remove_item` returns the entry at the index and takes it out; outside `[0, len)` it returns None and changes nothing |
| RecycleBins.RecycleBin.Clear | app.py:562 | emptying the bin leaves no entries |
| Traversal.BinarySearchFiles | utils/structures.py:312-334 | on a name-sorted list, returns a file with the target name exactly when one exists, reading only indexes in range |
| Traversal.Enqueue | utils/structures.py:351-352 | queueing the children one at a time puts them at the back in order |
| Traversal.CollectStep | utils/structures.py:345-352 | one turn of the walk visits the front folder, gathers its files, and shrinks the work left |
| Traversal.Unfold | utils/structures.py:345-352 | popping a folder and queueing its children leaves the same folders still to visit, that one aside |
| Traversal.TraverseAndCollect | utils/structures.py:336-353 | returns the folders in breadth-first order with the start first, and the files of those folders |
| Traversal.TraversalCollectsSubtree | utils/structures.py:336-353 | every folder of the start's subtree is visited, each exactly as often as it occurs there |
| Traversal.TraversalCollectsFiles | utils/structures.py:336-353 | the files collected are the files of every folder of the subtree |
| Metadata.StrippedPiecesSpec | app.py:293 | a tag is kept exactly when it is the non-empty stripped form of one of the pieces |
| Metadata.ParseTagsClean | app.py:293 | no tag of a new file is empty, holds a comma, or has whitespace at either end |
| Metadata.MatchFile | app.py:400-414 | a file matches when every non-empty criterion holds: name and author as substrings, file type equal, every searched tag among the file's tags, all lower-cased |
| Metadata.SelectMatching | app.py:399-414 | the loop keeps, in order, the record of each matching file |
| Metadata.SelectedSpec | app.py:399-414 | a record is in the results exactly when it is the record of a matching file |
| Metadata.SearchByMetadata | app.py:386-414 | the search returns the records of the matching files of the whole tree, in breadth-first order |
| Metadata.EmptyQueryMatchesAll | app.py:390-414 | without criteria every file matches |
| Metadata.MoreTagsNarrow | app.py:410-414 | one more searched tag can only drop files |
| Metadata.MatchIgnoresCase | app.py:400-414 | matching sees only the lower-cased metadata of the file |
| Metadata.QueryIgnoresCase | app.py:391-395 | the case of the typed criteria does not matter |
| Restore.MakeFileRoundTrip | app.py:497-504 | a dated file comes back from its record with everything but its content; a dated record comes back unchanged; with a clock reading the rebuilt file is dated |
| Restore.RestoreInto | app.py:508-524 | the rebuild is refused exactly when the target has a child of that name; otherwise the rebuilt folder is the target's last child |
| Restore.RestoreFolderRecursive | app.py:508-524 | `restore_folder_recursive` as the source runs it equals the rebuild of the snapshot into the target |
| Restore.RestoreFiles | app.py:512-521 | the file loop adds the snapshot's files one after the other, skipping taken names |
| Restore.AddFilesFresh | app.py:512-521 | into a new folder, files with distinct names all go in, in order |
| Restore.AddChildrenFresh | app.py:522-523 | into a new folder, child snapshots with distinct names all go in, in order |
| Restore.BuildRoundTrip | app.py:508-524 | a folder rebuilt from a canonical snapshot has that snapshot as its `to_dict` |
| Restore.BuildValid | app.py:508-524 | whatever the snapshot, the rebuilt folder is well-formed |
| Restore.RestoreParentNoSlash | app.py:471-481 | a path without "/" has one piece, and restore refuses it as invalid |
| Restore.RestoreParentTwoPieces | app.py:474-479 | with two pieces the parent is "root" for "/root" (refused for an item named "root") and "/root" otherwise |
| Restore.RestoreParentOfChild | app.py:471-473 | the parent derived from an item's path is the path of the folder it was deleted from |
| Restore.RestoreParentOfPath | app.py:471-473 | the derived parent depends only on the saved path, not on the name the entry records |
| Restore.SlashNameRestoredBelow | app.py:471-473 | for an item named "a/b", the derived parent is the folder "a" below the folder it was deleted from |
| App.CreateFolderStep | app.py:213-240 | 400 when a field is empty, 404 exactly when the parent is missing, 409 exactly when it has a child of that name; only a 201 changes the tree, and only by replacing the parent with `add_folder`'s result, after which the name finds a new empty folder in the parent; the bin is never touched |
| App.CreateFolderElsewhere | app.py:213-240 | a created folder leaves every location away from its parent as it was |
| App.DeleteFolderStep | app.py:244-280 | 400 when a field is empty, 403 exactly on the root guard, 200 exactly when the parent and the child exist, 404 otherwise and never 409; only a 200 changes the state: for every spelling of the parent's path, the folder it resolves to loses that child (`remove_folder_by_name`), and the bin gains the child's `to_dict` under its `get_path` path |
| App.DeleteFileStep | app.py:318-350 | 400 when a field is empty, 200 exactly when the parent and the file exist; only a 200 changes the state: for every spelling of the parent's path, the folder it resolves to loses that file (`remove_file_by_name`), and the bin gains the file's record under the folder's `get_path` path and the file's name |
| App.NewUpload | app.py:287-306 | a new file has no content, the clock's date, the parsed tags and the lower-cased file type |
| App.AddFileStep | app.py:284-314 | 400 when a field is empty, 404 exactly when the parent is missing, 409 exactly when the name is taken; only a 201 changes the tree; the bin is never touched |
| App.AddFileDone | app.py:296-311 | when the parent resolves and has no file of that name, `add_file` answers 201 and the new tree replaces the resolved folder by `add_file`'s result, for every spelling of the parent's path; the bin is untouched |
| App.RestoreStep | app.py:452-534 | 400 exactly for a missing index or an invalid path; 404 exactly for a missing entry or parent; 409 exactly when the parent holds an item of the same kind and name; a failure changes nothing; success removes exactly that entry |
| App.RestoreItem | app.py:496-524 | putting an item back into its parent: a file is refused exactly when the parent has a file of that name, otherwise its name finds the file rebuilt from the record and the children stay; a folder is refused exactly when the parent has a child of that name, otherwise the rebuilt folder becomes the last child and the files stay |
| App.RestoreDone | app.py:496-530 | a successful restore replaces the parent by `RestoreItem`'s result, the parent path then finds that result, and every location away from the parent is as it was |
| App.PermanentDeleteStep | app.py:538-555 | 400 exactly without an index, 404 exactly for an index out of range, 200 exactly for an index in range, which removes exactly that entry; the tree is never touched |
| App.EmptyBinStep | app.py:559-566 | the bin becomes empty and the tree is untouched |
| App.DeleteFolderGood | app.py:244-280 | `delete_folder` keeps the tree well-formed and the root named "root" |
| App.DeleteFileGood | app.py:318-350 | `delete_file` keeps the tree well-formed |
| App.CreateFolderGood | app.py:213-240 | `create_folder` keeps the tree well-formed |
| App.AddFileGood | app.py:284-314 | `add_file` keeps the tree well-formed |
| App.RestoreGood | app.py:452-534 | restoring keeps the tree well-formed whatever the bin holds |
| App.RunGood | app.py:213-566 | every route keeps the state well-formed |
| App.ReachableGood | app.py:24-27 | from the initial state, any sequence of requests (folder creation, file upload, deletions, restores, bin operations) keeps sibling names distinct, every file dated and the root named "root" |
| App.DeleteFolderState | app.py:244-280 | for any parent path that resolves to a location and passes the root guard, deleting a child there succeeds, removes it there and appends its `to_dict` with its `get_path` path to the bin |
| App.RestoreFolderState | app.py:452-534 | restoring that last entry rebuilds the folder at the end of its parent and gives back the bin |
| App.FolderBackToDict | utils/structures.py:269-281 | putting back a folder with the same `to_dict` leaves the root's `to_dict` unchanged |
| App.FolderBackFound | utils/structures.py:200-204 | after the child is put back, its name finds it in its parent |
| App.DeleteThenRestoreFolder | app.py:452-530 | deleting a folder (through any spelling of its parent's path that passes the guard) and restoring its entry succeeds twice and gives back the bin, with the rebuilt folder back in its parent |
| App.DeleteThenRestoreFolderToDict | app.py:496-526 | after the delete and the restore, the tree's `to_dict` is as before and the name finds a folder with the deleted folder's `to_dict` |
| App.DeleteFileState | app.py:318-350 | for any parent path that resolves to a location, deleting a file there succeeds, removes it there and appends its record with its `get_path` path to the bin |
| App.RestoreFileState | app.py:496-505 | restoring that last entry puts the file, without content, back at the end of its folder, and gives back the bin |
| App.FileBackToDict | utils/structures.py:269-281 | putting back a file with the same record leaves the root's `to_dict` unchanged |
| App.FileBackFound | utils/structures.py:236-240 | after the file is put back, its name finds it in its folder |
| App.DeleteThenRestoreFile | app.py:452-530 | deleting a file (through any spelling of its folder's path) and restoring its entry succeeds twice and gives back the bin, with the file back in its folder without its content |
| App.DeleteThenRestoreFileToDict | app.py:496-505 | after the delete and the restore, the tree's `to_dict` is as before and the name finds the file without content |
| App.FileSystem.constructor | app.py:24-27 | the application starts with an empty root folder "root" and an empty bin |
| App.FileSystem.CreateFolder | app.py:213-240 | the route's answer and the new root are those of `CreateFolderStep`; the bin is untouched |
| App.FileSystem.DeleteFolder | app.py:244-280 | the route's answer and the new root and bin are those of `DeleteFolderStep` |
| App.FileSystem.AddFile | app.py:284-314 | the route's answer and the new root are those of `AddFileStep`; the bin is untouched |
| App.FileSystem.DeleteFile | app.py:318-350 | the route's answer and the new state are those of `DeleteFileStep` |
| App.FileSystem.RestoreFromRecycleBin | app.py:452-534 | the route's answer and the new state are those of `RestoreStep` |
| App.FileSystem.PermanentDeleteItem | app.py:538-555 | the route's answer and the new bin are those of `PermanentDeleteStep` |
| App.FileSystem.EmptyRecycleBin | app.py:559-566 | the route's answer and the new bin are those of `EmptyBinStep` |

## Left out

- The folder tree is a value, not a graph of objects with parent pointers. A folder is addressed by the names leading to it from the root, and a mutation rebuilds the tree along that path. Object identity and aliasing are therefore not modelled.
- A folder's files are a sequence of files looked up by name, not a `HashTable` object.
  - The hash table is modelled and proved on its own, in `HashIndex`.
  - The tree relies only on what its contract gives: a name-keyed map.
  - Files are kept in the order they were added, not in hash-slot order. `to_dict` and the sorted views do not depend on that order.
- Metadata.SearchByMetadata and Traversal.TraverseAndCollect list the files of one folder in the order they were added. The source lists them in the hash table's slot order (`get_all_files`), so the order of search results within one folder differs from the source's. The folders are still visited in the source's breadth-first order.
- HashIndex.HashTable.Insert: the load-factor test `(size + 1) / capacity > 0.7` in floating point is the exact integer test `10 * (size + 1) > 7 * capacity`. The two agree for every capacity below about 10^15.
- Python's Unicode `str.lower()` is ASCII lower-casing here. `str.isspace()` is the fixed table of characters Python treats as whitespace.
- The clock reading `datetime.now().isoformat()` is the parameter `now`.
- Flask routing, JSON bodies, sessions, login and registration, and the `try/except` that turns exceptions into 500 answers are not modelled. The JSON field `item_index` is an `Option<int>`; a non-integer index is not modelled.
- `search_file`, `get_file_system` and `get_recycle_bin_items` are not modelled: only their lookups and helpers, such as `find_folder_by_path`, `binary_search_files` and `get_sorted_files_by_name`, are part of this model.
- The search by metadata does not rebuild each result's `full_path` (app.py:417-429). That is a second breadth-first walk comparing object identity, only for display. The results are the matching file records without that field.
- App.DeleteThenRestoreFolder and the other delete-then-restore lemmas require:
  - folder and file names that are non-empty and contain no "/";
  - for folders, a request the root guard lets through.
  
  The request may spell the parent's path in any form that resolves to it ("root", "/root/", "/root/a/" or the `get_path` form). Other names do not survive the trip through a path string.
- App.FileSystem methods state their new state as the step function's. That the state stays well-formed is proved on the step functions (`App.RunGood`, `App.ReachableGood`), not repeated on each method.
