# Cozy sharing replication engine, modelled in Dafny

This project models the file-sharing replication engine of the cozy-stack
server (`pkg/sharing`) and one helper of its HTTP layer (`web/middlewares`).
A sharing binds documents of one instance to other instances through rules:
the documents a folder holds, or the files a given document references. The
engine works in four parts:

- **The registry.** For every shared document, an `io.cozy.shared` record
  (a SharedRef) lists the sharings it belongs to. It holds one SharedInfo
  per sharing: the rule, whether the document was removed, and whether it
  is binary. It also keeps the tree of the document's known revisions.
  `UpdateShared` keeps this record current on every change event.
- **Sending.** Before a batch of `io.cozy.files` documents goes out,
  `SortFilesToSent` orders it. `TransformFileToSent` then hides each
  identifier with `XorID` and drops the fields the recipient must not see.
- **Receiving.** `ApplyBulkFiles` applies an incoming batch, one dispatch
  decision per document. It relies on three helpers:
  - `resolveConflictSamePath` decides who keeps a disputed path;
  - `TrashDir` and `TrashFile` move documents to the trash, or into a
    "no longer shared" directory when something else still references them;
  - `getDirDocFromNetwork` chooses which members to ask for a missing
    directory.
- **Host splitting.** `SplitHost` splits a request's host into instance
  and application according to the subdomain mode. `Compose` wraps a
  handler in middlewares.

The models are split into these modules:

- `Strings`: the Go string operations the code relies on.
- `Json`: document values.
- `Sharings`: rules, members and errors.
- `RevsTrees`: the revision tree.
- `Registry`: shared.go outside the tree.
- `Obfuscation`: the identifier XOR.
- `References`: the reference filters.
- `Outbound`: sorting and transforming documents to send.
- `VfsDocs`: directory and file documents as objects.
- `Inbound`: ApplyBulkFiles, conflicts and the network fetch.
- `Trash`: TrashDir and TrashFile.
- `Middlewares`: SplitHost and Compose.

How the Go code is carried over:

- Code that changes state in place becomes Dafny methods:
  - the XOR buffer, the key expansion and the in-place stable sort of an
    `array`;
  - the map of the document being transformed, the `referenced_by` slice
    of a file, and the directory and file objects that are renamed or
    moved;
  - the accumulating loops.
  Each method is proved against a specification function or states the
  new state outright.
- The recursive tree code becomes functions with lemmas.
- The database, the VFS and the network become inputs:
  - what a call returns, or whether a write fails, is a parameter;
  - a write the code makes is returned as a value.

Two behaviours of the code are easy to miss:

- **Comparator priority.** The comparator of `SortFilesToSent` puts files
  last before it looks at deletions. A deleted file therefore comes after every
  directory, deleted or not (pkg/sharing/files.go:78-89).
- **Missing previous revision in `UpdateShared`.** Without an old document,
  `UpdateShared` calls `InsertAfter(rev, "")`, not `Add(rev)`. That inserts
  a node with the empty revision and puts `rev` below it
  (pkg/sharing/shared.go:350-355).

Constants from other packages of the stack are not part of this model. Their values here follow the stack's conventions:

- consts: `"file"`, `"directory"`, `"io.cozy.files"`, `"io.cozy.shared"`
  and `"io.cozy.sharings"`.
- `couchdb.SelectorReferencedBy`: `"referenced_by"`.
- `vfs.TrashDirName`: `"/.cozy_trash"`.

Four functions from other packages are modelled by assumption:

- `Rule.hasReferencedBy` is the `type + "/" + id` membership test that
  files.go:127-129 uses.
- `vfs.SameReferences` means the same length, with every reference of the
  first list in the second.
- `couchdb.JSONDoc.ID` and `couchdb.JSONDoc.Rev` are the string `_id` and
  `_rev`, or `""`.

## Model

| member | source | states |
|---|---|---|
| Strings.SplitFirst | pkg/sharing/shared.go:210 | `strings.SplitN(s, c, 2)`: two parts exactly when `c` occurs, the first without `c`, and the parts joined by `c` give back `s` |
| Strings.Atoi | pkg/sharing/shared.go:211 | `strconv.Atoi` accepts only values within int64 |
| Strings.AtoiOfDecimalString | pkg/sharing/shared.go:211 | `strconv.Atoi` reads back every int64 that `%d` prints |
| Strings.LexLessTrichotomy | pkg/sharing/files.go:494 | Go's `>` on strings is irreflexive, and of two different strings exactly one is before the other |
| Strings.LexLessTransitive | pkg/sharing/files.go:494 | Go's `>` on strings is transitive |
| RevsTrees.RevGeneration | pkg/sharing/shared.go:209-216 | the generation of a revision is never negative |
| RevsTrees.RevGenerationOfRevision | pkg/sharing/shared.go:209-216 | the generation of `"<n>-<hash>"` is `n` for every int64 `n >= 0` |
| RevsTrees.Clone | pkg/sharing/shared.go:61-68 | Clone yields a tree equal to the original |
| RevsTrees.Generation | pkg/sharing/shared.go:71-82 | Generation is never negative |
| RevsTrees.GenerationIsMaxOverLeaves | pkg/sharing/shared.go:71-82 | Generation is the greatest RevGeneration over the leaves: no leaf exceeds it and some leaf reaches it; inner revisions are ignored |
| RevsTrees.Find | pkg/sharing/shared.go:85-95 | a found path leads to a node with that revision; nothing is found exactly when no node has it |
| RevsTrees.FindIsFirst | pkg/sharing/shared.go:85-95 | the found node comes before every other node with that revision, in pre-order |
| RevsTrees.Add | pkg/sharing/shared.go:98-107 | the returned path leads to a new leaf with the revision |
| RevsTrees.AddIsGraftAtTip | pkg/sharing/shared.go:98-107 | Add appends one leaf below the tip of the first-branch chain and nothing else; every old node keeps its position and revision, and the revision is then in the tree |
| RevsTrees.GraftContains | pkg/sharing/shared.go:103 | after appending a leaf, the tree holds exactly its old revisions and the new one |
| RevsTrees.GraftOnlyNewPath | pkg/sharing/shared.go:103 | appending a leaf creates no position other than the new leaf's |
| RevsTrees.LocateFound | pkg/sharing/shared.go:112-115 | finding or adding the parent keeps every node, makes Find return the parent's path, and changes nothing when the parent is present |
| RevsTrees.InsertAfter | pkg/sharing/shared.go:111-123 | the loop over the parent's branches computes InsertedAfter |
| RevsTrees.InsertedAfterPlaces | pkg/sharing/shared.go:111-123 | after InsertAfter, every old node is kept, the parent and the revision are in the tree, and the revision is a child of the parent's node |
| RevsTrees.InsertedAfterMissingParent | pkg/sharing/shared.go:112-115 | a missing parent is first added with Add, then the revision is appended below it |
| RevsTrees.InsertedAfterAppendsLast | pkg/sharing/shared.go:121 | a revision that is not yet a child of the parent becomes the parent's last branch |
| RevsTrees.InsertedAfterExisting | pkg/sharing/shared.go:116-120 | a revision already a child of the parent changes nothing |
| RevsTrees.InsertedAfterIdempotent | pkg/sharing/shared.go:111-123 | InsertAfter twice is InsertAfter once |
| RevsTrees.ChainInsertedAsWritten | pkg/sharing/shared.go:129-155 | InsertChain as written yields one cursor per revision of the chain; where they land is stated by InsertChainAsWrittenContainsAll and InsertChainAsWrittenMisplaces |
| RevsTrees.ChainInserted | pkg/sharing/shared.go:129-155 | corrected InsertChain yields one cursor per revision of the chain; where they land is stated by InsertChainIsPath, InsertChainReusesPresentPrefix and InsertChainOnlyNewPaths |
| RevsTrees.InsertChain | pkg/sharing/shared.go:129-155 | the loop over the chain computes the corrected ChainInserted |
| RevsTrees.BranchIndex | pkg/sharing/shared.go:140-146 | the search of a node's branches finds the first branch holding the revision, or reports that none does |
| RevsTrees.InsertChainIsPath | pkg/sharing/shared.go:129-155 | corrected InsertChain keeps every node, each revision of the chain lies on its own node, and each is a child of the one before |
| RevsTrees.InsertChainContainsAll | pkg/sharing/shared.go:129-155 | after InsertChain every revision of the chain is in the tree |
| RevsTrees.InsertChainAsWrittenContainsAll | pkg/sharing/shared.go:129-155 | InsertChain as written also keeps every node and contains every revision of the chain |
| RevsTrees.InsertChainUnchangedWhenPresent | pkg/sharing/shared.go:129-155 | a chain whose revisions are already present, each below the one before, changes nothing, both as written and as corrected |
| RevsTrees.InsertChainIdempotent | pkg/sharing/shared.go:129-155 | a second run of corrected InsertChain over the same chain leaves the tree it produced unchanged |
| RevsTrees.InsertChainReusesPresentPrefix | pkg/sharing/shared.go:136-153 | a cursor of corrected InsertChain that already existed in the old tree holds there the chain's revision, and every cursor after a new one is new, so only the missing suffix of the chain is appended |
| RevsTrees.InsertChainOnlyNewPaths | pkg/sharing/shared.go:136-153 | every position of the tree after corrected InsertChain existed before or is one of its cursors |
| RevsTrees.ChainFromMakesPresent | pkg/sharing/shared.go:141-153 | after the corrected walk from a node, the same revisions are found in place below that node, each below the one before |
| RevsTrees.ChainFromKeepsFind | pkg/sharing/shared.go:133-153 | the corrected walk below the node where a revision was found leaves where Find finds it unchanged |
| RevsTrees.InsertChainAsWrittenNotIdempotent | pkg/sharing/shared.go:151-152 | on the tree InsertChain as written leaves in the InsertChainAsWrittenMisplaces example, a second run of the same chain appends `3-c` again, below `2-c` |
| RevsTrees.InsertChainAsWrittenMisplaces | pkg/sharing/shared.go:151-152 | on the tree `1-a` with branch `2-b` and the chain `1-a, 2-c, 3-c`, InsertChain as written puts `3-c` below `2-b`, and the corrected walk puts it below `2-c` |
| Obfuscation.XorID | pkg/sharing/files.go:47-68 | the buffer loop computes Xored: same length, non-hex characters unchanged, hex characters become lowercase hex when the key is made of nibbles |
| Obfuscation.XorHexChar | pkg/sharing/files.go:51-64 | the switch on one hexadecimal character computes XorChar |
| Obfuscation.XorIDSelfInverse | pkg/sharing/files.go:47-68 | XorID twice with the same non-empty nibble key gives back every id whose hexadecimal letters are lower-case |
| Obfuscation.XorIDLowercases | pkg/sharing/files.go:57-58 | upper-case hex letters do not survive a round trip: "A" comes back as "a" |
| Obfuscation.MakeXorKey | pkg/sharing/files.go:35-43 | the key is twice as long as the random seed (16 bytes for the 8 random bytes the code draws), holds the low then the high nibble of each seed byte, and every byte is at most 15 |
| References.OtherRefs | pkg/sharing/files.go:421-427 | keeps exactly the references the rule does not share |
| References.RuleRefs | pkg/sharing/files.go:437-443 | keeps exactly the references the rule shares |
| References.FiltersAppend | pkg/sharing/files.go:421-427 | both filters keep the order of the references: filtering a concatenation concatenates the filtered parts |
| References.FiltersPartition | pkg/sharing/files.go:421-427 | the two filters split the references: together they hold each reference as often as the input does |
| References.FiltersIdempotent | pkg/sharing/files.go:421-427 | filtering again keeps everything, and the other filter keeps nothing |
| References.RemoveReferencesFromRule | pkg/sharing/files.go:417-428 | a referenced_by rule leaves the file with its references the rule does not share, in order; another rule leaves it alone; nothing else of the file changes |
| References.KeepOtherRefs | pkg/sharing/files.go:421-427 | the loop over the references computes OtherRefs |
| References.BuildReferencedBy | pkg/sharing/files.go:430-445 | a reference is in the result exactly when it is a local one the rule does not share or an incoming one it does |
| References.BuildReferencedBySources | pkg/sharing/files.go:430-445 | the shared references come from the incoming file only, and the others from the local file only, both in order |
| Outbound.Less | pkg/sharing/files.go:77-99 | the comparator never puts a file before anything, and puts every non-file before a file |
| Outbound.LessIsNotStrict | pkg/sharing/files.go:84-86 | two deleted directories are each before the other, and each is before itself |
| Outbound.LessStrictOnOrderable | pkg/sharing/files.go:77-99 | on undeleted entries with a path, and on files, the comparator is irreflexive and transitive |
| Outbound.SortFilesToSent | pkg/sharing/files.go:75-100 | the sort is a permutation, no file precedes a non-file, and the files keep their relative order |
| Outbound.InsertLast | pkg/sharing/files.go:76-99 | one insertion step of the stable sort keeps a permutation, leaves the rest of the array alone, and extends the sorted prefix |
| Outbound.KeptRefs | pkg/sharing/files.go:123-137 | every kept entry is an entry of the input, a reference object the rule shares, and every such entry is kept |
| Outbound.KeptRefsAppend | pkg/sharing/files.go:123-137 | the filter keeps the order of the entries: filtering a concatenation concatenates the filtered parts |
| Outbound.KeepSharedRefs | pkg/sharing/files.go:123-137 | the loop over the references computes KeptRefs |
| Outbound.IsOneOf | pkg/sharing/files.go:128-133 | the search of the rule values finds the value exactly when it is one of them |
| Outbound.Transformed | pkg/sharing/files.go:109-156 | `_id` is XORed; a directory loses `path`; without a string `dir_id` nothing else changes; a referenced_by rule drops `dir_id` and keeps only the shared references, in order; another rule drops `referenced_by` and drops `dir_id` exactly when it is one of the rule values, otherwise XORs it; no other field changes |
| Outbound.SentIdsRecoverable | pkg/sharing/files.go:113-154 | the recipient recovers `_id` and a kept `dir_id` by XORing again with the same key |
| Outbound.TransformFileToSent | pkg/sharing/files.go:109-156 | the in-place edits of the document map leave it equal to Transformed |
| Registry.IsTrashedCases | pkg/sharing/files.go:24-32 | isTrashed is false outside io.cozy.files; for a file it is its `trashed` flag being `true`; for a directory it holds exactly when the path is inside the trash and is not the trash itself |
| Registry.IsTrashedExamples | pkg/sharing/files.go:24-32 | the trash directory itself is not trashed, a directory in it is, and a sibling sharing its prefix is not |
| Registry.InsideDirSegments | pkg/sharing/shared.go:297 | the `+ "/"` prefix test means the root itself or a path below it, never a sibling with a longer name |
| Registry.ExtractReferencedByAsWritten | pkg/sharing/shared.go:229-237 | extraction as written gives one reference per entry of `referenced_by` |
| Registry.ExtractReferencedBy | pkg/sharing/shared.go:229-237 | corrected extraction gives one reference per entry of `referenced_by` |
| Registry.ExtractReferencedByOfJson | pkg/sharing/shared.go:230-237 | on references decoded from JSON, the corrected extraction gives them back, and the extraction as written gives only empty references |
| Registry.NoLongerShared | pkg/sharing/shared.go:241-298 | not shared any more is false outside io.cozy.files, without an old document, or when `dir_id` and the references are unchanged; for a referenced_by rule it is true exactly when no current reference matches; for a directory rule it is true exactly when the path is not inside the shared directory; lookup errors are returned |
| Registry.NoLongerSharedAsWrittenExample | pkg/sharing/shared.go:230-237 | with the extraction as written, a file added to the album a rule shares is found no longer shared |
| Registry.NoLongerSharedCorrectedExample | pkg/sharing/shared.go:241-262 | with the corrected extraction, the same file is still shared |
| Registry.UpdateShared | pkg/sharing/shared.go:302-357 | with the extraction of references as a parameter, ExtractReferencedByAsWritten giving the code as written; a DELETED event needs no readable path; a failed read or decision is returned as the error; a new sharing entry gets the message's rule, not removed, binary for a file; a deletion, a trashing or leaving the sharing marks it removed and not binary, keeping its rule; nothing clears removed; other sharings are untouched; a new SharedRef gets a one-node tree, otherwise the revision is inserted after the old one, or after "" without one |
| Registry.UpdateSharedAlbumAsWritten | pkg/sharing/shared.go:325-340 | with the extraction as written, the file added to the album a rule shares gets its entry marked removed |
| Registry.UpdateSharedAlbum | pkg/sharing/shared.go:325-340 | with the corrected extraction, the entry of the same file is not removed |
| Registry.ExtractDocReferenceFromID | pkg/sharing/shared.go:456-465 | an id with a slash splits into a doctype without a slash and the rest, which rebuild it; without a slash there is no reference |
| Registry.ExtractDocReferenceRoundTrip | pkg/sharing/shared.go:456-465 | a SharedRef identifier gives back the reference it was built from |
| Registry.RowAction | pkg/sharing/shared.go:376-386 | a SharedRef of several sharings is updated, the last one deleted |
| Registry.RowActionForgetsSharing | pkg/sharing/shared.go:376-380 | an updated SharedRef no longer lists the sharing, keeps the others, and still lists one |
| Registry.RemoveSharedRefs | pkg/sharing/shared.go:360-389 | one write per row in row order, up to and including the first refused write, whose error is returned; no error exactly when no write was refused |
| Registry.DocsOfMembers | pkg/sharing/shared.go:416-421 | a reference is listed for a sharing exactly when a row of that sharing is not removed and has the reference as identifier |
| Registry.SharedDocsByKey | pkg/sharing/shared.go:410-422 | the result has a key exactly for the sharings with a listed reference, each mapped to its references in row order |
| Registry.GetSharedDocsBySharingIDs | pkg/sharing/shared.go:393-424 | the loop over the rows builds SharedDocs |
| Registry.GetSharingsByDocType | pkg/sharing/shared.go:427-452 | each sharing of the rows is in the result, mapped to the sharing of its first row, and nothing else is |
| Inbound.Dispatch | pkg/sharing/files.go:349-413 | each branch's outcome: no `_id` records MissingID; a failed SharedRef read records its error; a SharedRef without this sharing records Safety; a failed VFS lookup records its error; a deletion of an unknown or absent document, or one no newer than the local revisions, does nothing and records nothing; a newer deletion trashes the directory or the file, with the rule of its SharedRef; a non-deletion creates the directory unless it is a local directory; a local directory without a SharedRef records Safety, with one it is updated; a call's error is the store's. Conversely, each call is made only in its branch |
| Inbound.StaleDeletionKeeps | pkg/sharing/files.go:385-390 | a deletion no newer than the tip of the local main line trashes nothing |
| Inbound.BatchErrors | pkg/sharing/files.go:349-413 | the gathered errors are empty exactly when no document produced one |
| Inbound.ApplyBatch | pkg/sharing/files.go:349-413 | the loop makes one dispatch decision per document, in order, and gathers their errors |
| Inbound.ApplyBulkFilesAsWritten | pkg/sharing/files.go:414 | ApplyBulkFiles as written returns nil whatever the errors |
| Inbound.ApplyBulkFiles | pkg/sharing/files.go:345-415 | corrected ApplyBulkFiles returns nil exactly when no document produced an error, and the gathered errors otherwise |
| Inbound.MissingIDIsGathered | pkg/sharing/files.go:350-353 | a batch with one document without `_id` gathers MissingID |
| Inbound.LocalWins | pkg/sharing/files.go:494 | the local document wins only against an identifier other than its own |
| Inbound.ConflictHasOneWinner | pkg/sharing/files.go:494-502 | on one instance, the comparison of a local and an incoming identifier is antisymmetric: of two different identifiers exactly one order keeps the local document, and an identifier never wins against itself |
| Inbound.ConflictXoredBothRename | pkg/sharing/files.go:494-502 | the two instances do not compare the same pair, because each receives the other's identifier XORed with the key (pkg/sharing/files.go:113-114): with the key `[3]`, instance A holding `0` and instance B holding `2` at the same path both rename their own document |
| Inbound.ConflictNameAsWritten | pkg/sharing/files.go:492 | the name as written starts with the whole path |
| Inbound.ConflictNameAsWrittenHasSlash | pkg/sharing/files.go:492 | for an absolute path, the name as written holds a slash |
| Inbound.ConflictName | pkg/sharing/files.go:492 | the corrected name is not empty and holds no slash |
| Inbound.ResolveConflictSamePathAsWritten | pkg/sharing/files.go:486-507 | a lookup error is returned; a greater local id keeps the local document and returns the new name; otherwise the local document is renamed, having no other field changed, and the update's error is returned |
| Inbound.ResolveConflictSamePath | pkg/sharing/files.go:486-507 | the same with the corrected name; as in the code, a renamed document changes only its name |
| Inbound.GetDirDocFromNetwork | pkg/sharing/files.go:550-561 | a recipient asks the owner only; the owner asks its members in order, returns the first success, and returns FolderNotFound when all fail |
| Strings.JoinPath | pkg/sharing/files.go:763 | `path.Join` of a directory and a non-empty name starts with the directory, and with an empty directory it is the name alone |
| Strings.JoinPathBase | pkg/sharing/files.go:763 | a path joined from a directory and a name without a slash ends with that name |
| Trash.TrashDir | pkg/sharing/files.go:748-765 | nothing for a directory in the trash; the trash for one without references; otherwise a move under the no-longer-shared directory or its lookup error; name and references are kept |
| Trash.InTrashBelow | pkg/sharing/files.go:749 | whatever lies below a directory in the trash counts as in the trash |
| Trash.TrashFile | pkg/sharing/files.go:769-786 | nothing for a trashed file; otherwise the rule's references are removed first, then the trash when none remain, else a move into the no-longer-shared directory or its lookup error |
| Middlewares.SplitHost | web/middlewares/middlewares.go:22-38 | a host naming no application comes back whole with empty slug and siblings; otherwise the siblings are a wildcard domain, the slug holds no dot, and in flat mode the instance label holds no hyphen |
| Middlewares.SplitHostNested | web/middlewares/middlewares.go:25-30 | nested mode gives back the application and instance a host was built from, with `*.` and the instance as siblings |
| Middlewares.SplitHostFlat | web/middlewares/middlewares.go:31-34 | flat mode splits `user-app.domain` into the instance `user.domain`, the application and the siblings `*.domain` |
| Middlewares.SplitHostLocalhost | web/middlewares/middlewares_test.go:16-20 | "localhost" is returned whole |
| Middlewares.SplitHostNestedExample | web/middlewares/middlewares_test.go:22-27 | nested mode splits "calendar.joe.example.net" as the test expects |
| Middlewares.SplitHostFlatExample | web/middlewares/middlewares_test.go:29-34 | flat mode splits "joe-calendar.example.net" as the test expects |
| Middlewares.SplitHostFlatInstance | web/middlewares/middlewares_test.go:36-40 | flat mode returns "joe.example.net" whole |
| Middlewares.ApplyAllOutermost | web/middlewares/middlewares.go:13-18 | the first middleware is the outermost: `mws[0](mws[1](...(handler)))` |
| Middlewares.ApplyAllAppend | web/middlewares/middlewares.go:13-18 | composing a concatenation wraps the first list around the composition of the second |
| Middlewares.Compose | web/middlewares/middlewares.go:13-18 | the loop from the last middleware to the first computes ApplyAll, the first middleware outermost |

## Left out

- The database, the VFS, the network and locks are not modelled. CouchDB reads, view rows and writes, VFS lookups and updates, HTTP requests with token refresh (getDirDocFromInstance) and the `/shared` lock are inputs, parameters or returned values.
- JSON encoding and decoding are not modelled. Documents are already-decoded values (`Json`), and a failed `json.Unmarshal` of a view row is not an input.
- Randomness and time are inputs. MakeXorKey takes the random bytes, and resolveConflictSamePath takes the Unix time.
- Obfuscation.XorID: indexes characters where Go indexes the bytes of the UTF-8 encoding. The two agree on ASCII identifiers, which the stack generates.
- Obfuscation.XorID: an empty key with a hexadecimal character is excluded by its requires, where Go panics on the modulo by zero.
- RevsTrees: the tree is a value, and an interior pointer is a path of branch indices. In-place updates through pointers and aliasing between subtrees are not modelled.
- Outbound.SortFilesToSent: depth order among directories is not stated. Where the comparator is not a strict weak order (deleted or pathless entries), `sort.SliceStable` promises no order, so the model states only permutation, files last and files in their relative order.
- Inbound.Dispatch: the store is the same for the whole batch. Each document's calls do not change what later documents read.
- CreateDir, UpdateDir, recreateParent, copySafeFieldsToFile, copySafeFieldsToDir, GetFolder, EnsureSharedWithMeDir, GetSharingDir, GetNoLongerSharedDir, CreateDirForSharing and AddReferenceForSharingDir are left out. They are VFS orchestration. ApplyBulkFiles records the CreateDir and UpdateDir calls as values, and the no-longer-shared directory is an input to TrashDir and TrashFile.
- FindReferences and SharedRef.Match, Clone, ID, Rev, DocType, SetID and SetRev are left out. They are database accessors with no decision in them.
- Json.JNum holds integers. Floating point numbers do not occur in the fields the code reads.
- Registry.UpdateShared: the TODO about marking the files of a removed folder is not part of the code, and so not of the model.
- Registry.TrashCheckable: excluded by the requires of IsTrashed, and of UpdateShared for events other than DELETED, is a directory without a string `path`, where Go panics on the type assertion (pkg/sharing/files.go:31).
- Registry.NoLongerSharedDefined: excluded by the requires of NoLongerShared are `dir_id` values Go cannot compare (pkg/sharing/shared.go:251), a rule index out of range (pkg/sharing/shared.go:263) and a directory rule without values once the path is read (pkg/sharing/shared.go:293); Go panics on each.
- Outbound.Transformable: excluded by the requires of Transformed and TransformFileToSent are a document without a string `_id` (pkg/sharing/files.go:113), a rule index out of range (pkg/sharing/files.go:119), and a `referenced_by` entry that is a map without string `type` and `id` (pkg/sharing/files.go:127); Go panics on each.
- Outbound.Transformed: the `referenced_by` filter applies only when the field is a list of untyped JSON values, the `[]interface{}` assertion at pkg/sharing/files.go:123. GetFolder passes a directory built by dirToJSONDoc, whose `referenced_by` is a typed slice of references, at pkg/sharing/files.go:339. There the assertion fails and the references are sent unfiltered. The model's Json values have no typed slice, so that path of GetFolder is not modelled.
- Inbound.DispatchDefined: excluded by the requires of Dispatch are a deletion of a known, present document without a string `_rev` (pkg/sharing/files.go:386) and one of a file whose SharedRef names a rule out of range (pkg/sharing/files.go:394); Go panics on each.
- Inbound.NetworkDefined: excluded by the requires of GetDirDocFromNetwork is a sharing with fewer members or credentials than the indexes at pkg/sharing/files.go:552 and pkg/sharing/files.go:555 read, where Go panics.
- Inbound.ResolveConflictSamePath: as in the code, a renamed directory keeps its old full path. Whether fs.UpdateDirDoc rewrites it is outside this model.
- Registry.GetSharedDocsBySharingIDs: a listed row whose identifier has no slash is excluded by its requires, where Go dereferences a nil reference.
- Registry.RemoveSharedRefs: a refused write carries the store's error. Other store failures before the loop are not inputs.

## Findings

| source | as written | input that shows it | evidently intended | confidence | as-written member | corrected member |
|---|---|---|---|---|---|---|
| pkg/sharing/files.go:414 | ApplyBulkFiles gathers errors in `errm` and then returns `nil` | a batch holding one document without `_id`: MissingID is gathered, nil is returned | return `errm` | high; not executed | Inbound.ApplyBulkFilesAsWritten, Inbound.MissingIDIsGathered | Inbound.ApplyBulkFiles |
| pkg/sharing/shared.go:151-152 | after appending a missing revision, InsertChain moves its cursor to `Branches[0]` | tree `1-a` with branch `2-b`, chain `1-a, 2-c, 3-c`: `3-c` ends below `2-b` instead of below `2-c` | move to the appended branch | high; not executed | RevsTrees.ChainInsertedAsWritten, RevsTrees.InsertChainAsWrittenMisplaces, RevsTrees.InsertChainAsWrittenNotIdempotent | RevsTrees.ChainInserted, RevsTrees.InsertChainIsPath, RevsTrees.InsertChainIdempotent, RevsTrees.InsertChain |
| pkg/sharing/files.go:492 | the new name is made from the whole path `pth` | `pth = "/a/b"`: the name `"/a/b - conflict - T"` holds slashes | the last element of the path and the suffix | medium; not executed | Inbound.ResolveConflictSamePathAsWritten, Inbound.ConflictNameAsWrittenHasSlash | Inbound.ResolveConflictSamePath, Inbound.ConflictName |
| pkg/sharing/shared.go:234-235 | each entry must hold a `couchdb.DocReference`, and any other entry gives the empty reference | a file decoded from JSON, added to the album a referenced_by rule shares: it is found no longer shared | read decoded objects by their `type` and `id` | medium; not executed | Registry.ExtractReferencedByAsWritten, Registry.NoLongerSharedAsWrittenExample, Registry.UpdateSharedAlbumAsWritten | Registry.ExtractReferencedBy, Registry.ExtractReferencedByOfJson, Registry.NoLongerSharedCorrectedExample, Registry.UpdateSharedAlbum |
