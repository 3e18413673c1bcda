# LAUXUS: an encrypting filesystem, modelled and proved in Dafny

LAUXUS keeps every file as fixed-size blocks, each encrypted under its own key and counter, every node (file,
directory or the supernode) as an authenticated metadata blob, and every directory as a map from names to UUIDs. This
project models that filesystem and proves that it behaves like the simple things it stands for: one byte sequence per
file, one tree of names, one list of users, one list of audited reasons per node.

`dafny verify dfyconfig.toml` checks everything.

## How the model is built

**Bytes, disk, ciphers.** A byte is `bv8`. The untrusted store (`Disks`) is one map from a directory and a UUID to a
byte sequence, with the host's overwrite, append and short-read rules; input and output succeed. Ciphers (`Crypto`)
are XOR with an arbitrary keystream of key, counter and position (counter mode, section 6.5 of NIST SP 800-38A) and
XOR plus an arbitrary tag function checked on decryption (Galois/counter mode, sections 7.1 and 7.2 of NIST SP
800-38D). Every result holds for every choice of these functions, so round trips are proved from nothing but the
code's own use of them.

**A. Files.** `Blocks` and `SealedFiles` relate loaded blocks and the content file to flat bytes. `FilenodeContents`
is the class that holds loaded plain and cipher blocks, shares the key table with its node and runs the two loops of
`write`, the loops of `read`, `e_load` and `e_dump`, and the wrapping sum of `e_size`. `FileParts` and `FileStates`
hold the facts about one operation and about the disk; `FileStores` drives load, splice, re-encryption, metadata and
overwriting for `write_file`, `read_file` and `truncate_file`, against the flat operations of `FlatFiles`. The
predicate `Stands` is the invariant across stores: the size and the contiguous keys in the node, the keys in the
metadata file and the ciphertext in the content file all belong to one byte sequence. `FileRuns.Run` is the refinement
over whole runs.

**B. Metadata.** `Codec` reads from a buffer by returning what is left of it; an outcome is a value, a refusal (the
code returns -1) or a fault (the code would read past the buffer). `SealedMetadata` is the class with the shared,
mutable root key; `NodeRecords`, `NodeRoundTrip` and `Nodes` are the records, their round trips and the dumping and
loading objects. The three C++ node classes are one class `Node` with a `cls` that selects the overrides. `Orders`
models the traversal of `std::map` in ascending key order. `MetadataRuns` puts any interleaving of nodes under one
root key. `Audits` and `AuditLogs` are the audit files. `Authenticity` is about the bytes on the host, without the
functions of the model: what a blob hides, and that nothing loads whose tags are not those of its bytes; `Layouts` has
the records by position.

**C. Namespace and files by path.** `Trees` defines every operation of `FileSystem` as a function on a map from UUIDs
to nodes, a file node with its flat bytes, and on the audit logs; `TreeChanges` proves what each does to every path
and that it keeps the tree. `NodeCaches` adds the cache of loaded nodes as the code has it, with its lapses: `unlink`
of a directory keeps the parent loaded, `rename` onto an existing path frees by a relative path and so frees nothing,
`rmdir` and `rename` do not evict what they strike. `TreeFiles` says when the metadata, content and audit files on the
host hold a tree with its bytes and logs. `FileSystems` is the class that works on those files, with the supernode and
the loaded nodes in memory: `Mounted` says that the host holds the tree, `Valid` also that every loaded node is what
the host has for its path. `FileSystemStates`, `Creations`, `Removals`, `Renamings` and `NodeUpdates` carry both over
each operation. `FileSystemRuns.Run` is the refinement over whole runs of one user, `NewAndRun` starts it from an
empty host, and `StaleNodes` has the runs that break the cache or the tree; `Remount` heals a broken cache.

**D. Users, sessions and rights.** `Users` is the state machine of the users on values. `Sessions` has the calls of
the enclave on a `FileSystem`: `Sessions.Run` is the refinement over whole runs in which users are added and removed,
log in and work on files, and the filesystem is remounted. Whether a key signs, and whether a signature validates, are
arbitrary functions. `Users.LoggedInProved` says over every run who can be logged in. `Answers` states what the
operations answer and bring about in the bits of the entitlements and in numbers. `Protection` proves on the pure
state machine what entitlements promise: over any such run, users without a right neither change a node nor learn the
bytes of a file, and the log of a node
holds exactly the reasons of what concerned it.

**E. Text.** `Base64` and, against section 4 of RFC 4648 by its alphabet and the numbers, `Base64Standard`; `Paths`,
and `Listings` (joining and tokenising).

## What callers must respect

These are the preconditions of the operations. Where the code goes wrong without them, a lemma says exactly when.

- Reads start at most at the end of the file or past its last block: in between, an unsigned subtraction wraps
  (`FileParts.ReadWraps`).
- An empty write is not at a positive block boundary inside or at the end of the file: there the size of the dump wraps
  (`FileParts.WriteWraps`).
- Truncating to 0 needs a block key (`Nodes.TruncationFindsKeys`, `StaleNodes.TruncateNewExample`). Growing by truncation
  succeeds but leaves node and disk standing for no file and the host for no tree (`FileStates.GrownStandsForNothing`,
  `TreeFiles.OutgrownShowsNothing`), so runs exclude it.
- A created entry has a directory as its parent (`TreeChanges.CreateKeepsTree`, `StaleNodes.CreateInFileExample`).
- `rmdir` and `rename` succeed only on paths that are not cached, nor above a cached one (`NodeCaches.RmdirStaysCurrent`,
  `NodeCaches.RenameStaysCurrent`). The methods themselves run on any current cache and say when it stays so;
  `StaleNodes.RmdirExample` and `StaleNodes.RenameExample` are runs after which a stale node answers.
- Paths given to the filesystem are cleaned and absolute, UUIDs that are drawn are fresh, file sizes stay below 2^31, and
  so do the metadata blobs, whose sizes the code keeps in an `int` (`NodeRoundTrip.SizeFitsInt`).

## Where the code and its documentation differ

The report puts the list of children into the plain preamble (`report/sections/lauxus/metadata.tex:35`); the code
writes it into the encrypted section (`code/Enclave/utils/src/nodes/node.cpp:174-185`). The model follows the code.

The report lets only the administrator and whoever has the ownership flag assign rights
(`report/sections/lauxus/user_management.tex:50`), and has the entitlement checked before every request
(`report/sections/lauxus/filesystem.tex:43`). In the code the three other flags together count as ownership
(`Answers.AllowedExactly`, `Protection.OwnsWithoutBit`), and creations, renamings and queries for size and type check
no rights. The model follows the code; `Protection` speaks of removal, rights and bytes, and of files of one length.

## Model

| member | source | states |
|---|---|---|
| `FileRuns.Run` | code/Enclave/utils/src/filesystem/filesystem.cpp:200-303 | any run of writes, reads, truncations to 0 and reopenings gives the replies of one flat byte sequence, ends with node, keys, metadata and ciphertext standing for it, appends one audit record per audited action, touches no file of another node and leaves root key and IV as they are |
| `FileRuns.CreateAndRun` | code/Enclave/utils/src/filesystem/filesystem.cpp:164-303 | the same from the creation of the file on, with the creator holding every right |
| `FileRuns.Step` | code/Enclave/utils/src/filesystem/filesystem.cpp:200-303 | one operation of such a run |
| `FileStores.FileStore.WriteFile` | code/Enclave/utils/src/filesystem/filesystem.cpp:236-262 | an accepted write leaves the zero-padded splice and returns its size; a write that starts past a missing block is refused with -EPROTO, one inside the block after a full last one with -1, both leaving the file; without the right nothing changes at all |
| `FileStores.FileStore.ReadFile` | code/Enclave/utils/src/filesystem/filesystem.cpp:200-234 | exactly the bytes of the file at the offset, as many as asked for and there are, land at the start of the buffer and nothing else of it changes; the file stays |
| `FileStores.FileStore.TruncateFile` | code/Enclave/utils/src/filesystem/filesystem.cpp:264-303 | to 0: the empty file, with the key of block 0 kept; to a smaller or equal positive size: refused, nothing on disk changes; to a larger size: success, after which node and disk stand for no file, because the metadata file tells another size than the content file has |
| `FileStores.FileStore.Grow` | code/Enclave/utils/src/filesystem/filesystem.cpp:272-287 | after growing, no byte sequence whatever is represented |
| `FileStores.FileStore.Shrink` | code/Enclave/utils/src/filesystem/filesystem.cpp:288-296 | refused unless to 0; to 0 the node stands for the empty file |
| `FileStores.FileStore.Empty` | code/Enclave/utils/src/filesystem/filesystem.cpp:291-295 | metadata file cut to the new blob and content file to nothing stand for the empty file |
| `FileStores.FileStore.ReadBlocks` | code/Enclave/utils/src/filesystem/filesystem.cpp:208-225 | reading one block size at a time equals one read of the whole range for any alignment, stops at a short step, and fails only when the first block lies past the end |
| `FileStores.FileStore.ReadStep` | code/Enclave/utils/src/filesystem/filesystem.cpp:214-222 | one step: load a block range, copy from it, drop it |
| `FileStores.FileStore.LoadAndWrite` | code/Enclave/utils/src/filesystem/filesystem.cpp:243-250 | load then splice, for every write: accepted inside, right at the end of, or in the last block of the file, with the whole touched range re-encrypted, and with nothing touched for an empty write at a block boundary; refused otherwise with keys, size and loaded blocks as before |
| `FileStores.FileStore.SaveWrite` | code/Enclave/utils/src/filesystem/filesystem.cpp:252-258 | metadata first, then the touched ciphertext: node and disk stand for the spliced file |
| `FileStores.FileStore.WriteBlocks` | code/Enclave/utils/src/filesystem/serialisation.cpp:99-112 | overwrites exactly the block-aligned range of the content file with the ciphertext of the spliced part |
| `FileStores.FileStore.LoadFileBlocks` | code/Enclave/utils/src/filesystem/serialisation.cpp:55-75 | the bytes of the block range that the content file has, cut at its end; -EPROTO when the range starts past the end |
| `FileStores.FileStore.LoadContent` | code/Enclave/utils/src/filesystem/serialisation.cpp:41-53 | after loading, the plain blocks are the plaintext of the range and the cipher blocks its ciphertext; fails with nothing loaded when the range starts past the end |
| `FileStores.FileStore.WriteMeta` | code/Enclave/utils/src/filesystem/serialisation.cpp:78-97 | the blob over the start of the metadata file, truncated or not, loads as the node under the root key with any tag in it, and no other file changes |
| `FileStores.FileStore.AppendAudit` | code/Enclave/utils/src/filesystem/serialisation.cpp:122-137 | the audit file grows by one valid record for the reason |
| `FileStores.FileStore.LoadMetadata` | code/Enclave/utils/src/filesystem/serialisation.cpp:4-38 | for every file: the class that the blob announces, loaded or refused as `e_load` does; a missing file or another class gives no node |
| `FileStores.FileStore.RewriteMeta` | code/Enclave/utils/src/filesystem/serialisation.cpp:78-97 | a file node written with another path, other rights or other times stands for the same bytes, and keeps its log |
| `FileStores.FileStore.Reopen` | code/Enclave/utils/src/filesystem/utils.cpp:4-44 | a node dropped and loaded again stands for the same file, times aside |
| `FileStores.FileStore.CreateFile` | code/Enclave/utils/src/filesystem/filesystem.cpp:178-190 | the file part of a creation: a new node stands for the empty file, is audited, and gives its creator every right |
| `FileParts.WriteReseals` | code/Enclave/utils/src/filesystem/filesystem.cpp:248-255 | the new ciphertext of the touched part, laid over the old ciphertext, is the ciphertext of the spliced file under the new keys and counters |
| `FileParts.WriteKeysFit` | code/Enclave/utils/src/nodes/filenode_content.cpp:54-71 | after a write the key indices are contiguous from 0 and reach exactly the last block of the file |
| `FileParts.CipherFollows` | code/Enclave/utils/src/nodes/filenode_content.cpp:143-154 | after a write the loaded cipher blocks are exactly the encryption of the loaded plain blocks |
| `FileParts.LoadGivesPart` | code/Enclave/utils/src/nodes/filenode_content.cpp:122-140 | loading the ciphertext of a range restores exactly its plain blocks |
| `FileParts.TouchedReady` | code/Enclave/utils/src/nodes/filenode_content.cpp:101-120 | after an accepted write `e_size` is the length of the touched ciphertext and the range is ready to be dumped |
| `FileParts.WriteWraps` | code/Enclave/utils/src/filesystem/serialisation.cpp:99-112 | once `write_file` accepts a write, `e_size` asks for a negative size if and only if the write is empty and at a positive block boundary |
| `FileParts.ReadTurn` | code/Enclave/utils/src/filesystem/filesystem.cpp:213-225 | the pieces read so far are a prefix of the whole read, and a short step means that it is complete |
| `FileParts.ReadWraps` | code/Enclave/utils/src/nodes/filenode_content.cpp:90-92 | `block.size() - offset_in_block` wraps if and only if the offset lies past the end of the file inside its last block |
| `FileParts.ReadPastEndExample` | code/Enclave/utils/src/nodes/filenode_content.cpp:90-92 | a concrete read for which it wraps |
| `FlatFiles.SpliceAt` | code/Enclave/utils/src/nodes/filenode_content.cpp:35-71 | byte by byte: new data where it lies, the old file elsewhere, zeros in the gap |
| `FlatFiles.ReadsOwnWrite` | code/Enclave/utils/src/filesystem/filesystem.cpp:200-262 | a write is read back, and reads before or after it see the old bytes |
| `FlatFiles.ReadExactly` | code/Enclave/utils/src/filesystem/filesystem.cpp:200-234 | codes and bytes of a read: 71 if and only if the block of the offset begins past the end |
| `FlatFiles.WriteExactly` | code/Enclave/utils/src/filesystem/filesystem.cpp:236-262 | codes and bytes of a write: 71 as for a read, 1 if and only if the file ends where the block of an offset past it begins |
| `FileStates.EveryBlockDecrypts` | code/Enclave/utils/src/nodes/filenode_content.cpp:156-167 | each block on disk, decrypted with the key and counter that the metadata on disk holds, is the plaintext block |
| `FileStates.OthersStand` | code/Enclave/utils/src/filesystem/serialisation.cpp:78-120 | operations on one node leave every other file node standing for its file, whatever tag they leave in the shared root key |
| `FileStates.RewrittenStands` | code/Enclave/utils/src/filesystem/serialisation.cpp:78-97 | a metadata file that loads as the node under another path or with other rights leaves the node standing for the same bytes |
| `FileStates.FileSectionExact` | code/Enclave/utils/src/nodes/filenode.cpp:78-106 | the size of the sensitive section of a file node is determined by its path, its rights and the size of its file |
| `FileStates.FileIsDetermined` | code/Enclave/utils/src/filesystem/serialisation.cpp:41-112 | node, keys and ciphertext stand for at most one file |
| `FileStates.GrownStandsForNothing` | code/Enclave/utils/src/filesystem/filesystem.cpp:272-287 | a size larger than the content file stands for no file |
| `FilenodeContents.FilenodeContent.Write` | code/Enclave/utils/src/nodes/filenode_content.cpp:24-74 | on loaded blocks holding `w`: the splice with zero fill, `data_size` returned, the growth added to `size`, exactly the range re-encrypted; refused when the offset is inside a block that is not loaded |
| `FilenodeContents.FilenodeContent.FillLoaded` | code/Enclave/utils/src/nodes/filenode_content.cpp:33-52 | the first loop stops at the first block of the range that is not loaded, with everything before it written and encrypted |
| `FilenodeContents.FilenodeContent.AppendNew` | code/Enclave/utils/src/nodes/filenode_content.cpp:54-71 | the second loop writes all that is left, right after a full last block |
| `FilenodeContents.FilenodeContent.WriteLoadedBlock` | code/Enclave/utils/src/nodes/filenode_content.cpp:35-52 | a loaded block is overlaid, grown if needed, and re-encrypted; `size` grows by what the block grows |
| `FilenodeContents.FilenodeContent.WriteNewBlock` | code/Enclave/utils/src/nodes/filenode_content.cpp:55-71 | a new block holds the next piece of the data, under a new key only if it has none |
| `FilenodeContents.FilenodeContent.EncryptBlock` | code/Enclave/utils/src/nodes/filenode_content.cpp:143-154 | the block gets a new counter under its old key and its ciphertext; nothing else changes |
| `FilenodeContents.FilenodeContent.DecryptBlock` | code/Enclave/utils/src/nodes/filenode_content.cpp:156-167 | the plain block is the decryption of the cipher block; nothing else changes |
| `FilenodeContents.FilenodeContent.Read` | code/Enclave/utils/src/nodes/filenode_content.cpp:76-98 | copies what the loaded blocks hold from the offset on, and returns how much |
| `FilenodeContents.FilenodeContent.ELoad` | code/Enclave/utils/src/nodes/filenode_content.cpp:122-140 | the blocks of the range come from the buffer as far as it goes, decrypted; other blocks are untouched |
| `FilenodeContents.FilenodeContent.ESize` | code/Enclave/utils/src/nodes/filenode_content.cpp:101-107 | the `size_t` sum as an `int`, with the entry that indexing a map creates |
| `FilenodeContents.FilenodeContent.EDump` | code/Enclave/utils/src/nodes/filenode_content.cpp:109-120 | fills the buffer with the ciphertext of the range and returns its block-aligned file offset |
| `FilenodeContents.EncodedSizeExact` | code/Enclave/utils/src/nodes/filenode_content.cpp:101-120 | `e_size` is the number of bytes that `e_dump` writes |
| `FilenodeContents.EmptyWriteWraps` | code/Enclave/utils/src/nodes/filenode_content.cpp:101-107 | for an empty range and any loaded blocks, `e_size` wraps below zero if and only if the offset is at a positive block boundary and no full block before it is loaded |
| `FilenodeContents.EmptyWriteExample` | code/Enclave/utils/src/nodes/filenode_content.cpp:101-107 | a concrete empty write for which it wraps |
| `Blocks.RangeCovers` | code/Enclave/utils/src/nodes/filenode_content.cpp:171-179 | the block range covers the bytes asked for and its last block is needed |
| `Blocks.EmptyRange` | code/Enclave/utils/src/nodes/filenode_content.cpp:171-179 | an empty range past the start is one block inside a block and none at a boundary |
| `Blocks.WriteInsideBlock` | code/Enclave/utils/src/nodes/filenode_content.cpp:35-48 | overlaying a loaded block is a splice of the flat bytes that the blocks hold |
| `Blocks.AppendBlock` | code/Enclave/utils/src/nodes/filenode_content.cpp:55-68 | a new block after a full last one appends to the flat bytes |
| `SealedFiles.SealedChunk` | code/Enclave/utils/src/nodes/filenode_content.cpp:143-167 | block by block, the flat ciphertext is the encryption of the flat plaintext |
| `SealedFiles.SealedSlice` | code/Enclave/utils/src/filesystem/serialisation.cpp:55-75 | a block-aligned slice of the content file is the ciphertext of that slice |
| `SealedFiles.SealedOverlay` | code/Enclave/utils/src/filesystem/serialisation.cpp:99-112 | overwriting a block-aligned range with its new ciphertext reseals the overwritten file |
| `Nodes.Node.TruncateKeys` | code/Enclave/utils/src/nodes/filenode.cpp:35-47 | only the key of block 0 is left; any other size is refused with the keys as before |
| `Nodes.TruncationFindsKeys` | code/Enclave/utils/src/nodes/filenode.cpp:40-45 | all lookups of the loop, from the first index down to 1, succeed if and only if the file has a key |
| `Nodes.NoKeyFoundExample` | code/Enclave/utils/src/nodes/filenode.cpp:40-45 | without keys the first index is the largest size_t, and it is not found |
| `Disks.Disk.Load` | code/App/utils/src/serialisation.cpp:7-20 | a long read is cut short; nothing is read at or past the end |
| `Disks.Disk.DumpWithOffset` | code/App/utils/src/serialisation.cpp:38-52 | overwrites without truncating; refuses an offset past the end |
| `Disks.Disk.DumpTrunc` | code/App/utils/src/serialisation.cpp:29-37 | replaces the file |
| `Disks.Disk.TruncateFile` | code/App/utils/src/serialisation.cpp:53-58 | cuts or extends an existing file; fails on a missing one |
| `NodeRoundTrip.NodeBack` | code/Enclave/utils/src/encryption/metadata.cpp:26-90 | for all three classes: a fresh node loads exactly the dumped node from its blob followed by any tail, under any tag in the root key, and the load consumes exactly the blob |
| `NodeRoundTrip.SizesExact` | code/Enclave/utils/src/encryption/metadata.cpp:22-24 | preamble, sensitive and whole sizes equal the bytes written |
| `NodeRoundTrip.SizeFitsInt` | code/Enclave/utils/src/encryption/metadata.cpp:26-58 | the size of every blob that is written fits the `int` that `e_dump` returns |
| `NodeRoundTrip.PreambleBack` | code/Enclave/utils/src/nodes/node.cpp:126-149 | the preamble reads back, with the file size for a file node |
| `NodeRoundTrip.NodeSectionBack` | code/Enclave/utils/src/nodes/node.cpp:165-240 | relative path, entries and entitlements read back; a file node has no entries |
| `NodeRoundTrip.ClassSectionBack` | code/Enclave/utils/src/nodes/filenode.cpp:85-119 | block keys, or users, read back |
| `NodeRoundTrip.KeysBack` | code/Enclave/utils/src/nodes/filenode.cpp:93-116 | keys listed in map order and numbered again from 0 are the same keys when the indices are contiguous |
| `NodeRoundTrip.UsersBack` | code/Enclave/utils/src/nodes/supernode.cpp:51-78 | users listed in map order and inserted again by their UUID are the same users |
| `NodeRoundTrip.UserBack` | code/Enclave/utils/src/user.cpp:45-73 | a user record reads back from any buffer that starts with it |
| `NodeRoundTrip.EntryBack` | code/Enclave/utils/src/nodes/node.cpp:177-184 | an entry record reads back |
| `NodeRoundTrip.EntitlementBack` | code/Enclave/utils/src/nodes/node.cpp:189-195 | an entitlement record reads back, its textual UUID cut to 21 bytes and read up to the NUL |
| `SealedMetadata.OpenBack` | code/Enclave/utils/src/encryption/metadata.cpp:26-90 | what is sealed opens to the same sensitive section and context, whatever follows and whatever tag the root key held |
| `SealedMetadata.OpenCryptoBack` | code/Enclave/utils/src/encryption/metadata.cpp:97-136 | the encrypted crypto context, tag included, reads back |
| `SealedMetadata.OpenSectionBack` | code/Enclave/utils/src/encryption/metadata.cpp:143-193 | the encrypted section reads back when the tag matches preamble and ciphertext |
| `SealedMetadata.Metadata.EDumpTail` | code/Enclave/utils/src/encryption/metadata.cpp:37-57 | sensitive section, crypto context and root tag at the end of the buffer; the two tags are left in the node context and in the shared root key |
| `SealedMetadata.Metadata.EDumpSensitive` | code/Enclave/utils/src/encryption/metadata.cpp:143-165 | the section with its length, and its tag in the node context |
| `SealedMetadata.Metadata.EDumpCrypto` | code/Enclave/utils/src/encryption/metadata.cpp:97-115 | the encrypted context with its length, and its tag in the shared root key |
| `SealedMetadata.Metadata.ELoadCrypto` | code/Enclave/utils/src/encryption/metadata.cpp:69-81 | overwrites the shared tag, then opens the context with it |
| `SealedMetadata.Metadata.ELoadSensitive` | code/Enclave/utils/src/encryption/metadata.cpp:167-188 | opens the section under the loaded context, with the preamble as associated data |
| `Nodes.Node.PDumpPreamble` | code/Enclave/utils/src/nodes/node.cpp:126-137 | writes exactly the preamble |
| `Nodes.Node.DumpNodeSection` | code/Enclave/utils/src/nodes/node.cpp:165-198 | writes exactly the node part of the sensitive section |
| `Nodes.Node.PDumpSensitive` | code/Enclave/utils/src/nodes/supernode.cpp:43-61 | writes exactly the sensitive section of the class |
| `Nodes.Node.EDump` | code/Enclave/utils/src/encryption/metadata.cpp:26-58 | refuses a short buffer with nothing changed; otherwise the preamble at the start and the rest at the end of the buffer |
| `Nodes.Node.EDumpExact` | code/Enclave/utils/src/encryption/metadata.cpp:26-58 | in a buffer of exactly `e_size` bytes the blob is contiguous |
| `Nodes.Node.PLoadPreamble` | code/Enclave/utils/src/nodes/filenode.cpp:67-76 | reads the preamble of the class into the node |
| `Nodes.Node.LoadNodeSection` | code/Enclave/utils/src/nodes/node.cpp:200-240 | reads path, entries and entitlements into the node, or says how it fails |
| `Nodes.Node.LoadKeys` | code/Enclave/utils/src/nodes/filenode.cpp:108-116 | inserts the keys under 0, 1, 2 and so on |
| `Nodes.Node.LoadUsers` | code/Enclave/utils/src/nodes/supernode.cpp:68-78 | inserts the users under their UUIDs |
| `Nodes.Node.PLoadSensitive` | code/Enclave/utils/src/nodes/supernode.cpp:63-80 | reads the section of the class; a supernode goes on after a refused node part |
| `Nodes.Node.ELoad` | code/Enclave/utils/src/encryption/metadata.cpp:60-90 | the outcome depends on the blob and not on the tag the root key held |
| `MetadataFiles.SealedLoadsAs` | code/Enclave/utils/src/filesystem/serialisation.cpp:78-97 | a file that starts with the blob of a node loads as that node |
| `MetadataRuns.LastDumpLoads` | code/Enclave/utils/src/encryption/metadata.cpp:44-81 | in any interleaving of dumps, loads and deletions of any nodes under one root key, each metadata file loads as the node last dumped to it, however long earlier blobs were |
| `MetadataFiles.LoadsAsLoaded` | code/Enclave/utils/src/filesystem/serialisation.cpp:4-25 | a file that loads as a file or directory node gives that node |
| `TreeFiles.SavedShown` | code/Enclave/utils/src/filesystem/serialisation.cpp:78-97 | a node whose blob was just written, and whose content file stands for its bytes, is the node of the tree, rights, entries, bytes and all |
| `TreeFiles.TreeLoads` | code/Enclave/utils/src/filesystem/serialisation.cpp:4-25 | under any tag in the root key, loading gives each node of the tree but the supernode, and nothing for any other UUID |
| `TreeFiles.HostDetermines` | code/Enclave/utils/src/filesystem/serialisation.cpp:4-146 | one host holds one tree, one content of every file and one log of every node |
| `TreeFiles.OutgrownShowsNothing` | code/Enclave/utils/src/filesystem/filesystem.cpp:264-303 | when the metadata file tells another size than the content file has, the host holds no tree |
| `TreeFiles.ShownAfter` | code/Enclave/utils/src/filesystem/serialisation.cpp:78-146 | changing or deleting the files of some nodes changes the tree, with its bytes and logs, there and nowhere else |
| `TreeFiles.SectionSizeExact` | code/Enclave/utils/src/nodes/node.cpp:151-163 | the size of the sensitive section of a node is determined by the node of the tree |
| `Crypto.GcmXorAt` | code/Enclave/utils/src/encryption/aes_gcm.cpp:10-18 | byte by byte, encryption puts the keystream of key and initialisation vector on the data |
| `Authenticity.BlobFrame` | code/Enclave/utils/src/encryption/metadata.cpp:26-58 | in a blob, the tag and the lengths at their positions are those of the bytes beside them |
| `Authenticity.SectionMasked` | code/Enclave/utils/src/encryption/metadata.cpp:143-165 | byte k of the section in a blob is byte k of the plain section under the keystream of the context |
| `Authenticity.ContextMasked` | code/Enclave/utils/src/encryption/metadata.cpp:97-115 | key, initialisation vector and the tag over preamble and section are in the blob under the keystream of the root key |
| `Authenticity.BlobHides` | code/Enclave/utils/src/encryption/metadata.cpp:26-58 | secrecy: any other section of the same length is sealed in the very same blob under another keystream of the same context |
| `Authenticity.NodeHides` | code/Enclave/utils/src/encryption/metadata.cpp:26-58 | so a node blob does not tell names, entitlements, keys or users beyond their size |
| `Authenticity.ContentHides` | code/Enclave/utils/src/nodes/filenode_content.cpp:143-154 | a content file does not tell its bytes, but for their number, if no two blocks have one key and counter |
| `Authenticity.RecordHides` | code/Enclave/utils/src/nodes/node_audit.cpp:19-28 | an audit record does not tell its reason, but for the length |
| `Authenticity.SectionOpens` | code/Enclave/utils/src/encryption/metadata.cpp:167-188 | a section opens if and only if its length fits and its tag is that of its bytes and the associated data; what comes out, byte by byte |
| `Authenticity.NodeOpens` | code/Enclave/utils/src/encryption/metadata.cpp:60-90 | a buffer loads as a node if and only if both its tags are those of its own bytes, preamble included, and the decrypted section is one of the class; with well-formed lengths anything else that is not authentic is refused |
| `Authenticity.FileIsAuthentic` | code/Enclave/utils/src/filesystem/serialisation.cpp:4-38 | a metadata file that loads is authentic under the preamble of the class that it announces |
| `Authenticity.RecordOpens` | code/Enclave/utils/src/nodes/node_audit.cpp:30-42 | the same if and only if for audit records |
| `Authenticity.Tampered` | code/Enclave/utils/src/encryption/metadata.cpp:60-90 | a blob with another preamble or section, or another crypto section or tag, is not authentic when the tag function tells the parts apart |
| `Authenticity.TamperedNode` | code/Enclave/utils/src/encryption/metadata.cpp:60-90 | so it is refused, whatever tag the root key holds |
| `Authenticity.PreambleFrom` | code/Enclave/utils/src/nodes/node.cpp:139-149 | which bytes of a buffer are which field of the preamble |
| `Authenticity.PreambleKept` | code/Enclave/utils/src/encryption/metadata.cpp:178-185 | dumping the loaded preamble gives the bytes of the buffer again, which are the associated data |
| `Layouts.RightsBytes` | code/Enclave/utils/src/nodes/node.cpp:189-195 | a UUID, its NUL, and owner, read, write and execute in bits 0 to 3 |
| `Layouts.EntryBytes` | code/Enclave/utils/src/nodes/node.cpp:177-184 | length with NUL, name, NUL and UUID |
| `Layouts.KeyBytes` | code/Enclave/utils/src/nodes/filenode.cpp:93-105 | key, then counter |
| `Layouts.UserBytes` | code/Enclave/utils/src/user.cpp:45-56 | UUID, length, name and public key at their positions |
| `Layouts.SectionFrame` | code/Enclave/utils/src/nodes/node.cpp:165-198 | the name with its length, then counted entries, entitlements and what the class adds |
| `ByteStrings.LowByteFirst` | code/Enclave/utils/src/nodes/node.cpp:165-198 | byte k of a number is its digit k in base 256 |
| `Crypto.CtrTwice` | code/Enclave/utils/src/encryption/aes_ctr.cpp:9-27 | decryption after encryption under one key and counter is the identity |
| `Crypto.GcmContext.Decrypt` | code/Enclave/utils/src/encryption/aes_gcm.cpp:20-28 | refuses if and only if the tag in the context is not that of ciphertext and associated data |
| `Audits.RecordBack` | code/Enclave/utils/src/nodes/node_audit.cpp:15-42 | an audit record reads back from any buffer that starts with it |
| `Audits.ReadLogBack` | code/Enclave/utils/src/nodes/node_audit.cpp:19-42 | loading again and again, each time from where the last load ended, gives all entries in order |
| `Audits.NodeAudit.EDump` | code/Enclave/utils/src/nodes/node_audit.cpp:19-28 | dumps one valid record for the reason |
| `Audits.NodeAudit.ELoad` | code/Enclave/utils/src/nodes/node_audit.cpp:30-42 | loads the reason, or says how it fails |
| `AuditLogs.OneMoreRecord` | code/Enclave/utils/src/filesystem/serialisation.cpp:122-137 | appending a record adds its reason to the log that the file holds |
| `AuditLogs.AuditReasons` | code/Enclave/utils/src/filesystem/serialisation.cpp:122-137 | the audit file on disk gives back all reasons in the order of the actions |
| `FileSystemRuns.Run` | code/Enclave/utils/src/filesystem/filesystem.cpp:32-447 | cache transparency on real bytes: from any current cache, a legal run of creations, removals, renames, opens, closes, edits of rights, listings, reads, writes, truncations and size and type queries by path gives the replies of the pure operations on a tree of flat files, which know no cache; metadata, content and audit files then hold exactly that tree, those bytes and those logs |
| `FileSystemRuns.RunKeepsTree` | code/Enclave/utils/src/filesystem/filesystem.cpp:32-447 | every legal run keeps the namespace a tree |
| `FileSystemRuns.NewAndRun` | code/Enclave/utils/src/filesystem/filesystem.cpp:9-447 | the same refinement for the whole life of a filesystem, from an empty host on |
| `FileSystemRuns.Step` | code/Enclave/utils/src/filesystem/filesystem.cpp:32-447 | one operation: its reply, the tree, bytes and logs it leaves on the host, and exactly which paths are loaded afterwards |
| `NodeCaches.RetrieveIsResolve` | code/Enclave/utils/src/filesystem/utils.cpp:10-34 | resolving any string equals folding entry lookup over its names; without a leading slash the first name is skipped |
| `NodeCaches.ResolvesInDirectory` | code/Enclave/utils/src/filesystem/utils.cpp:16-34 | a clean path other than the root resolves to its last name in what its directory part resolves to |
| `NodeCaches.RmdirStaysCurrent` | code/Enclave/utils/src/filesystem/filesystem.cpp:431-440 | after a successful `rmdir` every cached node is current if and only if the directory was not cached |
| `NodeCaches.RenameStaysCurrent` | code/Enclave/utils/src/filesystem/filesystem.cpp:120-130 | after a successful `rename` every cached node is current if and only if none at or below the old path was cached |
| `FileSystems.FileSystem.constructor` | code/Enclave/ecalls.cpp:12-20 | a new filesystem holds the empty tree, on the host and in memory |
| `FileSystems.FileSystem.LoadNode` | code/Enclave/utils/src/filesystem/serialisation.cpp:4-25 | loads the node of the tree, or nothing; the host stays as it is |
| `FileSystems.FileSystem.SaveNode` | code/Enclave/utils/src/filesystem/serialisation.cpp:78-97 | the blob on the host loads as the node; no file of another node changes |
| `FileSystems.FileSystem.AuditAndSave` | code/Enclave/utils/src/filesystem/serialisation.cpp:78-137 | one more reason in the log of the node, and its blob written |
| `FileSystems.FileSystem.DeleteNode` | code/Enclave/utils/src/filesystem/serialisation.cpp:140-146 | content, metadata and audit file are gone; no file of another node changes |
| `FileSystems.FileSystem.RetrieveBelow` | code/Enclave/utils/src/filesystem/utils.cpp:16-34 | the node that walking down the tree finds |
| `FileSystems.FileSystem.RetrieveNode` | code/Enclave/utils/src/filesystem/utils.cpp:4-15 | what is loaded for the path, current or not, or else the node that the host has for it, which is then loaded |
| `FileSystems.FileSystem.FreeNode` | code/Enclave/utils/src/filesystem/utils.cpp:36-44 | evicts one path and no other |
| `FileSystems.FileSystem.CreateFile` | code/Enclave/utils/src/filesystem/filesystem.cpp:164-198 | code, tree and audit logs of the pure creation, on parent and new node; the new file stays loaded |
| `FileSystems.FileSystem.CreateDirectory` | code/Enclave/utils/src/filesystem/filesystem.cpp:366-400 | the same; the new directory does not stay loaded |
| `FileSystems.FileSystem.Unlink` | code/Enclave/utils/src/filesystem/filesystem.cpp:305-344 | code and tree of the pure removal, all three files of the node deleted, the parent audited; the parent stays loaded when the entry is not a file |
| `FileSystems.FileSystem.RmDirectory` | code/Enclave/utils/src/filesystem/filesystem.cpp:402-447 | the same for a directory, loaded or not; afterwards the cache is current if and only if the directory was not loaded |
| `FileSystems.FileSystem.Rename` | code/Enclave/utils/src/filesystem/filesystem.cpp:90-137 | code and tree of the pure rename, bytes and rights of the child unchanged, whatever is loaded; afterwards the cache is current if and only if nothing at or below the old path was loaded |
| `FileSystems.FileSystem.WriteFile` | code/Enclave/utils/src/filesystem/filesystem.cpp:236-262 | the file of the path holds the splice, with audit record, metadata and ciphertext on the host; whatever is found stays loaded, with its new keys and size |
| `FileSystems.FileSystem.ReadFile` | code/Enclave/utils/src/filesystem/filesystem.cpp:200-234 | the bytes of the file of the path land in the buffer; an audit record and a time are all that changes on the host |
| `FileSystems.FileSystem.TruncateFile` | code/Enclave/utils/src/filesystem/filesystem.cpp:264-303 | to 0, or refused; whatever is found stays loaded; when the file grows, the call succeeds, the loaded node has the new size, and the files on the host are those of no tree at all |
| `FileSystems.FileSystem.FileSize` | code/Enclave/utils/src/filesystem/filesystem.cpp:140-148 | the number of bytes of the file; a file is freed, a directory found instead stays loaded |
| `FileSystems.FileSystem.OpenFile` | code/Enclave/utils/src/filesystem/filesystem.cpp:150-158 | the code, and that what is found stays loaded even when it is refused |
| `FileSystems.FileSystem.EntryType` | code/Enclave/utils/src/filesystem/filesystem.cpp:67-75 | the type of what is loaded for the path, stale or not, or else of what the tree has there |
| `FileSystems.FileSystem.EditUserEntitlement` | code/Enclave/utils/src/filesystem/filesystem.cpp:32-55 | code and tree of the pure edit, the bytes of a file unchanged; an unknown user leaves the node loaded |
| `FileSystems.FileSystem.Readdir` | code/Enclave/utils/src/filesystem/filesystem.cpp:347-364 | the visible names in map order; nothing but a time changes on the host |
| `FileSystems.FileSystem.Remount` | code/Enclave/ecalls.cpp:23-67 | the supernode comes back from its own file and the cache is empty; the tree, bytes and logs on the host are the same, and the cache is current whatever it was before |
| `FileSystems.FileSystem.ListChildren` | code/Enclave/utils/src/filesystem/filesystem.cpp:350-358 | the loop: the entries that the user may see, each loaded from the host |
| `StaleNodes.TypeAfterRmdir` | code/Enclave/utils/src/filesystem/filesystem.cpp:402-447 | a directory that is removed while it is loaded is still announced under its path, where the tree has nothing |
| `StaleNodes.TypeAfterRename` | code/Enclave/utils/src/filesystem/filesystem.cpp:90-137 | a node that is renamed while it is loaded is still announced under its old path |
| `StaleNodes.RmdirExample` | code/Enclave/utils/src/filesystem/filesystem.cpp:402-447 | such a run from a new filesystem: create, open and remove a directory |
| `StaleNodes.RenameExample` | code/Enclave/utils/src/filesystem/filesystem.cpp:90-137 | such a run from a new filesystem: create and rename a file |
| `StaleNodes.CreateInFileExample` | code/Enclave/utils/src/filesystem/filesystem.cpp:164-198 | a run from the empty tree that creates a node below a file: it succeeds, and nothing leads to the node |
| `StaleNodes.TruncateNewExample` | code/Enclave/utils/src/filesystem/filesystem.cpp:264-303 | a new file truncated to 0 by its owner: its loaded node has no key, so the first lookup fails |
| `Trees.PathsAreUnique` | code/Enclave/utils/src/filesystem/filesystem.cpp:90-447 | no two paths resolve to one node |
| `Trees.ResolveLast` | code/Enclave/utils/src/filesystem/utils.cpp:16-34 | the last step of a resolution |
| `TreeChanges.CreateResolves` | code/Enclave/utils/src/filesystem/filesystem.cpp:178-190 | the new path resolves to the new node, every other path as before |
| `TreeChanges.CreateKeepsTree` | code/Enclave/utils/src/filesystem/filesystem.cpp:178-190 | a creation keeps the tree if and only if its parent is not a file |
| `TreeChanges.UnlinkKeepsTree` | code/Enclave/utils/src/filesystem/filesystem.cpp:318-332 | after `unlink` there is a tree, the path resolves to nothing, every other path as before |
| `TreeChanges.RmdirKeepsTree` | code/Enclave/utils/src/filesystem/filesystem.cpp:415-437 | the same for `rmdir` |
| `TreeChanges.RenameMoves` | code/Enclave/utils/src/filesystem/filesystem.cpp:114-127 | every path below the old prefix resolves to the same node below the new one, the old prefix leads nowhere, all other paths resolve as before |
| `TreeChanges.RenameKeepsTree` | code/Enclave/utils/src/filesystem/filesystem.cpp:114-127 | a rename keeps the tree |
| `TreeChanges.EditKeepsTree` | code/Enclave/utils/src/nodes/node.cpp:84-95 | changing rights keeps the tree and every resolution |
| `TreeChanges.WriteKeepsTree` | code/Enclave/utils/src/filesystem/filesystem.cpp:236-262 | a write keeps the tree, every resolution, and every node but the file |
| `TreeChanges.TruncateKeepsTree` | code/Enclave/utils/src/filesystem/filesystem.cpp:264-303 | the same for a truncation |
| `TreeChanges.ListingExact` | code/Enclave/utils/src/filesystem/filesystem.cpp:350-358 | a listing has each entry the user may see, once, under the name it is looked up by |
| `Sessions.Run` | code/Enclave/ecalls.cpp:13-251 | any run of calls by any users, user management and remountings between operations by path: replies, users, session, tree, bytes and logs are those of the pure state machine; after each call the supernode blob on the host loads as the users and as the entries of the root directory |
| `Sessions.NewAndRun` | code/Enclave/ecalls.cpp:13-251 | the same from an empty host and no user on |
| `Sessions.Step` | code/Enclave/ecalls.cpp:13-251 | one call: reply, users, session, tree, bytes and logs, and which paths are loaded |
| `Sessions.RootBlob` | code/Enclave/utils/src/filesystem/serialisation.cpp:4-25 | one blob holds what user management and what the operations on the root directory left |
| `Sessions.CallsKeep` | code/Enclave/ecalls.cpp:13-251 | every run keeps the users consistent and the namespace a tree |
| `Sessions.UsersApart` | code/Enclave/ecalls.cpp:70-251 | users and session after a run are those that its login, add, remove and remount calls alone make |
| `Sessions.Session.constructor` | code/Enclave/ecalls.cpp:13-22 | an empty tree, no user and nobody logged in, on disk and in memory |
| `Sessions.Session.AddUser` | code/Enclave/ecalls.cpp:93-108 | the next state and code; the supernode is written, tree and cache stay |
| `Sessions.Session.RemoveUser` | code/Enclave/ecalls.cpp:110-127 | the next state and code; the supernode is written, tree and cache stay |
| `Sessions.Session.Login` | code/Enclave/ecalls.cpp:70-90 | the next state and code; only the current user can change |
| `Sessions.Session.RemountFilesystem` | code/Enclave/ecalls.cpp:23-67 | users, tree, bytes and logs come back from the host, nothing is loaded and nobody is logged in |
| `Sessions.Session.Forward` | code/Enclave/ecalls.cpp:129-251 | refused unless somebody is logged in; else the operation by path |
| `FileSystems.FileSystem.SaveUsers` | code/Enclave/ecalls.cpp:101-121 | other users in the supernode, in memory and on disk, with tree, bytes, logs and cache as they were |
| `Sessions.Session.Register` | code/Enclave/utils/src/nodes/supernode.cpp:83-94 | refuses an equal user; the first becomes root, the one added to a single user the auditor |
| `Sessions.Session.CheckUser` | code/Enclave/utils/src/nodes/supernode.cpp:105-111 | whether an equal user is registered |
| `Users.RunKeepsConsistent` | code/Enclave/utils/src/nodes/supernode.cpp:83-103 | over every run with fresh UUIDs: once a user exists root stays, as the same user; each key is its user's UUID; whoever is logged in is registered |
| `Users.NextKeepsConsistent` | code/Enclave/ecalls.cpp:70-127 | each call keeps that |
| `Users.KeyIsFree` | code/Enclave/utils/src/nodes/supernode.cpp:87-92 | the key of an added user, root and auditor included, never collides with a registered user |
| `Users.RemovalSpares` | code/Enclave/utils/src/nodes/supernode.cpp:96-103 | a removal never takes root, nor the user who is logged in |
| `Users.LoginExactly` | code/Enclave/ecalls.cpp:70-90 | a login succeeds if and only if the key signs and validates against the public key of the user named; one that fails leaves users and session |
| `Users.LoggedInProved` | code/Enclave/ecalls.cpp:70-90 | over every run, whoever is logged in at the end was already, or has proved his key in a login since the last remounting |
| `Users.ManagementExactly` | code/Enclave/ecalls.cpp:93-127 | the codes of adding and removing: 13 if and only if somebody other than root is logged in, or, to remove, nobody; 17 if and only if an equal user is there, or nobody to remove but root; a call that fails changes nothing |
| `Users.AddedExactly` | code/Enclave/utils/src/nodes/supernode.cpp:83-94 | the first user becomes root, one added to a single user the auditor, others keep the drawn UUID, and nobody else changes |
| `Users.RootKeyGuards` | code/Enclave/ecalls.cpp:70-127 | over every run, while nobody proves the key of root, root is not let in and no user is lost |
| `Sessions.WhoIsIn` | code/Enclave/ecalls.cpp:13-251 | the same as `Users.LoggedInProved` over runs of all calls |
| `Sessions.RootKeyGuardsCalls` | code/Enclave/ecalls.cpp:13-251 | the same as `Users.RootKeyGuards` over runs of all calls |
| `Sessions.LoggedOutRefused` | code/Enclave/ecalls.cpp:129-251 | before a login every operation by path is refused with 13 and nothing changes, over any run |
| `Answers.AllowedExactly` | code/Enclave/utils/src/nodes/node.cpp:72-82 | in bits: root, or everyone reading the supernode, or the owner bit, the read bit to read, the write bit to write, all three to own |
| `Answers.SeenExactly` | code/Enclave/utils/src/filesystem/filesystem.cpp:347-364 | an entry is listed for who may read or write it |
| `Answers.ReadAnswer` | code/Enclave/utils/src/filesystem/filesystem.cpp:200-234 | 13 if and only if the user lacks owner and read bit, 2 if and only if there is no file, else the bytes |
| `Answers.WriteAnswer` | code/Enclave/utils/src/filesystem/filesystem.cpp:236-262 | 13 if and only if the user lacks owner and write bit, 2 if and only if there is no file, else the write; what is refused leaves all bytes |
| `Answers.TruncateAnswer` | code/Enclave/utils/src/filesystem/filesystem.cpp:264-303 | 13 and 2 likewise; 0 if and only if the user may write and the size is 0, and the file is then empty |
| `Answers.OpenAnswer` | code/Enclave/utils/src/filesystem/filesystem.cpp:150-157 | succeeds if and only if every bit that is asked, or the owner bit, is there |
| `Answers.WrittenIsRead` | code/Enclave/utils/src/filesystem/filesystem.cpp:200-262 | by path: who may read reads back what was written, and the size covers it |
| `Answers.TypeAnswer` | code/Enclave/utils/src/filesystem/filesystem.cpp:67-75 | 17 for a file, 21 for a directory, 2 for nothing |
| `Answers.UnlinkAnswer` | code/Enclave/utils/src/filesystem/filesystem.cpp:305-345 | by what the path leads to: 2 unless a file, 13 unless owned, else it succeeds |
| `Answers.RmdirAnswer` | code/Enclave/utils/src/filesystem/filesystem.cpp:402-447 | by what the path leads to: 2 unless a directory, 13 unless owned, 39 unless empty, else it succeeds |
| `Answers.RenameAnswer` | code/Enclave/utils/src/filesystem/filesystem.cpp:90-138 | 71, 2, 17 and 0 by parents, new and old path |
| `Answers.EditAnswer` | code/Enclave/utils/src/filesystem/filesystem.cpp:32-55 | 2 for no node or an unknown user, 13 unless owned, 71 for the root, else it succeeds |
| `Answers.CreatedIs` | code/Enclave/utils/src/filesystem/filesystem.cpp:160-198 | 17, 2 or success; then the path leads to an empty node of the kind, which its creator and root alone may use |
| `Answers.EditedMay` | code/Enclave/utils/src/filesystem/filesystem.cpp:32-55 | afterwards who may do what is as before, but for the one user, who may do what the bits say |
| `Protection.StrangersSpare` | code/Enclave/ecalls.cpp:70-251 | over any run of calls by any users: while nobody who has a given right on a node asks for anything, the node stays, with its rights, and its audit log only grows; if the right is to write, its bytes stay too |
| `Protection.StrangersLearnNothing` | code/Enclave/ecalls.cpp:70-251 | over any such run, if the right is to read: had the file held other bytes, as many, the run would be legal, load the same paths and give the same replies, and end with all the same but those bytes |
| `Protection.ChangesAreRightful` | code/Enclave/utils/src/filesystem/filesystem.cpp:32-447 | one operation: a node is removed or given other rights only by its owner, and given other bytes only by who may write |
| `Protection.NotedExactly` | code/Enclave/utils/src/filesystem/filesystem.cpp:160-447 | one operation: the log of a node that stays gets the reason if the operation concerns it, by creation or removal in it or by a permitted read or write of it, and else nothing |
| `Protection.RunNotes` | code/Enclave/ecalls.cpp:70-251 | over any run of calls by any users, the log of a node that stays gets exactly the reasons of what concerned it, in order |
| `Protection.NewLog` | code/Enclave/utils/src/filesystem/filesystem.cpp:160-198 | the log of a new node begins with the reason of its creation |
| `Protection.OwnsWithoutBit` | code/Enclave/utils/src/filesystem/filesystem.cpp:32-50 | with the three other bits a user may give himself the owner bit |
| `Base64.DecodeEncode` | code/App/utils/src/base64.cpp:57-134 | decoding an encoded text, whatever follows its NUL in memory, gives the bytes with their exact number |
| `Base64.Base64Encode` | code/App/utils/src/base64.cpp:108-134 | writes the text and its NUL, returns the announced length, and leaves the rest of the buffer |
| `Base64Standard.EncodeSpells` | code/App/utils/src/base64.cpp:101-134 | group by group, the characters, as digits of the 64 letters written out, form in base 64 the number that the bytes form in base 256, with the padding |
| `Base64Standard.DecodedIs` | code/App/utils/src/base64.cpp:57-99 | for every text over the alphabet, ended by any other character, the bytes are group by group those that its digits fill |
| `Base64Standard.SixBitsIsDigit` | code/App/utils/src/base64.cpp:24-41 | the table of the decoder is the alphabet read backwards, and marks everything else |
| `Base64Standard.OnesExample` | code/App/utils/src/base64.cpp:101-134 | 24 ones are four slashes |
| `Base64.EncodeLengthExact` | code/App/utils/src/base64.cpp:104-106 | the announced length is the length of the text and its NUL |
| `Base64.Base64Decode` | code/App/utils/src/base64.cpp:57-99 | for any terminated text the count returned is the number of bytes stored before the NUL, and they fit the announced length |
| `Base64.CountExact` | code/App/utils/src/base64.cpp:63-98 | the arithmetic of the count for texts of any length |
| `Paths.CleanPath` | code/Enclave/utils/src/misc.cpp:32-41 | the rewriting loops end and compute the one-pass collapse without its trailing slash |
| `Paths.CleanIsCanonical` | code/Enclave/utils/src/misc.cpp:32-41 | the cleaned path is determined by the names of the path and whether it is absolute, and keeps both |
| `Paths.CleanExample` | code/Enclave/utils/src/misc.cpp:32-41 | the text /a//b/ is cleaned to /a/b, with the names a and b |
| `Paths.CleanTwice` | code/Enclave/utils/src/misc.cpp:32-41 | cleaning is idempotent |
| `Paths.SplitLast` | code/Enclave/utils/src/misc.cpp:4-14 | directory part and relative part of an absolute path |
| `Paths.SplitFirst` | code/Enclave/utils/src/misc.cpp:16-30 | first name and child path of a relative path |
| `Paths.ChildIsShorter` | code/Enclave/utils/src/misc.cpp:24-30 | the child path is shorter for every string, so a walk ends |
| `Listings.ListingBack` | code/Enclave/ecalls.cpp:145-172 | `tokenize` of the exactly filled buffer and any memory behind it gives back the names |
| `Listings.JoinNames` | code/Enclave/ecalls.cpp:162-171 | writes names until the size is reached and returns how many |
| `Listings.FittingExact` | code/Enclave/ecalls.cpp:164-169 | that number is the least that reaches the size, or all |
| `Listings.JoinOverruns` | code/Enclave/ecalls.cpp:157-172 | the names written overrun the announced size if and only if it is less than the total and no number of whole names takes exactly that size |
| `Listings.JoinOverrunsExample` | code/Enclave/ecalls.cpp:157-172 | one name of two letters overruns an announced size of 1 by two bytes |
| `Listings.BufferSize` | code/Enclave/ecalls.cpp:149-155 | the size is that of the joined names |
| `Listings.Tokenize` | code/App/utils/src/misc.cpp:4-24 | the non-empty pieces that a separator ends within the size |

## Left out

- FileStores.FileStore.WriteFile: file and metadata sizes at or above 2^31 are outside its precondition, because the code narrows them to `int`.
- FilenodeContents.FilenodeContent.EncryptBlock: that the new counter differs from the old one is not stated; the random source may return any bytes.
- FileStores.FileStore.ReadFile: offsets for which `FileParts.ReadWraps` shows a wrapped subtraction are outside its precondition.
- FileStores.FileStore.CreateFile: the entry in the parent and the record in its log are in `FileSystems.FileSystem.CreateFile`.
- FileSystems.FileSystem.CreateDirectory: the code updates a time of a null node there; the model leaves that statement out.
- FileSystems.FileSystem.Readdir: a path that does not resolve is outside its precondition, because the code dereferences null.
- FileSystems: loaded nodes are values in the map, so aliasing of node pointers and the freeing of nodes are not modelled; a file operation works on a node object with the loaded value, and stores its value back.
- Nodes.Node: a larger buffer than `e_size` is modelled in `EDump`, but blobs on disk are of exactly that size, as the callers make them.
- Sessions.Session.AddUser: a drawn UUID that is taken is outside its precondition; the code would return success and lose the user.
- Base64.Base64Decode: lengths are unbounded; the code's `int` counts overflow for texts near 2^31 characters.
- Listings.JoinNames: the memory from the buffer on must hold the names written; `Listings.JoinOverruns` says when a buffer of the announced size does not.
- Audit files have no bound; the code measures them with an `int`.
- Times are arbitrary values, and the invariants let the times on disk be older than those in memory.
- Quality of random keys, counters and UUIDs; freshness of UUIDs is assumed.
- Input and output failures, and the error paths they lead to.
- SGX sealing, quotes, remote attestation, elliptic-curve keys and signatures, FUSE callbacks, command-line options.
- `get_times` and `get_rights` would add nothing but reads; calls before there is a filesystem are refused.
- `Base64::decode`, the `std::string` wrapper, returns the whole buffer with its trailing zeros and is no inverse.
